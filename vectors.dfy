/**
 * The codec's unit-test vectors, stated over the model. The tests build 16-bit
 * commands from integers, so a command here is given by its value: `Cmd(c, v)`
 * says that c holds what `add(v, 16)` appends to an empty command.
 */
module CodecVectors {
  import opened Wrappers
  import opened Bits
  import opened EncodeTables
  import opened MaskMatcher
  import opened Codewords
  import opened Runs

  /** c is the 16-bit command holding v. */
  ghost predicate Cmd(c: Bits, v: nat)
  {
    |c| == 16 && ValueOf(c) == v
  }

  /** The table the codeword tests build from 0xfffd and 0xfffb with a 1-bit index,
      as the constructor leaves it: sorted. */
  ghost predicate TestTable(t: EncodeTable)
  {
    && t.cmdLen == 2 && t.indexSize == 1 && |t.entries| == 2
    && Cmd(t.entries[0], 0xfffb) && Cmd(t.entries[1], 0xfffd)
  }

  /** Field j of a 16-bit command is nibble j of its value. */
  lemma NibbleValue(c: Bits, j: nat)
    requires |c| == 16 && j < 4
    ensures |Field(c, 4, j)| == 4
    ensures ValueOf(Field(c, 4, j)) == (ValueOf(c) / Pow2(4 * j)) % 16
  {
    FieldIsSlice(c, 4, j);
    var t := c[4 * j..];
    SplitValues(c, 4 * j);
    SplitValues(t, 4);
    assert t[..4] == c[4 * j..4 * j + 4];
    assert Pow2(4) == 16;
  }

  /** Field j of a 16-bit command whose nibble j is x holds the four bits of x. */
  lemma FieldBits(c: Bits, j: nat, x: nat)
    requires |c| == 16 && j < 4 && (ValueOf(c) / Pow2(4 * j)) % 16 == x
    ensures Field(c, 4, j) == LowBits(x, 4)
  {
    NibbleValue(c, j);
    LowBitsOfValue(Field(c, 4, j));
  }

  /** Two 16-bit commands agree in field j exactly when their values agree in nibble j. */
  lemma SameNibble(a: Bits, b: Bits, j: nat)
    requires |a| == 16 && |b| == 16 && j < 4
    ensures Field(a, 4, j) == Field(b, 4, j) <==> (ValueOf(a) / Pow2(4 * j)) % 16 == (ValueOf(b) / Pow2(4 * j)) % 16
  {
    NibbleValue(a, j);
    NibbleValue(b, j);
    if ValueOf(Field(a, 4, j)) == ValueOf(Field(b, 4, j)) {
      ValueOfInjective(Field(a, 4, j), Field(b, 4, j));
    }
  }

  /** Which of the four nibbles of two 16-bit commands differ. */
  lemma Nibbles(a: Bits, b: Bits)
    requires |a| == 16 && |b| == 16
    ensures Field(a, 4, 0) == Field(b, 4, 0) <==> ValueOf(a) % 16 == ValueOf(b) % 16
    ensures Field(a, 4, 1) == Field(b, 4, 1) <==> (ValueOf(a) / 16) % 16 == (ValueOf(b) / 16) % 16
    ensures Field(a, 4, 2) == Field(b, 4, 2) <==> (ValueOf(a) / 256) % 16 == (ValueOf(b) / 256) % 16
    ensures Field(a, 4, 3) == Field(b, 4, 3) <==> (ValueOf(a) / 4096) % 16 == (ValueOf(b) / 4096) % 16
  {
    Pow2Values();
    SameNibble(a, b, 0);
    SameNibble(a, b, 1);
    SameNibble(a, b, 2);
    SameNibble(a, b, 3);
  }

  /** Four fields, counted, and the last one that differs. */
  lemma FourFields(a: Bits, b: Bits, m: nat)
    ensures var d0, d1, d2, d3 := Field(a, m, 0) != Field(b, m, 0), Field(a, m, 1) != Field(b, m, 1),
                                  Field(a, m, 2) != Field(b, m, 2), Field(a, m, 3) != Field(b, m, 3);
            && DifferingFields(a, b, m, 4) ==
               (if d0 then 1 else 0) + (if d1 then 1 else 0) + (if d2 then 1 else 0) + (if d3 then 1 else 0)
            && LastDifferingField(a, b, m, 4) == if d3 then 3 else if d2 then 2 else if d1 then 1 else if d0 then 0 else -1
  {
    var d0, d1, d2, d3 := Field(a, m, 0) != Field(b, m, 0), Field(a, m, 1) != Field(b, m, 1),
                          Field(a, m, 2) != Field(b, m, 2), Field(a, m, 3) != Field(b, m, 3);
    assert DifferingFields(a, b, m, 2) == (if d0 then 1 else 0) + (if d1 then 1 else 0);
    assert LastDifferingField(a, b, m, 2) == if d1 then 1 else if d0 then 0 else -1;
    assert DifferingFields(a, b, m, 3) == DifferingFields(a, b, m, 2) + (if d2 then 1 else 0);
    assert LastDifferingField(a, b, m, 3) == if d2 then 2 else LastDifferingField(a, b, m, 2);
  }

  /** The field count and the last differing field of two 16-bit commands, from
      their values' nibbles. */
  lemma NibbleCount(a: Bits, b: Bits, va: nat, vb: nat)
    requires Cmd(a, va) && Cmd(b, vb)
    ensures var d0, d1, d2, d3 := va % 16 != vb % 16, (va / 16) % 16 != (vb / 16) % 16,
                                  (va / 256) % 16 != (vb / 256) % 16, (va / 4096) % 16 != (vb / 4096) % 16;
            && DifferingFields(a, b, 4, 4) ==
               (if d0 then 1 else 0) + (if d1 then 1 else 0) + (if d2 then 1 else 0) + (if d3 then 1 else 0)
            && LastDifferingField(a, b, 4, 4) == if d3 then 3 else if d2 then 2 else if d1 then 1 else if d0 then 0 else -1
  {
    Nibbles(a, b);
    FourFields(a, b, 4);
  }

  /** Over a one-entry table the match is that entry, when it differs in exactly one field. */
  lemma OneEntryMatch(e: Bits, c: Bits, m: nat, n: nat)
    ensures DifferingFields(e, c, m, n) != 1 ==> FirstMaskMatch([e], c, m, n) == None
    ensures DifferingFields(e, c, m, n) == 1 ==>
              LastDifferingField(e, c, m, n) >= 0 &&
              FirstMaskMatch([e], c, m, n) == Some((0, LastDifferingField(e, c, m, n) as nat))
  {
    assert [e][1..] == [];
    if DifferingFields(e, c, m, n) == 1 {
      SomeDifference(e, c, m, n);
    }
  }

  // find_mask over the table {0xffff}, four 4-bit fields

  /** 0xafff differs from 0xffff in field 3 only; the field holds 0xa. */
  lemma FindMaskHighNibble(e: Bits, c: Bits)
    requires Cmd(e, 0xffff) && Cmd(c, 0xafff)
    ensures FirstMaskMatch([e], c, 4, 4) == Some((0, 3)) && Field(c, 4, 3) == LowBits(0xa, 4)
  {
    NibbleCount(e, c, 0xffff, 0xafff);
    OneEntryMatch(e, c, 4, 4);
    assert Pow2(4 * 3) == 4096 by {
      Pow2Values();
    }
    FieldBits(c, 3, 0xa);
  }

  /** 0xffaf differs from 0xffff in field 1 only; the field holds 0xa. */
  lemma FindMaskLowNibble(e: Bits, c: Bits)
    requires Cmd(e, 0xffff) && Cmd(c, 0xffaf)
    ensures FirstMaskMatch([e], c, 4, 4) == Some((0, 1)) && Field(c, 4, 1) == LowBits(0xa, 4)
  {
    NibbleCount(e, c, 0xffff, 0xffaf);
    OneEntryMatch(e, c, 4, 4);
    assert Pow2(4 * 1) == 16 by {
      Pow2Values();
    }
    FieldBits(c, 1, 0xa);
  }

  /** An equal command differs in no field: no mask. */
  lemma FindMaskEqual(e: Bits, c: Bits)
    requires Cmd(e, 0xffff) && Cmd(c, 0xffff)
    ensures FirstMaskMatch([e], c, 4, 4) == None
  {
    NibbleCount(e, c, 0xffff, 0xffff);
    OneEntryMatch(e, c, 4, 4);
  }

  /** 0xafaf differs from 0xffff in two fields: no mask. */
  lemma FindMaskTwoNibbles(e: Bits, c: Bits)
    requires Cmd(e, 0xffff) && Cmd(c, 0xafaf)
    ensures FirstMaskMatch([e], c, 4, 4) == None
  {
    NibbleCount(e, c, 0xffff, 0xafaf);
    OneEntryMatch(e, c, 4, 4);
  }

  // The codeword table

  /** The test table meets the masked layout: four 4-bit fields per 16-bit entry. */
  lemma TestTableValid(t: EncodeTable)
    requires TestTable(t)
    ensures MaskParams(t, 2, 4)
  {
    Pow2Values();
  }

  /** `encode_table<2,1>({0xfffd, 0xfffb})` sorts its two entries. */
  lemma TestTableBuilt(a: Bits, b: Bits)
    requires Cmd(a, 0xfffd) && Cmd(b, 0xfffb)
    ensures MakeTable(2, 1, [a, b]).Ok? && TestTable(MakeTable(2, 1, [a, b]).value)
  {
    Pow2Values();
    var r := MakeTable(2, 1, [a, b]);
    assert AllWidth([a, b], 16);
    var x := r.value.entries;
    assert multiset(x) == multiset([a, b]);
    assert |x| == 2;
    assert x[0] in multiset([a, b]) && x[1] in multiset([a, b]);
    assert Key(x[0]) <= Key(x[1]);
    if x[0] == a {
      assert false;
    }
  }

  /** Lookups in the test table. */
  lemma TestIndex(t: EncodeTable, v: nat)
    requires TestTable(t)
    ensures IndexOf(t.entries, v) == if v == 0xfffb then 0 else if v == 0xfffd then 1 else -1
  {
    assert t.entries[1..] == [t.entries[1]];
  }

  // compress_command_with_dictionary

  /** 0xfffd is entry 1: the codeword is `1` and the index bit `1`. */
  lemma DictionaryHit(t: EncodeTable, c: Bits)
    requires TestTable(t) && Cmd(c, 0xfffd)
    ensures DictCodeword(t, c) == LowBits(3, 2)
  {
    TestIndex(t, 0xfffd);
  }

  /** 0xffff is no entry: the codeword is `0` and the sixteen bits. */
  lemma DictionaryLiteral(t: EncodeTable, c: Bits)
    requires TestTable(t) && Cmd(c, 0xffff)
    ensures DictCodeword(t, c) == LowBits(0x1fffe, 17)
  {
    TestIndex(t, 0xffff);
    LowBitsOfValue(c);
    assert LowBits(0x1fffe, 17) == [false] + LowBits(0xffff, 16);
  }

  // compress_command_with_mask, two position bits and 4-bit fields

  /** 0xfffd is entry 1: `1`, `1` and the index bit `1`. */
  lemma MaskExactHit(t: EncodeTable, c: Bits)
    requires TestTable(t) && Cmd(c, 0xfffd)
    ensures MaskCodeword(t, 2, 4, c) == LowBits(7, 3)
  {
    TestIndex(t, 0xfffd);
  }

  /** 0xaaaa differs from both entries in every nibble: a literal. */
  lemma LiteralTier(t: EncodeTable, c: Bits)
    requires TestTable(t) && Cmd(c, 0xaaaa)
    ensures ChooseTier(t, 2, 4, c) == Miss
  {
    TestIndex(t, 0xaaaa);
    assert Pow2(2) == 4;
    NoMaskOnTable(t, c);
  }

  lemma NoMaskOnTable(t: EncodeTable, c: Bits)
    requires TestTable(t) && Cmd(c, 0xaaaa)
    ensures FirstMaskMatch(t.entries, c, 4, 4) == None
  {
    var e0, e1 := t.entries[0], t.entries[1];
    NibbleCount(e0, c, 0xfffb, 0xaaaa);
    NibbleCount(e1, c, 0xfffd, 0xaaaa);
    assert t.entries[1..] == [e1];
    OneEntryMatch(e1, c, 4, 4);
  }

  /** 0xaaaa: `0` and the sixteen bits. */
  lemma MaskLiteral(t: EncodeTable, c: Bits)
    requires TestTable(t) && Cmd(c, 0xaaaa)
    ensures MaskCodeword(t, 2, 4, c) == LowBits(0x15554, 17)
  {
    LiteralTier(t, c);
    LowBitsOfValue(c);
    assert LowBits(0x15554, 17) == [false] + LowBits(0xaaaa, 16);
  }

  /** 0xffff differs from 0xfffb in nibble 0 only: a mask hit on entry 0, field 0. */
  lemma FieldHitTier(t: EncodeTable, c: Bits)
    requires TestTable(t) && Cmd(c, 0xffff)
    ensures ChooseTier(t, 2, 4, c) == MaskHit(0, 0)
  {
    TestIndex(t, 0xffff);
    assert Pow2(2) == 4;
    NibbleCount(t.entries[0], c, 0xfffb, 0xffff);
  }

  /** `1`, `0`, position 0, field 0xf, index 0, least significant bit first. */
  lemma FieldHitBits(f: Bits)
    requires f == LowBits(0xf, 4)
    ensures [true, false] + LowBits(0, 2) + f + LowBits(0, 1) == LowBits(0xf1, 9)
  {
  }

  /** 0xffff: a mask on entry 0xfffb at position 0 with the field 0xf. */
  lemma MaskFieldHit(t: EncodeTable, c: Bits)
    requires TestTable(t) && Cmd(c, 0xffff)
    ensures MaskCodeword(t, 2, 4, c) == LowBits(0xf1, 9)
  {
    FieldHitTier(t, c);
    NibbleValue(c, 0);
    Pow2Values();
    LowBitsOfValue(Field(c, 4, 0));
    FieldHitBits(Field(c, 4, 0));
  }

  // restore_block_mask and restore_block_dict on the codewords above

  /** The literal codeword of 0xaaaa reads back as 0xaaaa, all 17 bits consumed. */
  lemma RestoreMaskLiteral(t: EncodeTable, c: Bits)
    requires TestTable(t) && Cmd(c, 0xaaaa)
    ensures MaskParams(t, 2, 4) && DecodeMask(t, 2, 4, LowBits(0x15554, 17), 0) == Some(Decoded(c, 17))
  {
    TestTableValid(t);
    LowBitsOfValue(c);
    var s := LowBits(0x15554, 17);
    assert s == [false] + LowBits(0xaaaa, 16);
    assert s[1..17] == LowBits(0xaaaa, 16);
  }

  /** `111` reads back as entry 1, 0xfffd. */
  lemma RestoreMaskExact(t: EncodeTable, c: Bits)
    requires TestTable(t) && Cmd(c, 0xfffd)
    ensures MaskParams(t, 2, 4) && DecodeMask(t, 2, 4, LowBits(7, 3), 0) == Some(Decoded(c, 3))
  {
    TestTableValid(t);
    var s := LowBits(7, 3);
    assert s == [true, true, true];
    assert ValueOf(s[2..3]) == 1;
    ValueOfInjective(t.entries[1], c);
  }

  /** Overwriting the low |f| bits of e by f keeps the value of e above them. */
  lemma OverwriteLow(e: Bits, f: Bits)
    requires |f| <= |e|
    ensures ValueOf(Overwrite(e, 0, f)) == ValueOf(f) + Pow2(|f|) * (ValueOf(e) / Pow2(|f|))
  {
    OverwriteSlices(e, 0, f);
    assert Overwrite(e, 0, f) == f + e[|f|..];
    ValueOfAppend(f, e[|f|..]);
    SplitValues(e, |f|);
  }

  /** Entry 0xfffb with field 0 overwritten by 0xf is 0xffff. */
  lemma OverwriteNibble(e: Bits, f: Bits, c: Bits)
    requires Cmd(e, 0xfffb) && f == LowBits(0xf, 4) && Cmd(c, 0xffff)
    ensures Overwrite(e, 0, f) == c
  {
    OverwriteLow(e, f);
    Pow2Values();
    ValueOfLowBits(0xf, 4);
    ValueOfInjective(Overwrite(e, 0, f), c);
  }

  /** The nine-bit mask codeword of 0xffff, bit by bit. */
  lemma FieldHitLiteral()
    ensures LowBits(0xf1, 9) == [true, false, false, false, true, true, true, true, false]
  {
  }

  /** Its fields: the tier bits, position 0, the field 0xf and index 0. */
  lemma FieldHitStream(s: Bits)
    requires s == [true, false, false, false, true, true, true, true, false]
    ensures |s| == 9 && s[0] && !s[1]
    ensures ValueOf(s[2..4]) == 0 && s[4..8] == LowBits(0xf, 4) && ValueOf(s[8..9]) == 0
  {
    assert s[2..4] == [false, false] && s[8..9] == [false];
    assert ValueOf([false, false]) == 0 && ValueOf([false]) == 0;
    assert s[4..8] == [true, true, true, true];
  }

  /** The nine-bit mask codeword of 0xffff reads back as 0xffff. */
  lemma RestoreMaskField(t: EncodeTable, c: Bits)
    requires TestTable(t) && Cmd(c, 0xffff)
    ensures MaskParams(t, 2, 4) && DecodeMask(t, 2, 4, LowBits(0xf1, 9), 0) == Some(Decoded(c, 9))
  {
    TestTableValid(t);
    var s := LowBits(0xf1, 9);
    FieldHitLiteral();
    FieldHitStream(s);
    OverwriteNibble(t.entries[0], s[4..8], c);
  }

  /** Only the first eight of those nine bits end before the index bit: nothing is read. */
  lemma RestoreMaskFieldShort(t: EncodeTable)
    requires TestTable(t)
    ensures MaskParams(t, 2, 4) && DecodeMask(t, 2, 4, LowBits(0xf1, 8), 0) == None
  {
    TestTableValid(t);
  }

  /** The literal dictionary codeword of 0xffff reads back as 0xffff. */
  lemma RestoreDictionaryLiteral(t: EncodeTable, c: Bits)
    requires TestTable(t) && Cmd(c, 0xffff)
    ensures DecodeDict(t, LowBits(0x1fffe, 17), 0) == Some(Decoded(c, 17))
  {
    LowBitsOfValue(c);
    var s := LowBits(0x1fffe, 17);
    assert s == [false] + LowBits(0xffff, 16);
    assert s[1..17] == LowBits(0xffff, 16);
  }

  /** `11` reads back as entry 1, 0xfffd. */
  lemma RestoreDictionaryHit(t: EncodeTable, c: Bits)
    requires TestTable(t) && Cmd(c, 0xfffd)
    ensures DecodeDict(t, LowBits(3, 2), 0) == Some(Decoded(c, 2))
  {
    var s := LowBits(3, 2);
    assert s == [true, true];
    assert ValueOf(s[1..2]) == 1;
    ValueOfInjective(t.entries[1], c);
  }
}
