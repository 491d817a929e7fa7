/**
 * The codeword layer: one command becomes one codeword, read back by a decoder
 * that advances a bit cursor. Two layouts exist:
 *   dictionary only:  1,index            or  0,raw bits
 *   with masks:       1,1,index          (exact hit)
 *                     1,0,pos,mask,index (one field differs from an entry)
 *                     0,raw bits         (literal)
 * Indices and positions are written least significant bit first.
 */
module Codewords {
  import opened Wrappers
  import opened Bits
  import opened BitBuffer
  import opened EncodeTables
  import opened MaskMatcher
  import opened Runs

  /** The template parameters of a masked layout: 2^posSize fields of maskSize
      bits cover exactly one table entry. */
  ghost predicate MaskParams(t: EncodeTable, posSize: nat, maskSize: nat)
  {
    ValidTable(t) && Pow2(posSize) * maskSize == 8 * t.cmdLen
  }

  /** Entry e with bits start..start+|f|-1 replaced by f. */
  function Overwrite(e: Bits, start: nat, f: Bits): (r: Bits)
    requires start + |f| <= |e|
    ensures |r| == |e|
  {
    seq(|e|, k requires 0 <= k < |e| => if start <= k < start + |f| then f[k - start] else e[k])
  }

  /** Overwrite keeps the entry before start and after the field, and puts the
      field in between. */
  lemma {:induction false} OverwriteSlices(e: Bits, start: nat, f: Bits)
    requires start + |f| <= |e|
    ensures Overwrite(e, start, f) == e[..start] + f + e[start + |f|..]
  {
    var r, w := Overwrite(e, start, f), e[..start] + f + e[start + |f|..];
    forall k | 0 <= k < |e| ensures r[k] == w[k] {
      if k < start {
        assert w[k] == e[k];
      } else if k < start + |f| {
        assert w[k] == f[k - start];
      } else {
        assert w[k] == e[start + |f|..][k - start - |f|];
      }
    }
  }

  /** What `compress_command_with_dictionary` emits. */
  function DictCodeword(t: EncodeTable, c: Bits): Bits
  {
    var idx := IndexOf(t.entries, ValueOf(c));
    if idx >= 0 then [true] + LowBits(idx, t.indexSize) else [false] + c
  }

  /** The three tiers of the masked layout, in the order they are tried. */
  datatype MaskTier = ExactHit(idx: nat) | MaskHit(entry: nat, pos: nat) | Miss

  /** The tier `compress_command_with_mask` picks for c: an exact hit on the lowest
      equal entry, else the first entry that differs in one field, else a literal. */
  function ChooseTier(t: EncodeTable, posSize: nat, maskSize: nat, c: Bits): MaskTier
  {
    var idx := IndexOf(t.entries, ValueOf(c));
    if idx >= 0 then ExactHit(idx)
    else match FirstMaskMatch(t.entries, c, maskSize, Pow2(posSize))
      case Some((i, pos)) => MaskHit(i, pos)
      case None => Miss
  }

  /** The bits written for c in a given tier. */
  function TierCodeword(t: EncodeTable, posSize: nat, maskSize: nat, c: Bits, tier: MaskTier): Bits
  {
    match tier
    case ExactHit(idx) => [true, true] + LowBits(idx, t.indexSize)
    case MaskHit(i, pos) =>
      [true, false] + LowBits(pos, posSize) + Field(c, maskSize, pos) + LowBits(i, t.indexSize)
    case Miss => [false] + c
  }

  /** What `compress_command_with_mask` emits. */
  function MaskCodeword(t: EncodeTable, posSize: nat, maskSize: nat, c: Bits): Bits
  {
    TierCodeword(t, posSize, maskSize, c, ChooseTier(t, posSize, maskSize, c))
  }

  function DecodeLiteral(t: EncodeTable, s: Bits, start: nat): (r: Option<Decoded>)
    ensures r.Some? ==> start <= r.value.next <= |s|
  {
    var n := 8 * t.cmdLen;
    if start + n > |s| then None else Some(Decoded(s[start..start + n], start + n))
  }

  /** The table entry named by the index bits at start, if the index is in range. */
  function DecodeIndex(t: EncodeTable, s: Bits, start: nat): (r: Option<Decoded>)
    ensures r.Some? ==> r.value.next == start + t.indexSize <= |s|
  {
    var e := start + t.indexSize;
    if e > |s| then None
    else
      var idx := ValueOf(s[start..e]);
      if idx >= |t.entries| then None else Some(Decoded(t.entries[idx], e))
  }

  /** `restore_block_dict` on the bits s with the cursor at pos. Where the source
      would read past the end of the stream or of the table, the result is None. */
  function DecodeDict(t: EncodeTable, s: Bits, pos: nat): (r: Option<Decoded>)
    ensures r.Some? ==> pos < r.value.next <= |s|
  {
    if pos >= |s| then None
    else if s[pos] then DecodeIndex(t, s, pos + 1)
    else DecodeLiteral(t, s, pos + 1)
  }

  /** `restore_block_mask` on the bits s with the cursor at pos; None as for DecodeDict. */
  function DecodeMask(t: EncodeTable, posSize: nat, maskSize: nat, s: Bits, pos: nat): (r: Option<Decoded>)
    requires MaskParams(t, posSize, maskSize)
    ensures r.Some? ==> pos < r.value.next <= |s|
  {
    if pos >= |s| then None
    else if !s[pos] then DecodeLiteral(t, s, pos + 1)
    else if pos + 1 >= |s| then None
    else if s[pos + 1] then DecodeIndex(t, s, pos + 2)
    else DecodeMaskFields(t, posSize, maskSize, s, pos + 2)
  }

  /** The mask branch from the position bits at p on: position, mask, index. */
  function DecodeMaskFields(t: EncodeTable, posSize: nat, maskSize: nat, s: Bits, p: nat): (r: Option<Decoded>)
    requires MaskParams(t, posSize, maskSize)
    ensures r.Some? ==> p <= r.value.next <= |s|
  {
    var m := p + posSize;
    var x := m + maskSize;
    var e := x + t.indexSize;
    if e > |s| then None
    else
      var maskPos := ValueOf(s[p..m]);
      var idx := ValueOf(s[x..e]);
      if idx >= |t.entries| then None
      else
        ValueOfBound(s[p..m]);
        FieldEnd(maskPos, Pow2(posSize), maskSize);
        Some(Decoded(Overwrite(t.entries[idx], maskPos * maskSize, s[m..x]), e))
  }

  // ---------------------------------------------------------------------------
  // Round trips of single codewords

  /** Index bits written by `add(value, n)` read back as the index. */
  lemma ValueOfLow(w: Bits, v: nat, k: nat)
    requires w == LowBits(v, k) && v < Pow2(k)
    ensures ValueOf(w) == v
  {
    ValueOfLowBits(v, k);
    DivModUnique(v, Pow2(k), 0, v);
  }

  /** Decoding a dictionary codeword placed anywhere in a stream gives the command
      back and moves the cursor to the end of the codeword. */
  lemma DictRoundTrip(t: EncodeTable, c: Bits, p: Bits, q: Bits)
    requires ValidTable(t) && |c| == 8 * t.cmdLen
    ensures DecodeDict(t, p + DictCodeword(t, c) + q, |p|)
         == Some(Decoded(c, |p| + |DictCodeword(t, c)|))
  {
    var cw := DictCodeword(t, c);
    Embedded(p, cw, q);
    DictRoundTripAt(t, c, p + cw + q, |p|);
  }

  /** A set flag followed by the index bits of an entry decodes as that entry. */
  lemma DictIndexBranch(t: EncodeTable, s: Bits, n: nat, idx: nat)
    requires ValidTable(t) && idx < |t.entries|
    requires n + 1 + t.indexSize <= |s| && s[n]
    requires ValueOf(s[n + 1..n + 1 + t.indexSize]) == idx
    ensures DecodeDict(t, s, n) == Some(Decoded(t.entries[idx], n + 1 + t.indexSize))
  {
  }

  /** A clear flag followed by a command's bits decodes as that command. */
  lemma DictLiteralBranch(t: EncodeTable, s: Bits, n: nat, c: Bits)
    requires |c| == 8 * t.cmdLen
    requires n + 1 + |c| <= |s| && !s[n]
    requires s[n + 1..n + 1 + |c|] == c
    ensures DecodeDict(t, s, n) == Some(Decoded(c, n + 1 + |c|))
  {
  }

  /** The dictionary round trip for a codeword found anywhere inside a stream. */
  lemma DictRoundTripAt(t: EncodeTable, c: Bits, s: Bits, n: nat)
    requires ValidTable(t) && |c| == 8 * t.cmdLen
    requires n + |DictCodeword(t, c)| <= |s|
    requires s[n..n + |DictCodeword(t, c)|] == DictCodeword(t, c)
    ensures DecodeDict(t, s, n) == Some(Decoded(c, n + |DictCodeword(t, c)|))
  {
    var cw := DictCodeword(t, c);
    assert s[n] == cw[0];
    IndexOfMember(t, c);
    var idx := IndexOf(t.entries, ValueOf(c));
    if idx >= 0 {
      var w := LowBits(idx, t.indexSize);
      assert cw == [true] + w && cw[1..1 + t.indexSize] == w;
      ValueAt(s, n, cw, 1, 1 + t.indexSize, n + 1, n + 1 + t.indexSize, t.indexSize, idx);
      DictIndexBranch(t, s, n, idx);
    } else {
      assert cw == [false] + c && cw[1..1 + |c|] == c;
      SliceAt(s, n, cw, 1, 1 + |c|, n + 1, n + 1 + |c|);
      DictLiteralBranch(t, s, n, c);
    }
  }

  /** The mask branch: the field put back into the entry is the command. */
  lemma MaskBranch(t: EncodeTable, posSize: nat, maskSize: nat, c: Bits, i: nat, pos: nat)
    requires MaskParams(t, posSize, maskSize) && |c| == 8 * t.cmdLen
    requires FirstMaskMatch(t.entries, c, maskSize, Pow2(posSize)) == Some((i, pos))
    ensures i < |t.entries| && pos < Pow2(posSize) && i < Pow2(t.indexSize)
    ensures 0 <= pos * maskSize && pos * maskSize + maskSize <= |c| && |Field(c, maskSize, pos)| == maskSize
    ensures Overwrite(t.entries[i], pos * maskSize, Field(c, maskSize, pos)) == c
  {
    MulNat(pos, maskSize);
    MaskMatchMeaning(t.entries, c, maskSize, Pow2(posSize));
    MaskRestores(t.entries, c, maskSize, Pow2(posSize));
    FieldIsSlice(c, maskSize, pos);
    OverwriteSlices(t.entries[i], pos * maskSize, Field(c, maskSize, pos));
  }

  /** Decoding a masked codeword placed anywhere in a stream gives the command back
      and moves the cursor to the end of the codeword, in each of the three tiers. */
  lemma MaskRoundTrip(t: EncodeTable, posSize: nat, maskSize: nat, c: Bits, p: Bits, q: Bits)
    requires MaskParams(t, posSize, maskSize) && |c| == 8 * t.cmdLen
    ensures DecodeMask(t, posSize, maskSize, p + MaskCodeword(t, posSize, maskSize, c) + q, |p|)
         == Some(Decoded(c, |p| + |MaskCodeword(t, posSize, maskSize, c)|))
  {
    var cw := MaskCodeword(t, posSize, maskSize, c);
    Embedded(p, cw, q);
    MaskRoundTripAt(t, posSize, maskSize, c, p + cw + q, |p|);
  }

  /** The round trip for a codeword found anywhere inside a stream. */
  lemma MaskRoundTripAt(t: EncodeTable, posSize: nat, maskSize: nat, c: Bits, s: Bits, n: nat)
    requires MaskParams(t, posSize, maskSize) && |c| == 8 * t.cmdLen
    requires n + |MaskCodeword(t, posSize, maskSize, c)| <= |s|
    requires s[n..n + |MaskCodeword(t, posSize, maskSize, c)|] == MaskCodeword(t, posSize, maskSize, c)
    ensures DecodeMask(t, posSize, maskSize, s, n)
         == Some(Decoded(c, n + |MaskCodeword(t, posSize, maskSize, c)|))
  {
    var tier := ChooseTier(t, posSize, maskSize, c);
    var cw := TierCodeword(t, posSize, maskSize, c, tier);
    TierMeaning(t, posSize, maskSize, c);
    match tier
    case ExactHit(idx) =>
      MaskHitRoundTrip(t, posSize, maskSize, s, n, cw, c, idx);
    case MaskHit(i, pos) =>
      MaskBranch(t, posSize, maskSize, c, i, pos);
      MaskFieldRoundTrip(t, posSize, maskSize, s, n, cw, c, i, pos);
    case Miss =>
      LiteralRoundTrip(t, posSize, maskSize, s, n, cw, c);
  }

  /** What each tier promises about the command and the table. */
  lemma TierMeaning(t: EncodeTable, posSize: nat, maskSize: nat, c: Bits)
    requires ValidTable(t) && |c| == 8 * t.cmdLen
    ensures match ChooseTier(t, posSize, maskSize, c)
            case ExactHit(idx) => idx < |t.entries| && t.entries[idx] == c
            case MaskHit(i, pos) =>
              c !in t.entries && FirstMaskMatch(t.entries, c, maskSize, Pow2(posSize)) == Some((i, pos))
            case Miss => c !in t.entries && FirstMaskMatch(t.entries, c, maskSize, Pow2(posSize)).None?
  {
    IndexOfMember(t, c);
  }

  lemma MaskHitRoundTrip(t: EncodeTable, posSize: nat, maskSize: nat, s: Bits, n: nat, cw: Bits,
                         c: Bits, idx: nat)
    requires MaskParams(t, posSize, maskSize)
    requires idx < |t.entries| && t.entries[idx] == c
    requires cw == [true, true] + LowBits(idx, t.indexSize)
    requires n + |cw| <= |s| && s[n..n + |cw|] == cw
    ensures DecodeMask(t, posSize, maskSize, s, n) == Some(Decoded(c, n + |cw|))
  {
    assert s[n] == cw[0] && s[n + 1] == cw[1];
    assert cw[2..2 + t.indexSize] == LowBits(idx, t.indexSize);
    ValueAt(s, n, cw, 2, 2 + t.indexSize, n + 2, n + 2 + t.indexSize, t.indexSize, idx);
  }

  lemma MaskFieldRoundTrip(t: EncodeTable, posSize: nat, maskSize: nat, s: Bits, n: nat, cw: Bits,
                           c: Bits, i: nat, pos: nat)
    requires MaskParams(t, posSize, maskSize) && |c| == 8 * t.cmdLen
    requires i < |t.entries| && pos < Pow2(posSize) && i < Pow2(t.indexSize)
    requires pos * maskSize + maskSize <= |c| && |Field(c, maskSize, pos)| == maskSize
    requires Overwrite(t.entries[i], pos * maskSize, Field(c, maskSize, pos)) == c
    requires cw == [true, false] + LowBits(pos, posSize) + Field(c, maskSize, pos) + LowBits(i, t.indexSize)
    requires n + |cw| <= |s| && s[n..n + |cw|] == cw
    ensures DecodeMask(t, posSize, maskSize, s, n) == Some(Decoded(c, n + |cw|))
  {
    var f := Field(c, maskSize, pos);
    var p := n + 2;
    var m := n + 2 + posSize;
    var x := n + 2 + posSize + maskSize;
    var e := n + 2 + posSize + maskSize + t.indexSize;
    MaskCodewordParts(cw, posSize, maskSize, t.indexSize, pos, f, i);
    assert s[n] == cw[0] && s[n + 1] == cw[1];
    ValueAt(s, n, cw, 2, 2 + posSize, p, m, posSize, pos);
    SliceAt(s, n, cw, 2 + posSize, 2 + posSize + maskSize, m, x);
    ValueAt(s, n, cw, 2 + posSize + maskSize, 2 + posSize + maskSize + t.indexSize, x, e, t.indexSize, i);
    MaskFieldsDecode(t, posSize, maskSize, s, p, m, x, e, pos, f, i);
  }

  /** Position, mask and index fields that read as pos, f and i decode as entry i
      with f written over field pos. */
  lemma MaskFieldsDecode(t: EncodeTable, posSize: nat, maskSize: nat, s: Bits, p: nat, m: nat, x: nat, e: nat,
                         pos: nat, f: Bits, i: nat)
    requires MaskParams(t, posSize, maskSize) && i < |t.entries| && |f| == maskSize
    requires m == p + posSize && x == p + posSize + maskSize && e == p + posSize + maskSize + t.indexSize
    requires e <= |s| && ValueOf(s[p..m]) == pos && s[m..x] == f && ValueOf(s[x..e]) == i
    ensures pos * maskSize + maskSize <= |t.entries[i]|
    ensures DecodeMaskFields(t, posSize, maskSize, s, p) == Some(Decoded(Overwrite(t.entries[i], pos * maskSize, f), e))
  {
    ValueOfBound(s[p..m]);
    FieldEnd(pos, Pow2(posSize), maskSize);
  }

  lemma LiteralRoundTrip(t: EncodeTable, posSize: nat, maskSize: nat, s: Bits, n: nat, cw: Bits, c: Bits)
    requires MaskParams(t, posSize, maskSize) && |c| == 8 * t.cmdLen
    requires cw == [false] + c
    requires n + |cw| <= |s| && s[n..n + |cw|] == cw
    ensures DecodeMask(t, posSize, maskSize, s, n) == Some(Decoded(c, n + |cw|))
  {
    assert s[n] == cw[0] && cw[1..1 + |c|] == c;
    SliceAt(s, n, cw, 1, 1 + |c|, n + 1, n + 1 + |c|);
  }

  /** The flags and the three fields of a mask codeword, by their offsets. */
  lemma MaskCodewordParts(cw: Bits, posSize: nat, maskSize: nat, indexSize: nat, pos: nat, f: Bits, i: nat)
    requires cw == [true, false] + LowBits(pos, posSize) + f + LowBits(i, indexSize) && |f| == maskSize
    ensures |cw| == 2 + posSize + maskSize + indexSize && !cw[1]
    ensures cw[2..2 + posSize] == LowBits(pos, posSize)
    ensures cw[2 + posSize..2 + posSize + maskSize] == f
    ensures cw[2 + posSize + maskSize..2 + posSize + maskSize + indexSize] == LowBits(i, indexSize)
  {
    var head := [true, false] + LowBits(pos, posSize);
    assert cw == head + f + LowBits(i, indexSize);
    assert cw[2..2 + posSize] == head[2..];
    assert cw[2 + posSize..2 + posSize + maskSize] == (head + f)[|head|..];
    assert cw[2 + posSize + maskSize..] == LowBits(i, indexSize);
  }

  /** Bits a..b of a codeword placed at n are bits lo..hi of the stream. */
  lemma SliceAt(s: Bits, n: nat, cw: Bits, a: nat, b: nat, lo: nat, hi: nat)
    requires lo == n + a && hi == n + b && a <= b <= |cw| && n + |cw| <= |s| && s[n..n + |cw|] == cw
    ensures s[lo..hi] == cw[a..b]
  {
    SubSlice(s, n, cw, a, b);
  }

  /** Index bits a..b of a codeword placed at n read back, from the stream, as the index. */
  lemma ValueAt(s: Bits, n: nat, cw: Bits, a: nat, b: nat, lo: nat, hi: nat, k: nat, v: nat)
    requires lo == n + a && hi == n + b && b == a + k && b <= |cw| && n + |cw| <= |s| && s[n..n + |cw|] == cw
    requires cw[a..b] == LowBits(v, k) && v < Pow2(k)
    ensures ValueOf(s[lo..hi]) == v
  {
    SliceAt(s, n, cw, a, b, lo, hi);
    ValueOfLow(s[lo..hi], v, k);
  }

  /** A codeword between p and q sits at |p|. */
  lemma Embedded(p: Bits, cw: Bits, q: Bits)
    ensures (p + cw + q)[|p|..|p| + |cw|] == cw
  {
    assert (p + cw + q)[|p|..|p| + |cw|] == (p + cw)[|p|..];
  }

  /** A slice of a codeword placed at n is the same slice of the stream. */
  lemma SubSlice(s: Bits, n: nat, cw: Bits, a: nat, b: nat)
    requires a <= b <= |cw| && n + |cw| <= |s| && s[n..n + |cw|] == cw
    ensures s[n + a..n + b] == cw[a..b]
  {
    forall k | 0 <= k < b - a
      ensures s[n + a..n + b][k] == cw[a..b][k]
    {
      assert s[n + a + k] == s[n..n + |cw|][a + k];
    }
  }

  // ---------------------------------------------------------------------------
  // The compressors

  /** `compress_command_with_dictionary`: a new command holding the codeword. */
  method CompressWithDictionary(t: EncodeTable, comm: DynBitset) returns (ccmd: DynBitset)
    requires ValidTable(t) && comm.Valid()
    ensures fresh(ccmd) && ccmd.Valid() && ccmd.Bits() == DictCodeword(t, comm.Bits())
  {
    var indx := Find(t, comm);
    if indx != -1 {
      ccmd := EmitIndexHit(t, indx);
    } else {
      ccmd := EmitDictLiteral(comm);
    }
  }

  /** The dictionary hit writes: a set flag and the entry index. */
  method EmitIndexHit(t: EncodeTable, indx: nat) returns (ccmd: DynBitset)
    ensures fresh(ccmd) && ccmd.Valid() && ccmd.Bits() == [true] + LowBits(indx, t.indexSize)
  {
    ccmd := new DynBitset();
    ccmd.Add(true);
    ccmd.AddValue(indx, t.indexSize);
  }

  /** The dictionary miss writes: a clear flag, then the command's bits copied from
      its bytes. */
  method EmitDictLiteral(comm: DynBitset) returns (ccmd: DynBitset)
    requires comm.Valid()
    ensures fresh(ccmd) && ccmd.Valid() && ccmd.Bits() == [false] + comm.Bits()
  {
    ccmd := new DynBitset();
    ccmd.Add(false);
    comm.View();
    ByteCount(comm.bits);
    var added := ccmd.AddFrom(comm.data, comm.bits, 0);
    assert BytesToBits(comm.data)[0..comm.bits] == comm.Bits();
  }

  /** `compress_command_with_mask`: a new command holding the codeword. The command
      must be as wide as the entries, or the field scan reads past its end. */
  method CompressWithMask(t: EncodeTable, posSize: nat, maskSize: nat, comm: DynBitset)
    returns (ccmd: DynBitset)
    requires MaskParams(t, posSize, maskSize) && comm.Valid() && comm.bits == 8 * t.cmdLen
    ensures fresh(ccmd) && ccmd.Valid()
    ensures ccmd.Bits() == MaskCodeword(t, posSize, maskSize, comm.Bits())
  {
    ghost var c := comm.Bits();
    var indx := Find(t, comm);
    if indx != -1 {
      ccmd := EmitExactHit(t, indx);
    } else {
      var finded, mask, pos, maskIndx := FindMask(t, posSize, maskSize, comm);
      if finded {
        ccmd := EmitMaskHit(t, posSize, pos, mask, maskIndx);
      } else {
        DivModUnique(comm.bits, 8, t.cmdLen, 0);
        ccmd := EmitLiteral(comm);
      }
    }
    TierCodewords(t, posSize, maskSize, c);
  }

  /** The codeword of each tier, in the terms the compressor computes it in. */
  lemma TierCodewords(t: EncodeTable, posSize: nat, maskSize: nat, c: Bits)
    ensures IndexOf(t.entries, ValueOf(c)) >= 0 ==>
      MaskCodeword(t, posSize, maskSize, c) == [true, true] + LowBits(IndexOf(t.entries, ValueOf(c)), t.indexSize)
    ensures IndexOf(t.entries, ValueOf(c)) < 0 && FirstMaskMatch(t.entries, c, maskSize, Pow2(posSize)).Some? ==>
      var (i, pos) := FirstMaskMatch(t.entries, c, maskSize, Pow2(posSize)).value;
      MaskCodeword(t, posSize, maskSize, c)
        == [true, false] + LowBits(pos, posSize) + Field(c, maskSize, pos) + LowBits(i, t.indexSize)
    ensures IndexOf(t.entries, ValueOf(c)) < 0 && FirstMaskMatch(t.entries, c, maskSize, Pow2(posSize)).None? ==>
      MaskCodeword(t, posSize, maskSize, c) == [false] + c
  {
  }

  /** The exact-hit writes: two set flags and the entry index. */
  method EmitExactHit(t: EncodeTable, indx: nat) returns (ccmd: DynBitset)
    ensures fresh(ccmd) && ccmd.Valid()
    ensures ccmd.Bits() == [true, true] + LowBits(indx, t.indexSize)
  {
    ccmd := new DynBitset();
    ccmd.Add(true);
    ccmd.Add(true);
    ccmd.AddValue(indx, t.indexSize);
  }

  /** The mask-hit writes: flags 1,0, the field position, the field, the entry index. */
  method EmitMaskHit(t: EncodeTable, posSize: nat, pos: nat, mask: DynBitset, maskIndx: nat)
    returns (ccmd: DynBitset)
    requires mask.Valid()
    ensures fresh(ccmd) && ccmd.Valid()
    ensures ccmd.Bits() == [true, false] + LowBits(pos, posSize) + mask.Bits() + LowBits(maskIndx, t.indexSize)
  {
    ccmd := new DynBitset();
    ccmd.Add(true);
    ccmd.Add(false);
    assert ccmd.Bits() == [true, false];
    ccmd.AddValue(pos, posSize);
    ghost var head := ccmd.Bits();
    ccmd.AddAll(mask.Bits());
    assert ccmd.Bits() == head + mask.Bits();
    ccmd.AddValue(maskIndx, t.indexSize);
  }

  /** The literal writes: a clear flag, then every byte of the command, which for a
      command of whole bytes is exactly its bits. */
  method EmitLiteral(comm: DynBitset) returns (ccmd: DynBitset)
    requires comm.Valid() && comm.bits % 8 == 0
    ensures fresh(ccmd) && ccmd.Valid() && ccmd.Bits() == [false] + comm.Bits()
  {
    ccmd := new DynBitset();
    ccmd.Add(false);
    comm.DataIsPacked();
    ccmd.AddBytes(comm.data, |comm.data| * 8);
    UnpackPack(comm.Bits());
    assert BytesToBits(comm.data)[..|comm.data| * 8] == comm.Bits();
  }

  // ---------------------------------------------------------------------------
  // The decoders

  /** `getseq` then `to_size_t`: the value of k bits at the cursor. */
  method ReadValue(csec: DynBitset, start: nat, k: nat) returns (v: nat)
    requires csec.Valid() && start + k <= csec.bits
    ensures v == ValueOf(csec.Bits()[start..start + k])
  {
    var bitset := csec.GetSeq(start, start + k);
    v := bitset.ToSizeT();
  }

  /** The literal loop: n bits read one by one from the cursor into a new command. */
  method ReadLiteral(csec: DynBitset, start: nat, n: nat) returns (cmd: DynBitset)
    requires csec.Valid() && start + n <= csec.bits
    ensures fresh(cmd) && cmd.Valid() && cmd.Bits() == csec.Bits()[start..start + n]
  {
    cmd := new DynBitset();
    for j := 0 to n
      invariant fresh(cmd) && cmd.Valid() && cmd.Bits() == csec.Bits()[start..start + j]
    {
      var v := csec.GetBit(start + j);
      cmd.Add(v);
      SliceSnoc(csec.Bits(), start, start + j);
    }
  }

  /** `cmd = entab[indx]`: a new command holding a copy of the entry. */
  method CopyEntry(e: Bits) returns (cmd: DynBitset)
    ensures fresh(cmd) && cmd.Valid() && cmd.Bits() == e
  {
    cmd := new DynBitset();
    cmd.AddAll(e);
  }

  /** One `setbit` of the mask loop extends the overwritten prefix by one bit. */
  lemma OverwriteStep(e: Bits, start: nat, f: Bits, j: nat)
    requires j < |f| && start + |f| <= |e|
    ensures (e[..start] + f[..j] + e[start + j..])[start + j := f[j]]
         == e[..start] + f[..j + 1] + e[start + j + 1..]
  {
  }

  /** The `setbit` loop of the mask branch: the mask's bits written over the
      command from bit start on. */
  method ApplyMask(cmd: DynBitset, start: nat, mask: DynBitset)
    requires cmd.Valid() && mask.Valid() && cmd != mask && start + mask.bits <= cmd.bits
    modifies cmd
    ensures cmd.Valid() && cmd.Bits() == Overwrite(old(cmd.Bits()), start, mask.Bits())
  {
    ghost var e := cmd.Bits();
    for j := 0 to mask.bits
      invariant cmd.Valid() && cmd.Bits() == e[..start] + mask.Bits()[..j] + e[start + j..]
    {
      CopyBit(cmd, start, mask, j, e);
    }
    assert mask.Bits()[..mask.bits] == mask.Bits();
    OverwriteSlices(e, start, mask.Bits());
  }

  /** One pass of the `setbit` loop: bit j of the mask written over bit start + j. */
  method CopyBit(cmd: DynBitset, start: nat, mask: DynBitset, j: nat, ghost e: Bits)
    requires cmd.Valid() && mask.Valid() && cmd != mask && j < mask.bits && start + mask.bits <= |e|
    requires cmd.Bits() == e[..start] + mask.Bits()[..j] + e[start + j..]
    modifies cmd
    ensures cmd.Valid() && cmd.Bits() == e[..start] + mask.Bits()[..j + 1] + e[start + j + 1..]
  {
    var v := mask.GetBit(j);
    OverwriteStep(e, start, mask.Bits(), j);
    cmd.SetBit(start + j, v);
  }

  /** `restore_block_dict`: ok is false exactly where the source would read past
      the end of the stream or of the table. */
  method RestoreBlockDict(csec: DynBitset, pos: nat, t: EncodeTable)
    returns (ok: bool, cmd: DynBitset, next: nat)
    requires csec.Valid()
    ensures fresh(cmd) && cmd.Valid()
    ensures ok <==> DecodeDict(t, csec.Bits(), pos).Some?
    ensures ok ==> Decoded(cmd.Bits(), next) == DecodeDict(t, csec.Bits(), pos).value
  {
    cmd := new DynBitset();
    next := pos;
    if next >= csec.bits {
      return false, cmd, next;
    }
    var cbit := csec.GetBit(next);
    next := next + 1;
    if cbit {
      ok, cmd, next := RestoreIndexed(csec, next, t);
    } else {
      ok, cmd, next := RestoreLiteral(csec, next, t);
    }
  }

  /** The index branch shared by both decoders. */
  method RestoreIndexed(csec: DynBitset, start: nat, t: EncodeTable)
    returns (ok: bool, cmd: DynBitset, next: nat)
    requires csec.Valid()
    ensures fresh(cmd) && cmd.Valid()
    ensures ok <==> DecodeIndex(t, csec.Bits(), start).Some?
    ensures ok ==> Decoded(cmd.Bits(), next) == DecodeIndex(t, csec.Bits(), start).value
  {
    next := start + t.indexSize;
    if next > csec.bits {
      cmd := new DynBitset();
      return false, cmd, next;
    }
    var indx := ReadValue(csec, start, t.indexSize);
    if indx >= |t.entries| {
      cmd := new DynBitset();
      return false, cmd, next;
    }
    cmd := CopyEntry(t.entries[indx]);
    ok := true;
  }

  /** The literal branch shared by both decoders. */
  method RestoreLiteral(csec: DynBitset, start: nat, t: EncodeTable)
    returns (ok: bool, cmd: DynBitset, next: nat)
    requires csec.Valid()
    ensures fresh(cmd) && cmd.Valid()
    ensures ok <==> DecodeLiteral(t, csec.Bits(), start).Some?
    ensures ok ==> Decoded(cmd.Bits(), next) == DecodeLiteral(t, csec.Bits(), start).value
  {
    var cmdlenBits := 8 * t.cmdLen;
    next := start + cmdlenBits;
    if next > csec.bits {
      cmd := new DynBitset();
      return false, cmd, next;
    }
    cmd := ReadLiteral(csec, start, cmdlenBits);
    ok := true;
  }

  /** The mask branch: position, mask and index, then the entry with the mask written in. */
  method RestoreMasked(csec: DynBitset, p: nat, t: EncodeTable, posSize: nat, maskSize: nat)
    returns (ok: bool, cmd: DynBitset, next: nat)
    requires csec.Valid() && MaskParams(t, posSize, maskSize) && 2 <= p
    ensures fresh(cmd) && cmd.Valid()
    ensures ok <==> DecodeMaskFields(t, posSize, maskSize, csec.Bits(), p).Some?
    ensures ok ==> Decoded(cmd.Bits(), next) == DecodeMaskFields(t, posSize, maskSize, csec.Bits(), p).value
  {
    var m := p + posSize;
    var x := m + maskSize;
    next := x + t.indexSize;
    if next > csec.bits {
      cmd := new DynBitset();
      return false, cmd, next;
    }
    var maskPos := ReadValue(csec, p, posSize);
    var indx := ReadValue(csec, x, t.indexSize);
    if indx >= |t.entries| {
      cmd := new DynBitset();
      return false, cmd, next;
    }
    ValueOfBound(csec.Bits()[p..m]);
    FieldEnd(maskPos, Pow2(posSize), maskSize);
    cmd := MaskedEntry(csec, m, x, t.entries[indx], maskPos * maskSize);
    ok := true;
  }

  /** The entry e with the mask read from bits m..x of the stream written in at start. */
  method MaskedEntry(csec: DynBitset, m: nat, x: nat, e: Bits, start: nat) returns (cmd: DynBitset)
    requires csec.Valid() && m <= x <= csec.bits && start + (x - m) <= |e|
    ensures fresh(cmd) && cmd.Valid() && cmd.Bits() == Overwrite(e, start, csec.Bits()[m..x])
  {
    var mask := csec.GetSeq(m, x);
    cmd := CopyEntry(e);
    ApplyMask(cmd, start, mask);
  }

  /** `restore_block_mask`: ok is false exactly where the source would read past
      the end of the stream or of the table. */
  method RestoreBlockMask(csec: DynBitset, pos: nat, t: EncodeTable, posSize: nat, maskSize: nat)
    returns (ok: bool, cmd: DynBitset, next: nat)
    requires csec.Valid() && MaskParams(t, posSize, maskSize)
    ensures fresh(cmd) && cmd.Valid()
    ensures ok <==> DecodeMask(t, posSize, maskSize, csec.Bits(), pos).Some?
    ensures ok ==> Decoded(cmd.Bits(), next) == DecodeMask(t, posSize, maskSize, csec.Bits(), pos).value
  {
    next := pos;
    if next >= csec.bits {
      cmd := new DynBitset();
      return false, cmd, next;
    }
    var cbit := csec.GetBit(next);
    next := next + 1;
    if !cbit {
      ok, cmd, next := RestoreLiteral(csec, next, t);
      return;
    }
    if next >= csec.bits {
      cmd := new DynBitset();
      return false, cmd, next;
    }
    var mbit := csec.GetBit(next);
    next := next + 1;
    if mbit {
      ok, cmd, next := RestoreIndexed(csec, next, t);
    } else {
      ok, cmd, next := RestoreMasked(csec, next, t, posSize, maskSize);
    }
  }
}
