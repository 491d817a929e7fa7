/**
 * The per-scheme section loops: `encode_code_section_*` appends the codewords of
 * every command to one buffer, and `rv32i_*_restore_section_commands` reads them
 * back from cursor 0 until the cursor reaches the bit length. Each loop is proved
 * against EncodeSection / DecodeSection of its scheme, so SectionRoundTrip
 * carries over to the loops.
 */
module Sections {
  import opened Wrappers
  import opened Bits
  import opened Runs
  import opened BitBuffer
  import opened Commands
  import opened EncodeTables
  import opened Codewords
  import opened Schemes

  // ---------------------------------------------------------------------------
  // What each scheme writes for one word

  /** DICT writes the two-tier codeword of the whole word. */
  lemma DictWord(ts: seq<EncodeTable>, c: Bits)
    requires |ts| == 1 && |c| == Rv32Bits
    ensures EncodeCommand(Dict, ts, c) == DictCodeword(ts[0], c)
  {
    var ws := PieceCodes(Dict, ts, Parts(Dict, c));
    assert ws == [DictCodeword(ts[0], c)];
    JoinedSmall(ws[0], [], [], []);
  }

  /** MASK_SINGLE writes the three-tier codeword of the whole word. */
  lemma SingleWord(ts: seq<EncodeTable>, c: Bits)
    requires |ts| == 1 && |c| == Rv32Bits
    ensures EncodeCommand(MaskSingle, ts, c) == MaskCodeword(ts[0], SinglePosSize, SingleMaskSize, c)
  {
    var ws := PieceCodes(MaskSingle, ts, Parts(MaskSingle, c));
    assert ws == [MaskCodeword(ts[0], SinglePosSize, SingleMaskSize, c)];
    JoinedSmall(ws[0], [], [], []);
  }

  /** MASK_DUO writes the low half, then the high half. */
  lemma DuoWord(ts: seq<EncodeTable>, c: Bits)
    requires |ts| == 2 && |c| == Rv32Bits
    ensures EncodeCommand(MaskDuo, ts, c)
         == MaskCodeword(ts[0], DuoPosSize, DuoMaskSize, c[..16])
          + MaskCodeword(ts[1], DuoPosSize, DuoMaskSize, c[16..])
  {
    var ws := PieceCodes(MaskDuo, ts, Parts(MaskDuo, c));
    assert ws == [MaskCodeword(ts[0], DuoPosSize, DuoMaskSize, c[..16]),
                  MaskCodeword(ts[1], DuoPosSize, DuoMaskSize, c[16..])];
    JoinedSmall(ws[0], ws[1], [], []);
  }

  /** MASK_QUAD writes bytes 0, 1, 2 and 3, in that order. */
  lemma QuadWord(ts: seq<EncodeTable>, c: Bits)
    requires |ts| == 4 && |c| == Rv32Bits
    ensures EncodeCommand(MaskQuad, ts, c)
         == MaskCodeword(ts[0], QuadPosSize, QuadMaskSize, c[..8])
          + MaskCodeword(ts[1], QuadPosSize, QuadMaskSize, c[8..16])
          + MaskCodeword(ts[2], QuadPosSize, QuadMaskSize, c[16..24])
          + MaskCodeword(ts[3], QuadPosSize, QuadMaskSize, c[24..])
  {
    var ws := PieceCodes(MaskQuad, ts, Parts(MaskQuad, c));
    assert ws == [MaskCodeword(ts[0], QuadPosSize, QuadMaskSize, c[..8]),
                  MaskCodeword(ts[1], QuadPosSize, QuadMaskSize, c[8..16]),
                  MaskCodeword(ts[2], QuadPosSize, QuadMaskSize, c[16..24]),
                  MaskCodeword(ts[3], QuadPosSize, QuadMaskSize, c[24..])];
    JoinedSmall(ws[0], ws[1], ws[2], ws[3]);
  }

  /** MASK_DUO_QUAD writes the low half, then byte 2, then byte 3. */
  lemma DuoQuadWord(ts: seq<EncodeTable>, c: Bits)
    requires |ts| == 3 && |c| == Rv32Bits
    ensures EncodeCommand(MaskDuoQuad, ts, c)
         == MaskCodeword(ts[0], DuoPosSize, DuoMaskSize, c[..16])
          + MaskCodeword(ts[1], QuadPosSize, QuadMaskSize, c[16..24])
          + MaskCodeword(ts[2], QuadPosSize, QuadMaskSize, c[24..])
  {
    var ws := PieceCodes(MaskDuoQuad, ts, Parts(MaskDuoQuad, c));
    assert ws == [MaskCodeword(ts[0], DuoPosSize, DuoMaskSize, c[..16]),
                  MaskCodeword(ts[1], QuadPosSize, QuadMaskSize, c[16..24]),
                  MaskCodeword(ts[2], QuadPosSize, QuadMaskSize, c[24..])];
    JoinedSmall(ws[0], ws[1], ws[2], []);
  }

  /** MASK_OPERANDS_OPCODE writes the 24 operand bits, then the 8 opcode bits. */
  lemma OpersWord(ts: seq<EncodeTable>, c: Bits)
    requires |ts| == 2 && |c| == Rv32Bits
    ensures EncodeCommand(MaskOperandsOpcode, ts, c)
         == MaskCodeword(ts[0], OpersPosSize, OpersMaskSize, c[8..])
          + MaskCodeword(ts[1], QuadPosSize, QuadMaskSize, c[..8])
  {
    var ws := PieceCodes(MaskOperandsOpcode, ts, Parts(MaskOperandsOpcode, c));
    assert ws == [MaskCodeword(ts[0], OpersPosSize, OpersMaskSize, c[8..]),
                  MaskCodeword(ts[1], QuadPosSize, QuadMaskSize, c[..8])];
    JoinedSmall(ws[0], ws[1], [], []);
  }

  // ---------------------------------------------------------------------------
  // What each scheme reads for one word

  /** DICT reads the two-tier codeword of the whole word. */
  lemma DictRead(ts: seq<EncodeTable>, bits: Bits, pos: nat)
    requires SchemeTables(Dict, ts)
    ensures DecodeCommand(Dict, ts, bits, pos) == DecodeDict(ts[0], bits, pos)
  {
    ReadLastPiece(PieceReader(Dict, ts, bits), 1, pos);
  }

  /** MASK_SINGLE reads the three-tier codeword of the whole word. */
  lemma SingleRead(ts: seq<EncodeTable>, bits: Bits, pos: nat)
    requires SchemeTables(MaskSingle, ts)
    ensures MaskParams(ts[0], SinglePosSize, SingleMaskSize)
    ensures DecodeCommand(MaskSingle, ts, bits, pos) == DecodeMask(ts[0], SinglePosSize, SingleMaskSize, bits, pos)
  {
    var fs := Formats(MaskSingle);
    assert Fits(fs[0], ts[0]);
    ReadLastPiece(PieceReader(MaskSingle, ts, bits), 1, pos);
  }

  /** MASK_DUO reads the low half, then the high half, and glues them. */
  lemma DuoRead(ts: seq<EncodeTable>, bits: Bits, pos: nat)
    requires SchemeTables(MaskDuo, ts)
    ensures MaskParams(ts[0], DuoPosSize, DuoMaskSize) && MaskParams(ts[1], DuoPosSize, DuoMaskSize)
    ensures DecodeCommand(MaskDuo, ts, bits, pos)
         == match DecodeMask(ts[0], DuoPosSize, DuoMaskSize, bits, pos)
            case None => None
            case Some(d1) =>
              match DecodeMask(ts[1], DuoPosSize, DuoMaskSize, bits, d1.next)
              case None => None
              case Some(d2) => Some(Decoded(d1.cmd + d2.cmd, d2.next))
  {
    var fs := Formats(MaskDuo);
    assert Fits(fs[0], ts[0]) && Fits(fs[1], ts[1]);
    match DecodeMask(ts[0], DuoPosSize, DuoMaskSize, bits, pos)
    case None =>
    case Some(d1) =>
      ReadLastPiece(PieceReader(MaskDuo, ts, bits), 2, d1.next);
      match DecodeMask(ts[1], DuoPosSize, DuoMaskSize, bits, d1.next)
      case None =>
      case Some(d2) =>
        assert [d1.cmd] + [d2.cmd] == [d1.cmd, d2.cmd];
  }

  /** The four tables of MASK_QUAD are byte tables of the quad layout. */
  lemma QuadTables(ts: seq<EncodeTable>)
    requires SchemeTables(MaskQuad, ts)
    ensures |ts| == 4
    ensures MaskParams(ts[0], QuadPosSize, QuadMaskSize) && ts[0].cmdLen == CmdLenQ
    ensures MaskParams(ts[1], QuadPosSize, QuadMaskSize) && ts[1].cmdLen == CmdLenQ
    ensures MaskParams(ts[2], QuadPosSize, QuadMaskSize) && ts[2].cmdLen == CmdLenQ
    ensures MaskParams(ts[3], QuadPosSize, QuadMaskSize) && ts[3].cmdLen == CmdLenQ
  {
    var fs := Formats(MaskQuad);
    assert Fits(fs[0], ts[0]) && Fits(fs[1], ts[1]) && Fits(fs[2], ts[2]) && Fits(fs[3], ts[3]);
  }

  /** MASK_QUAD reads bytes 0 to 3 in order and glues them. */
  lemma QuadRead(ts: seq<EncodeTable>, bits: Bits, pos: nat)
    requires SchemeTables(MaskQuad, ts)
    ensures forall k :: 0 <= k < 4 ==> MaskParams(ts[k], QuadPosSize, QuadMaskSize)
    ensures DecodeCommand(MaskQuad, ts, bits, pos)
         == match DecodeMask(ts[0], QuadPosSize, QuadMaskSize, bits, pos)
            case None => None
            case Some(d1) =>
              match DecodeMask(ts[1], QuadPosSize, QuadMaskSize, bits, d1.next)
              case None => None
              case Some(d2) =>
                match DecodeMask(ts[2], QuadPosSize, QuadMaskSize, bits, d2.next)
                case None => None
                case Some(d3) =>
                  match DecodeMask(ts[3], QuadPosSize, QuadMaskSize, bits, d3.next)
                  case None => None
                  case Some(d4) => Some(Decoded(d1.cmd + d2.cmd + d3.cmd + d4.cmd, d4.next))
  {
    var fs := Formats(MaskQuad);
    assert Fits(fs[0], ts[0]) && Fits(fs[1], ts[1]) && Fits(fs[2], ts[2]) && Fits(fs[3], ts[3]);
    match DecodeMask(ts[0], QuadPosSize, QuadMaskSize, bits, pos)
    case None =>
    case Some(d1) =>
      match DecodeMask(ts[1], QuadPosSize, QuadMaskSize, bits, d1.next)
      case None =>
      case Some(d2) =>
        match DecodeMask(ts[2], QuadPosSize, QuadMaskSize, bits, d2.next)
        case None =>
        case Some(d3) =>
          ReadLastPiece(PieceReader(MaskQuad, ts, bits), 4, d3.next);
          match DecodeMask(ts[3], QuadPosSize, QuadMaskSize, bits, d3.next)
          case None =>
          case Some(d4) =>
            assert [d1.cmd] + ([d2.cmd] + ([d3.cmd] + [d4.cmd])) == [d1.cmd, d2.cmd, d3.cmd, d4.cmd];
  }

  /** MASK_DUO_QUAD reads the low half, byte 2 and byte 3, and glues them. */
  lemma DuoQuadRead(ts: seq<EncodeTable>, bits: Bits, pos: nat)
    requires SchemeTables(MaskDuoQuad, ts)
    ensures MaskParams(ts[0], DuoPosSize, DuoMaskSize)
    ensures MaskParams(ts[1], QuadPosSize, QuadMaskSize) && MaskParams(ts[2], QuadPosSize, QuadMaskSize)
    ensures DecodeCommand(MaskDuoQuad, ts, bits, pos)
         == match DecodeMask(ts[0], DuoPosSize, DuoMaskSize, bits, pos)
            case None => None
            case Some(d1) =>
              match DecodeMask(ts[1], QuadPosSize, QuadMaskSize, bits, d1.next)
              case None => None
              case Some(d2) =>
                match DecodeMask(ts[2], QuadPosSize, QuadMaskSize, bits, d2.next)
                case None => None
                case Some(d3) => Some(Decoded(d1.cmd + d2.cmd + d3.cmd, d3.next))
  {
    var fs := Formats(MaskDuoQuad);
    assert Fits(fs[0], ts[0]) && Fits(fs[1], ts[1]) && Fits(fs[2], ts[2]);
    match DecodeMask(ts[0], DuoPosSize, DuoMaskSize, bits, pos)
    case None =>
    case Some(d1) =>
      match DecodeMask(ts[1], QuadPosSize, QuadMaskSize, bits, d1.next)
      case None =>
      case Some(d2) =>
        ReadLastPiece(PieceReader(MaskDuoQuad, ts, bits), 3, d2.next);
        match DecodeMask(ts[2], QuadPosSize, QuadMaskSize, bits, d2.next)
        case None =>
        case Some(d3) =>
          assert [d1.cmd] + ([d2.cmd] + [d3.cmd]) == [d1.cmd, d2.cmd, d3.cmd];
  }

  /** MASK_OPERANDS_OPCODE reads the operands, then the opcode, and puts the
      opcode first. */
  lemma OpersRead(ts: seq<EncodeTable>, bits: Bits, pos: nat)
    requires SchemeTables(MaskOperandsOpcode, ts)
    ensures MaskParams(ts[0], OpersPosSize, OpersMaskSize) && MaskParams(ts[1], QuadPosSize, QuadMaskSize)
    ensures DecodeCommand(MaskOperandsOpcode, ts, bits, pos)
         == match DecodeMask(ts[0], OpersPosSize, OpersMaskSize, bits, pos)
            case None => None
            case Some(d1) =>
              match DecodeMask(ts[1], QuadPosSize, QuadMaskSize, bits, d1.next)
              case None => None
              case Some(d2) => Some(Decoded(d2.cmd + d1.cmd, d2.next))
  {
    var fs := Formats(MaskOperandsOpcode);
    assert Fits(fs[0], ts[0]) && Fits(fs[1], ts[1]);
    match DecodeMask(ts[0], OpersPosSize, OpersMaskSize, bits, pos)
    case None =>
    case Some(d1) =>
      ReadLastPiece(PieceReader(MaskOperandsOpcode, ts, bits), 2, d1.next);
      match DecodeMask(ts[1], QuadPosSize, QuadMaskSize, bits, d1.next)
      case None =>
      case Some(d2) =>
        assert [d1.cmd] + [d2.cmd] == [d1.cmd, d2.cmd];
  }

  // ---------------------------------------------------------------------------
  // The loop bodies: one word appended, one word read

  /** The tables of a scheme, each fitting its format. */
  lemma TablesFit(s: Scheme, ts: seq<EncodeTable>)
    requires SchemeTables(s, ts)
    ensures forall k :: 0 <= k < |ts| ==> Fits(Formats(s)[k], ts[k])
  {
  }

  /** `devide_half` on a copy of the word: its low and high halves. */
  method Halve(c: Bits) returns (lo: Bits, hi: Bits)
    ensures lo == c[..|c| / 2] && hi == c[|c| / 2..]
  {
    var comm := CopyEntry(c);
    var ccmd1 := new DynBitset();
    var ccmd2 := new DynBitset();
    DevideHalf(comm, ccmd1, ccmd2);
    lo, hi := ccmd1.Bits(), ccmd2.Bits();
  }

  /** `devide` at fbits on a copy of the word: its first fbits bits and the rest. */
  method Cut(c: Bits, fbits: nat) returns (first: Bits, rest: Bits)
    requires fbits <= |c|
    ensures first == c[..fbits] && rest == c[fbits..]
  {
    var comm := CopyEntry(c);
    var ocmd1 := new DynBitset();
    var ocmd2 := new DynBitset();
    var _ := Devide(comm, ocmd1, ocmd2, fbits);
    first, rest := ocmd1.Bits(), ocmd2.Bits();
  }

  /** `compress_command_with_mask` on a copy of a sub-command. */
  method CompressPart(t: EncodeTable, posSize: nat, maskSize: nat, part: Bits) returns (cw: Bits)
    requires MaskParams(t, posSize, maskSize) && |part| == 8 * t.cmdLen
    ensures cw == MaskCodeword(t, posSize, maskSize, part)
  {
    var comm := CopyEntry(part);
    var ccmd := CompressWithMask(t, posSize, maskSize, comm);
    cw := ccmd.Bits();
  }

  /** Four pieces appended one by one are their concatenation appended at once. */
  lemma AppendFour(before: Bits, a: Bits, b: Bits, c: Bits, d: Bits)
    ensures before + a + b + c + d == before + (a + b + c + d)
  {
  }

  lemma AppendThree(before: Bits, a: Bits, b: Bits, c: Bits)
    ensures before + a + b + c == before + (a + b + c)
  {
  }

  /** One turn of `encode_code_section_dictionary`. */
  method AppendDictionary(csec: DynBitset, c: Bits, t: EncodeTable)
    requires csec.Valid() && |c| == Rv32Bits && SchemeTables(Dict, [t])
    modifies csec
    ensures csec.Valid() && csec.Bits() == old(csec.Bits()) + EncodeCommand(Dict, [t], c)
  {
    assert Fits(Formats(Dict)[0], [t][0]);
    var comm := CopyEntry(c);
    var ccmd := CompressWithDictionary(t, comm);
    DictWord([t], c);
    csec.AddAll(ccmd.Bits());
  }

  /** One turn of `encode_code_section_mask_single`. */
  method AppendMaskSingle(csec: DynBitset, c: Bits, t: EncodeTable)
    requires csec.Valid() && |c| == Rv32Bits && SchemeTables(MaskSingle, [t])
    modifies csec
    ensures csec.Valid() && csec.Bits() == old(csec.Bits()) + EncodeCommand(MaskSingle, [t], c)
  {
    assert Fits(Formats(MaskSingle)[0], [t][0]);
    var cw := CompressPart(t, SinglePosSize, SingleMaskSize, c);
    SingleWord([t], c);
    csec.AddAll(cw);
  }

  /** One turn of `encode_code_section_mask_duo`: the word is halved and each half
      coded with its own table. */
  method AppendMaskDuo(csec: DynBitset, c: Bits, t1: EncodeTable, t2: EncodeTable)
    requires csec.Valid() && |c| == Rv32Bits && SchemeTables(MaskDuo, [t1, t2])
    modifies csec
    ensures csec.Valid() && csec.Bits() == old(csec.Bits()) + EncodeCommand(MaskDuo, [t1, t2], c)
  {
    assert Fits(DuoFormat, t1) && Fits(DuoFormat, t2) by {
      assert Fits(Formats(MaskDuo)[0], [t1, t2][0]) && Fits(Formats(MaskDuo)[1], [t1, t2][1]);
    }
    var ccmd1, ccmd2 := Halve(c);
    var cw1 := CompressPart(t1, DuoPosSize, DuoMaskSize, ccmd1);
    var cw2 := CompressPart(t2, DuoPosSize, DuoMaskSize, ccmd2);
    ghost var before := csec.Bits();
    csec.AddAll(cw1);
    csec.AddAll(cw2);
    DuoWord([t1, t2], c);
    Associative(before, cw1, cw2);
  }

  /** One turn of `encode_code_section_mask_quad`: the word is halved, each half
      halved again, and the four bytes coded with their own tables. */
  method AppendMaskQuad(csec: DynBitset, c: Bits, ts: seq<EncodeTable>)
    requires csec.Valid() && |c| == Rv32Bits && SchemeTables(MaskQuad, ts)
    modifies csec
    ensures csec.Valid() && csec.Bits() == old(csec.Bits()) + EncodeCommand(MaskQuad, ts, c)
  {
    QuadTables(ts);
    var t11, t12, t21, t22 := ts[0], ts[1], ts[2], ts[3];
    var ccmd1, ccmd2 := Halve(c);
    var ccmd11, ccmd12 := Halve(ccmd1);
    var ccmd21, ccmd22 := Halve(ccmd2);
    assert ccmd11 == c[..8] && ccmd12 == c[8..16] && ccmd21 == c[16..24] && ccmd22 == c[24..];
    var cw11 := CompressPart(t11, QuadPosSize, QuadMaskSize, ccmd11);
    var cw12 := CompressPart(t12, QuadPosSize, QuadMaskSize, ccmd12);
    var cw21 := CompressPart(t21, QuadPosSize, QuadMaskSize, ccmd21);
    var cw22 := CompressPart(t22, QuadPosSize, QuadMaskSize, ccmd22);
    AddFour(csec, cw11, cw12, cw21, cw22);
    QuadWord(ts, c);
  }

  /** The four `add` calls of one word: the codewords in order. */
  method AddFour(csec: DynBitset, a: Bits, b: Bits, c: Bits, d: Bits)
    requires csec.Valid()
    modifies csec
    ensures csec.Valid() && csec.Bits() == old(csec.Bits()) + (a + b + c + d)
  {
    ghost var before := csec.Bits();
    csec.AddAll(a);
    csec.AddAll(b);
    csec.AddAll(c);
    csec.AddAll(d);
    AppendFour(before, a, b, c, d);
  }

  /** One turn of `encode_code_section_mask_duo_quad`: the low half, then the two
      bytes of the high half. */
  method AppendMaskDuoQuad(csec: DynBitset, c: Bits, t1: EncodeTable, t21: EncodeTable, t22: EncodeTable)
    requires csec.Valid() && |c| == Rv32Bits && SchemeTables(MaskDuoQuad, [t1, t21, t22])
    modifies csec
    ensures csec.Valid() && csec.Bits() == old(csec.Bits()) + EncodeCommand(MaskDuoQuad, [t1, t21, t22], c)
  {
    assert Fits(DuoFormat, t1) && Fits(QuadFormat, t21) && Fits(QuadFormat, t22) by {
      var ts := [t1, t21, t22];
      assert Fits(Formats(MaskDuoQuad)[0], ts[0]) && Fits(Formats(MaskDuoQuad)[1], ts[1]);
      assert Fits(Formats(MaskDuoQuad)[2], ts[2]);
    }
    var ccmd1, ccmd2 := Halve(c);
    var ccmd21, ccmd22 := Halve(ccmd2);
    assert ccmd21 == c[16..24] && ccmd22 == c[24..];
    var cw1 := CompressPart(t1, DuoPosSize, DuoMaskSize, ccmd1);
    var cw21 := CompressPart(t21, QuadPosSize, QuadMaskSize, ccmd21);
    var cw22 := CompressPart(t22, QuadPosSize, QuadMaskSize, ccmd22);
    ghost var before := csec.Bits();
    csec.AddAll(cw1);
    csec.AddAll(cw21);
    csec.AddAll(cw22);
    DuoQuadWord([t1, t21, t22], c);
    AppendThree(before, cw1, cw21, cw22);
  }

  /** One turn of `encode_code_section_operands_opcode`: the word is cut after the
      8 opcode bits; the operands are coded first. */
  method AppendOperandsOpcode(csec: DynBitset, c: Bits, tOperands: EncodeTable, tOpcode: EncodeTable)
    requires csec.Valid() && |c| == Rv32Bits && SchemeTables(MaskOperandsOpcode, [tOperands, tOpcode])
    modifies csec
    ensures csec.Valid()
    ensures csec.Bits() == old(csec.Bits()) + EncodeCommand(MaskOperandsOpcode, [tOperands, tOpcode], c)
  {
    assert Fits(OpersFormat, tOperands) && Fits(QuadFormat, tOpcode) by {
      var ts := [tOperands, tOpcode];
      assert Fits(Formats(MaskOperandsOpcode)[0], ts[0]) && Fits(Formats(MaskOperandsOpcode)[1], ts[1]);
    }
    var cmdOpcode, cmdOperands := Cut(c, CmdLenQ * 8);
    var cwOperands := CompressPart(tOperands, OpersPosSize, OpersMaskSize, cmdOperands);
    var cwOpcode := CompressPart(tOpcode, QuadPosSize, QuadMaskSize, cmdOpcode);
    ghost var before := csec.Bits();
    csec.AddAll(cwOperands);
    csec.AddAll(cwOpcode);
    OpersWord([tOperands, tOpcode], c);
    Associative(before, cwOperands, cwOpcode);
  }

  /** One turn of `rv32i_dict_restore_section_commands`. */
  method ReadDictionary(csec: DynBitset, pos: nat, t: EncodeTable) returns (ok: bool, cmd: Bits, next: nat)
    requires csec.Valid() && SchemeTables(Dict, [t])
    ensures ok <==> DecodeCommand(Dict, [t], csec.Bits(), pos).Some?
    ensures ok ==> Decoded(cmd, next) == DecodeCommand(Dict, [t], csec.Bits(), pos).value
  {
    DictRead([t], csec.Bits(), pos);
    var c;
    ok, c, next := RestoreBlockDict(csec, pos, t);
    cmd := c.Bits();
  }

  /** One turn of `rv32i_mask_single_restore_section_commands`. */
  method ReadMaskSingle(csec: DynBitset, pos: nat, t: EncodeTable) returns (ok: bool, cmd: Bits, next: nat)
    requires csec.Valid() && SchemeTables(MaskSingle, [t])
    ensures ok <==> DecodeCommand(MaskSingle, [t], csec.Bits(), pos).Some?
    ensures ok ==> Decoded(cmd, next) == DecodeCommand(MaskSingle, [t], csec.Bits(), pos).value
  {
    SingleRead([t], csec.Bits(), pos);
    var c;
    ok, c, next := RestoreBlockMask(csec, pos, t, SinglePosSize, SingleMaskSize);
    cmd := c.Bits();
  }

  /** One turn of `rv32i_mask_duo_restore_section_commands`: two halves read and
      glued. */
  method ReadMaskDuo(csec: DynBitset, pos: nat, t1: EncodeTable, t2: EncodeTable)
    returns (ok: bool, cmd: Bits, next: nat)
    requires csec.Valid() && SchemeTables(MaskDuo, [t1, t2])
    ensures ok <==> DecodeCommand(MaskDuo, [t1, t2], csec.Bits(), pos).Some?
    ensures ok ==> Decoded(cmd, next) == DecodeCommand(MaskDuo, [t1, t2], csec.Bits(), pos).value
  {
    DuoRead([t1, t2], csec.Bits(), pos);
    var ok1, cmd1, next1 := RestoreBlockMask(csec, pos, t1, DuoPosSize, DuoMaskSize);
    if !ok1 {
      return false, [], next1;
    }
    var ok2, cmd2, next2 := RestoreBlockMask(csec, next1, t2, DuoPosSize, DuoMaskSize);
    if !ok2 {
      return false, [], next2;
    }
    cmd1.AddAll(cmd2.Bits());
    return true, cmd1.Bits(), next2;
  }

  /** One turn of `rv32i_mask_quad_restore_section_commands`: four bytes read and
      glued in order. */
  method ReadMaskQuad(csec: DynBitset, pos: nat, ts: seq<EncodeTable>) returns (ok: bool, cmd: Bits, next: nat)
    requires csec.Valid() && SchemeTables(MaskQuad, ts)
    ensures ok <==> DecodeCommand(MaskQuad, ts, csec.Bits(), pos).Some?
    ensures ok ==> Decoded(cmd, next) == DecodeCommand(MaskQuad, ts, csec.Bits(), pos).value
  {
    QuadTables(ts);
    var t11, t12, t21, t22 := ts[0], ts[1], ts[2], ts[3];
    QuadRead(ts, csec.Bits(), pos);
    var ok11, cmd11, next11 := RestoreBlockMask(csec, pos, t11, QuadPosSize, QuadMaskSize);
    if !ok11 {
      return false, [], next11;
    }
    var ok12, cmd12, next12 := RestoreBlockMask(csec, next11, t12, QuadPosSize, QuadMaskSize);
    if !ok12 {
      return false, [], next12;
    }
    var ok21, cmd21, next21 := RestoreBlockMask(csec, next12, t21, QuadPosSize, QuadMaskSize);
    if !ok21 {
      return false, [], next21;
    }
    var ok22, cmd22, next22 := RestoreBlockMask(csec, next21, t22, QuadPosSize, QuadMaskSize);
    if !ok22 {
      return false, [], next22;
    }
    cmd := GlueQuad(cmd11, cmd12.Bits(), cmd21.Bits(), cmd22.Bits());
    return true, cmd, next22;
  }

  /** `cmd11.add(cmd12)`, `cmd11.add(cmd21)`, `cmd11.add(cmd22)`: the four bytes in order. */
  method GlueQuad(cmd11: DynBitset, b: Bits, c: Bits, d: Bits) returns (r: Bits)
    requires cmd11.Valid()
    modifies cmd11
    ensures r == old(cmd11.Bits()) + b + c + d
  {
    cmd11.AddAll(b);
    cmd11.AddAll(c);
    cmd11.AddAll(d);
    r := cmd11.Bits();
  }

  /** One turn of `rv32i_mask_duo_quad_restore_section_commands`: the low half and
      two bytes read and glued in order. */
  method ReadMaskDuoQuad(csec: DynBitset, pos: nat, t1: EncodeTable, t21: EncodeTable, t22: EncodeTable)
    returns (ok: bool, cmd: Bits, next: nat)
    requires csec.Valid() && SchemeTables(MaskDuoQuad, [t1, t21, t22])
    ensures ok <==> DecodeCommand(MaskDuoQuad, [t1, t21, t22], csec.Bits(), pos).Some?
    ensures ok ==> Decoded(cmd, next) == DecodeCommand(MaskDuoQuad, [t1, t21, t22], csec.Bits(), pos).value
  {
    DuoQuadRead([t1, t21, t22], csec.Bits(), pos);
    var ok1, cmd1, next1 := RestoreBlockMask(csec, pos, t1, DuoPosSize, DuoMaskSize);
    if !ok1 {
      return false, [], next1;
    }
    var ok21, cmd21, next21 := RestoreBlockMask(csec, next1, t21, QuadPosSize, QuadMaskSize);
    if !ok21 {
      return false, [], next21;
    }
    var ok22, cmd22, next22 := RestoreBlockMask(csec, next21, t22, QuadPosSize, QuadMaskSize);
    if !ok22 {
      return false, [], next22;
    }
    cmd1.AddAll(cmd21.Bits());
    cmd1.AddAll(cmd22.Bits());
    return true, cmd1.Bits(), next22;
  }

  /** One turn of `rv32i_operands_opcode_restore_section_commands`: operands then
      opcode read, the opcode put first. */
  method ReadOperandsOpcode(csec: DynBitset, pos: nat, tOperands: EncodeTable, tOpcode: EncodeTable)
    returns (ok: bool, cmd: Bits, next: nat)
    requires csec.Valid() && SchemeTables(MaskOperandsOpcode, [tOperands, tOpcode])
    ensures ok <==> DecodeCommand(MaskOperandsOpcode, [tOperands, tOpcode], csec.Bits(), pos).Some?
    ensures ok ==> Decoded(cmd, next) == DecodeCommand(MaskOperandsOpcode, [tOperands, tOpcode], csec.Bits(), pos).value
  {
    OpersRead([tOperands, tOpcode], csec.Bits(), pos);
    var ok1, cmdOperands, next1 := RestoreBlockMask(csec, pos, tOperands, OpersPosSize, OpersMaskSize);
    if !ok1 {
      return false, [], next1;
    }
    var ok2, cmdOpcode, next2 := RestoreBlockMask(csec, next1, tOpcode, QuadPosSize, QuadMaskSize);
    if !ok2 {
      return false, [], next2;
    }
    cmdOpcode.AddAll(cmdOperands.Bits());
    return true, cmdOpcode.Bits(), next2;
  }

  // ---------------------------------------------------------------------------
  // The section loops

  /** `encode_code_section_dictionary`: the codewords of all commands, in order. */
  method EncodeSectionDictionary(commands: seq<Bits>, t: EncodeTable) returns (csec: DynBitset)
    requires AllWidth(commands, Rv32Bits) && SchemeTables(Dict, [t])
    ensures fresh(csec) && csec.Valid()
    ensures csec.Bits() == EncodeSection(Dict, [t], commands)
  {
    csec := new DynBitset();
    for i := 0 to |commands|
      invariant fresh(csec) && csec.Valid()
      invariant csec.Bits() == EncodeSection(Dict, [t], commands[..i])
    {
      SectionStep(Dict, [t], commands, i);
      AppendDictionary(csec, commands[i], t);
    }
    assert commands[..|commands|] == commands;
  }

  /** `encode_code_section_mask_single`: the codewords of all commands, in order. */
  method EncodeSectionMaskSingle(commands: seq<Bits>, t: EncodeTable) returns (csec: DynBitset)
    requires AllWidth(commands, Rv32Bits) && SchemeTables(MaskSingle, [t])
    ensures fresh(csec) && csec.Valid()
    ensures csec.Bits() == EncodeSection(MaskSingle, [t], commands)
  {
    csec := new DynBitset();
    for i := 0 to |commands|
      invariant fresh(csec) && csec.Valid()
      invariant csec.Bits() == EncodeSection(MaskSingle, [t], commands[..i])
    {
      SectionStep(MaskSingle, [t], commands, i);
      AppendMaskSingle(csec, commands[i], t);
    }
    assert commands[..|commands|] == commands;
  }

  /** `encode_code_section_mask_duo`: the codewords of all commands, in order. */
  method EncodeSectionMaskDuo(commands: seq<Bits>, t1: EncodeTable, t2: EncodeTable) returns (csec: DynBitset)
    requires AllWidth(commands, Rv32Bits) && SchemeTables(MaskDuo, [t1, t2])
    ensures fresh(csec) && csec.Valid()
    ensures csec.Bits() == EncodeSection(MaskDuo, [t1, t2], commands)
  {
    csec := new DynBitset();
    for i := 0 to |commands|
      invariant fresh(csec) && csec.Valid()
      invariant csec.Bits() == EncodeSection(MaskDuo, [t1, t2], commands[..i])
    {
      SectionStep(MaskDuo, [t1, t2], commands, i);
      AppendMaskDuo(csec, commands[i], t1, t2);
    }
    assert commands[..|commands|] == commands;
  }

  /** `encode_code_section_mask_quad`: the codewords of all commands, in order. */
  method EncodeSectionMaskQuad(commands: seq<Bits>, ts: seq<EncodeTable>) returns (csec: DynBitset)
    requires AllWidth(commands, Rv32Bits) && SchemeTables(MaskQuad, ts)
    ensures fresh(csec) && csec.Valid()
    ensures csec.Bits() == EncodeSection(MaskQuad, ts, commands)
  {
    csec := new DynBitset();
    for i := 0 to |commands|
      invariant fresh(csec) && csec.Valid()
      invariant csec.Bits() == EncodeSection(MaskQuad, ts, commands[..i])
    {
      SectionStep(MaskQuad, ts, commands, i);
      AppendMaskQuad(csec, commands[i], ts);
    }
    assert commands[..|commands|] == commands;
  }

  /** `encode_code_section_mask_duo_quad`: the codewords of all commands, in order. */
  method EncodeSectionMaskDuoQuad(commands: seq<Bits>, t1: EncodeTable, t21: EncodeTable, t22: EncodeTable) returns (csec: DynBitset)
    requires AllWidth(commands, Rv32Bits) && SchemeTables(MaskDuoQuad, [t1, t21, t22])
    ensures fresh(csec) && csec.Valid()
    ensures csec.Bits() == EncodeSection(MaskDuoQuad, [t1, t21, t22], commands)
  {
    csec := new DynBitset();
    for i := 0 to |commands|
      invariant fresh(csec) && csec.Valid()
      invariant csec.Bits() == EncodeSection(MaskDuoQuad, [t1, t21, t22], commands[..i])
    {
      SectionStep(MaskDuoQuad, [t1, t21, t22], commands, i);
      AppendMaskDuoQuad(csec, commands[i], t1, t21, t22);
    }
    assert commands[..|commands|] == commands;
  }

  /** `encode_code_section_operands_opcode`: the codewords of all commands, in order. */
  method EncodeSectionOperandsOpcode(commands: seq<Bits>, tOperands: EncodeTable, tOpcode: EncodeTable) returns (csec: DynBitset)
    requires AllWidth(commands, Rv32Bits) && SchemeTables(MaskOperandsOpcode, [tOperands, tOpcode])
    ensures fresh(csec) && csec.Valid()
    ensures csec.Bits() == EncodeSection(MaskOperandsOpcode, [tOperands, tOpcode], commands)
  {
    csec := new DynBitset();
    for i := 0 to |commands|
      invariant fresh(csec) && csec.Valid()
      invariant csec.Bits() == EncodeSection(MaskOperandsOpcode, [tOperands, tOpcode], commands[..i])
    {
      SectionStep(MaskOperandsOpcode, [tOperands, tOpcode], commands, i);
      AppendOperandsOpcode(csec, commands[i], tOperands, tOpcode);
    }
    assert commands[..|commands|] == commands;
  }

  /** `rv32i_dictionary_restore_section_commands`: words read from cursor 0 until the
      cursor reaches the bit length. ok is false where a word cannot be read. */
  method RestoreSectionDictionary(csec: DynBitset, t: EncodeTable) returns (ok: bool, retval: seq<Bits>)
    requires csec.Valid() && SchemeTables(Dict, [t])
    ensures ok <==> DecodeSection(Dict, [t], csec.Bits(), 0).Some?
    ensures ok ==> retval == DecodeSection(Dict, [t], csec.Bits(), 0).value
  {
    ghost var bits := csec.Bits();
    ghost var ts := [t];
    retval := [];
    var pos := 0;
    var csecEnd := csec.bits;
    PrependNothing(DecodeSection(Dict, ts, bits, 0));
    while pos < csecEnd
      invariant pos <= csecEnd
      invariant DecodeSection(Dict, ts, bits, 0) == Prepend(retval, DecodeSection(Dict, ts, bits, pos))
      decreases csecEnd - pos
    {
      DecodeSectionAt(Dict, ts, bits, pos);
      var okc, cmd, next := ReadDictionary(csec, pos, t);
      if !okc {
        return false, retval;
      }
      PrependTwice(retval, [cmd], DecodeSection(Dict, ts, bits, next));
      retval := retval + [cmd];
      pos := next;
    }
    DecodeSectionEnd(Dict, ts, bits, pos, retval);
    ok := true;
  }

  /** `rv32i_mask_single_restore_section_commands`: words read from cursor 0 until the
      cursor reaches the bit length. ok is false where a word cannot be read. */
  method RestoreSectionMaskSingle(csec: DynBitset, t: EncodeTable) returns (ok: bool, retval: seq<Bits>)
    requires csec.Valid() && SchemeTables(MaskSingle, [t])
    ensures ok <==> DecodeSection(MaskSingle, [t], csec.Bits(), 0).Some?
    ensures ok ==> retval == DecodeSection(MaskSingle, [t], csec.Bits(), 0).value
  {
    ghost var bits := csec.Bits();
    ghost var ts := [t];
    retval := [];
    var pos := 0;
    var csecEnd := csec.bits;
    PrependNothing(DecodeSection(MaskSingle, ts, bits, 0));
    while pos < csecEnd
      invariant pos <= csecEnd
      invariant DecodeSection(MaskSingle, ts, bits, 0) == Prepend(retval, DecodeSection(MaskSingle, ts, bits, pos))
      decreases csecEnd - pos
    {
      DecodeSectionAt(MaskSingle, ts, bits, pos);
      var okc, cmd, next := ReadMaskSingle(csec, pos, t);
      if !okc {
        return false, retval;
      }
      PrependTwice(retval, [cmd], DecodeSection(MaskSingle, ts, bits, next));
      retval := retval + [cmd];
      pos := next;
    }
    DecodeSectionEnd(MaskSingle, ts, bits, pos, retval);
    ok := true;
  }

  /** `rv32i_mask_duo_restore_section_commands`: words read from cursor 0 until the
      cursor reaches the bit length. ok is false where a word cannot be read. */
  method RestoreSectionMaskDuo(csec: DynBitset, t1: EncodeTable, t2: EncodeTable) returns (ok: bool, retval: seq<Bits>)
    requires csec.Valid() && SchemeTables(MaskDuo, [t1, t2])
    ensures ok <==> DecodeSection(MaskDuo, [t1, t2], csec.Bits(), 0).Some?
    ensures ok ==> retval == DecodeSection(MaskDuo, [t1, t2], csec.Bits(), 0).value
  {
    ghost var bits := csec.Bits();
    ghost var ts := [t1, t2];
    retval := [];
    var pos := 0;
    var csecEnd := csec.bits;
    PrependNothing(DecodeSection(MaskDuo, ts, bits, 0));
    while pos < csecEnd
      invariant pos <= csecEnd
      invariant DecodeSection(MaskDuo, ts, bits, 0) == Prepend(retval, DecodeSection(MaskDuo, ts, bits, pos))
      decreases csecEnd - pos
    {
      DecodeSectionAt(MaskDuo, ts, bits, pos);
      var okc, cmd, next := ReadMaskDuo(csec, pos, t1, t2);
      if !okc {
        return false, retval;
      }
      PrependTwice(retval, [cmd], DecodeSection(MaskDuo, ts, bits, next));
      retval := retval + [cmd];
      pos := next;
    }
    DecodeSectionEnd(MaskDuo, ts, bits, pos, retval);
    ok := true;
  }

  /** `rv32i_mask_quad_restore_section_commands`: words read from cursor 0 until the
      cursor reaches the bit length. ok is false where a word cannot be read. */
  method RestoreSectionMaskQuad(csec: DynBitset, ts: seq<EncodeTable>) returns (ok: bool, retval: seq<Bits>)
    requires csec.Valid() && SchemeTables(MaskQuad, ts)
    ensures ok <==> DecodeSection(MaskQuad, ts, csec.Bits(), 0).Some?
    ensures ok ==> retval == DecodeSection(MaskQuad, ts, csec.Bits(), 0).value
  {
    ghost var bits := csec.Bits();
    retval := [];
    var pos := 0;
    var csecEnd := csec.bits;
    PrependNothing(DecodeSection(MaskQuad, ts, bits, 0));
    while pos < csecEnd
      invariant pos <= csecEnd
      invariant DecodeSection(MaskQuad, ts, bits, 0) == Prepend(retval, DecodeSection(MaskQuad, ts, bits, pos))
      decreases csecEnd - pos
    {
      DecodeSectionAt(MaskQuad, ts, bits, pos);
      var okc, cmd, next := ReadMaskQuad(csec, pos, ts);
      if !okc {
        return false, retval;
      }
      PrependTwice(retval, [cmd], DecodeSection(MaskQuad, ts, bits, next));
      retval := retval + [cmd];
      pos := next;
    }
    DecodeSectionEnd(MaskQuad, ts, bits, pos, retval);
    ok := true;
  }

  /** `rv32i_mask_duo_quad_restore_section_commands`: words read from cursor 0 until the
      cursor reaches the bit length. ok is false where a word cannot be read. */
  method RestoreSectionMaskDuoQuad(csec: DynBitset, t1: EncodeTable, t21: EncodeTable, t22: EncodeTable) returns (ok: bool, retval: seq<Bits>)
    requires csec.Valid() && SchemeTables(MaskDuoQuad, [t1, t21, t22])
    ensures ok <==> DecodeSection(MaskDuoQuad, [t1, t21, t22], csec.Bits(), 0).Some?
    ensures ok ==> retval == DecodeSection(MaskDuoQuad, [t1, t21, t22], csec.Bits(), 0).value
  {
    ghost var bits := csec.Bits();
    ghost var ts := [t1, t21, t22];
    retval := [];
    var pos := 0;
    var csecEnd := csec.bits;
    PrependNothing(DecodeSection(MaskDuoQuad, ts, bits, 0));
    while pos < csecEnd
      invariant pos <= csecEnd
      invariant DecodeSection(MaskDuoQuad, ts, bits, 0) == Prepend(retval, DecodeSection(MaskDuoQuad, ts, bits, pos))
      decreases csecEnd - pos
    {
      DecodeSectionAt(MaskDuoQuad, ts, bits, pos);
      var okc, cmd, next := ReadMaskDuoQuad(csec, pos, t1, t21, t22);
      if !okc {
        return false, retval;
      }
      PrependTwice(retval, [cmd], DecodeSection(MaskDuoQuad, ts, bits, next));
      retval := retval + [cmd];
      pos := next;
    }
    DecodeSectionEnd(MaskDuoQuad, ts, bits, pos, retval);
    ok := true;
  }

  /** `rv32i_operands_opcode_restore_section_commands`: words read from cursor 0 until the
      cursor reaches the bit length. ok is false where a word cannot be read. */
  method RestoreSectionOperandsOpcode(csec: DynBitset, tOperands: EncodeTable, tOpcode: EncodeTable) returns (ok: bool, retval: seq<Bits>)
    requires csec.Valid() && SchemeTables(MaskOperandsOpcode, [tOperands, tOpcode])
    ensures ok <==> DecodeSection(MaskOperandsOpcode, [tOperands, tOpcode], csec.Bits(), 0).Some?
    ensures ok ==> retval == DecodeSection(MaskOperandsOpcode, [tOperands, tOpcode], csec.Bits(), 0).value
  {
    ghost var bits := csec.Bits();
    ghost var ts := [tOperands, tOpcode];
    retval := [];
    var pos := 0;
    var csecEnd := csec.bits;
    PrependNothing(DecodeSection(MaskOperandsOpcode, ts, bits, 0));
    while pos < csecEnd
      invariant pos <= csecEnd
      invariant DecodeSection(MaskOperandsOpcode, ts, bits, 0) == Prepend(retval, DecodeSection(MaskOperandsOpcode, ts, bits, pos))
      decreases csecEnd - pos
    {
      DecodeSectionAt(MaskOperandsOpcode, ts, bits, pos);
      var okc, cmd, next := ReadOperandsOpcode(csec, pos, tOperands, tOpcode);
      if !okc {
        return false, retval;
      }
      PrependTwice(retval, [cmd], DecodeSection(MaskOperandsOpcode, ts, bits, next));
      retval := retval + [cmd];
      pos := next;
    }
    DecodeSectionEnd(MaskOperandsOpcode, ts, bits, pos, retval);
    ok := true;
  }
}
