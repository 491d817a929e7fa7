/**
 * The six RV32I partitions of an instruction word and the section stream built
 * from them. A scheme cuts each 32-bit word into sub-commands, codes every
 * sub-command with its own table, and writes the codewords one after another;
 * the decoder reads them back in the same order and glues the pieces together.
 */
module Schemes {
  import opened Wrappers
  import opened Bits
  import opened Runs
  import opened EncodeTables
  import opened Codewords

  // The widths of the RV32I configuration: bytes per (sub-)command, then the
  // position, mask and index widths of each masked layout.
  const Rv32Bits: nat := 32
  const CmdLen: nat := 4
  const CmdLenO: nat := 3
  const CmdLenH: nat := 2
  const CmdLenQ: nat := 1
  const DictIndexSize: nat := 14
  const SinglePosSize: nat := 3
  const SingleMaskSize: nat := 4
  const SingleIndexSize: nat := 13
  const DuoPosSize: nat := 2
  const DuoMaskSize: nat := 4
  const DuoIndexSize: nat := 6
  const QuadPosSize: nat := 2
  const QuadMaskSize: nat := 2
  const QuadIndexSize: nat := 3
  const OpersPosSize: nat := 3
  const OpersMaskSize: nat := 3
  const OpersIndexSize: nat := 10

  /** The encoding types, in the order of their numeric tags. */
  datatype Scheme = Dict | MaskSingle | MaskDuo | MaskQuad | MaskOperandsOpcode | MaskDuoQuad

  /** The numeric value of an encoding type, as stored in the header byte. */
  function Tag(s: Scheme): nat
  {
    match s
    case Dict => 0
    case MaskSingle => 1
    case MaskDuo => 2
    case MaskQuad => 3
    case MaskOperandsOpcode => 4
    case MaskDuoQuad => 5
  }

  /** The encoding type a tag names, if any. */
  function SchemeOf(tag: nat): (r: Option<Scheme>)
    ensures r.Some? <==> tag < 6
    ensures r.Some? ==> Tag(r.value) == tag
  {
    if tag == 0 then Some(Dict)
    else if tag == 1 then Some(MaskSingle)
    else if tag == 2 then Some(MaskDuo)
    else if tag == 3 then Some(MaskQuad)
    else if tag == 4 then Some(MaskOperandsOpcode)
    else if tag == 5 then Some(MaskDuoQuad)
    else None
  }

  lemma {:induction false} TagRoundTrip(s: Scheme)
    ensures Tag(s) < 6 && SchemeOf(Tag(s)) == Some(s)
  {
  }

  /** How one sub-command is coded: the table's byte width and index width, and for
      the masked layout the position and mask widths. */
  datatype Format =
    | DictFormat(cmdLen: nat, indexSize: nat)
    | MaskFormat(cmdLen: nat, indexSize: nat, posSize: nat, maskSize: nat)

  const SingleFormat: Format := MaskFormat(CmdLen, SingleIndexSize, SinglePosSize, SingleMaskSize)
  const DuoFormat: Format := MaskFormat(CmdLenH, DuoIndexSize, DuoPosSize, DuoMaskSize)
  const QuadFormat: Format := MaskFormat(CmdLenQ, QuadIndexSize, QuadPosSize, QuadMaskSize)
  const OpersFormat: Format := MaskFormat(CmdLenO, OpersIndexSize, OpersPosSize, OpersMaskSize)

  /** The formats of a scheme's sub-commands, in the order their codewords are written. */
  function Formats(s: Scheme): (r: seq<Format>)
    ensures 1 <= |r| <= 4
  {
    match s
    case Dict => [DictFormat(CmdLen, DictIndexSize)]
    case MaskSingle => [SingleFormat]
    case MaskDuo => [DuoFormat, DuoFormat]
    case MaskQuad => [QuadFormat, QuadFormat, QuadFormat, QuadFormat]
    case MaskOperandsOpcode => [OpersFormat, QuadFormat]
    case MaskDuoQuad => [DuoFormat, QuadFormat, QuadFormat]
  }

  /** The width of 2^posSize fields of maskSize bits, doubling once per position
      bit; kept free of multiplication so that the tables' conditions stay linear. */
  function FieldsWidth(posSize: nat, maskSize: nat): nat
  {
    if posSize == 0 then maskSize else 2 * FieldsWidth(posSize - 1, maskSize)
  }

  lemma {:induction false} FieldsWidthProduct(posSize: nat, maskSize: nat)
    ensures FieldsWidth(posSize, maskSize) == Pow2(posSize) * maskSize
  {
    if posSize > 0 {
      FieldsWidthProduct(posSize - 1, maskSize);
    }
  }

  /** A masked format's fields tile its sub-command exactly. */
  ghost predicate Tiles(f: Format)
  {
    f.MaskFormat? ==> FieldsWidth(f.posSize, f.maskSize) == 8 * f.cmdLen
  }

  /** A table that fits a masked format meets the masked layout's parameters. */
  lemma {:induction false} FitsMask(f: Format, t: EncodeTable)
    requires Fits(f, t) && f.MaskFormat?
    ensures MaskParams(t, f.posSize, f.maskSize)
  {
    FieldsWidthProduct(f.posSize, f.maskSize);
  }

  /** Every RV32I format tiles: 8 fields of 4 bits cover 32, 4 of 4 cover 16,
      4 of 2 cover 8 and 8 of 3 cover 24. */
  lemma {:induction false} FormatsTile(s: Scheme)
    ensures forall i :: 0 <= i < |Formats(s)| ==> Tiles(Formats(s)[i])
  {
    Pow2Values();
  }

  /** A table usable for a format: valid, with the format's widths. */
  ghost predicate Fits(f: Format, t: EncodeTable)
  {
    ValidTable(t) && t.cmdLen == f.cmdLen && t.indexSize == f.indexSize && Tiles(f)
  }

  /** One fitting table per format. */
  ghost predicate Coded(fs: seq<Format>, ts: seq<EncodeTable>)
  {
    |fs| == |ts| && forall i :: 0 <= i < |fs| ==> Fits(fs[i], ts[i])
  }

  /** The pieces of a word, in the order they are coded: the prefix/suffix splits of
      `devide` and `devide_half` applied as each scheme applies them. */
  function Parts(s: Scheme, c: Bits): (r: seq<Bits>)
    requires |c| == Rv32Bits
    ensures |r| == |Formats(s)|
    ensures forall i :: 0 <= i < |r| ==> |r[i]| == 8 * Formats(s)[i].cmdLen
  {
    match s
    case Dict => [c]
    case MaskSingle => [c]
    case MaskDuo => [c[..16], c[16..]]
    case MaskQuad => [c[..8], c[8..16], c[16..24], c[24..]]
    case MaskOperandsOpcode => [c[8..], c[..8]]
    case MaskDuoQuad => [c[..16], c[16..24], c[24..]]
  }

  /** The restore loops' gluing of decoded pieces: the opcode goes first for the
      operands/opcode scheme, otherwise the pieces are appended in order. */
  function Assemble(s: Scheme, ps: seq<Bits>): Bits
    requires |ps| == |Formats(s)|
  {
    match s
    case Dict => ps[0]
    case MaskSingle => ps[0]
    case MaskDuo => ps[0] + ps[1]
    case MaskQuad => ps[0] + ps[1] + ps[2] + ps[3]
    case MaskOperandsOpcode => ps[1] + ps[0]
    case MaskDuoQuad => ps[0] + ps[1] + ps[2]
  }

  /** Gluing the pieces gives the word back. */
  lemma {:induction false} AssembleParts(s: Scheme, c: Bits)
    requires |c| == Rv32Bits
    ensures Assemble(s, Parts(s, c)) == c
  {
    match s
    case Dict =>
    case MaskSingle =>
    case MaskDuo => assert c[..16] + c[16..] == c;
    case MaskQuad => assert c[..8] + c[8..16] + c[16..24] + c[24..] == c;
    case MaskOperandsOpcode => assert c[..8] + c[8..] == c;
    case MaskDuoQuad => assert c[..16] + c[16..24] + c[24..] == c;
  }

  // ---------------------------------------------------------------------------
  // One sub-command

  /** The codeword of one sub-command under its format. */
  function Codeword(f: Format, t: EncodeTable, c: Bits): (r: Bits)
    ensures |r| >= 1
  {
    match f
    case DictFormat(_, _) => DictCodeword(t, c)
    case MaskFormat(_, _, posSize, maskSize) => MaskCodeword(t, posSize, maskSize, c)
  }

  /** The decoder of one sub-command under its format. */
  function DecodeWith(f: Format, t: EncodeTable, s: Bits, pos: nat): (r: Option<Decoded>)
    requires Fits(f, t)
    ensures r.Some? ==> pos < r.value.next <= |s|
  {
    match f
    case DictFormat(_, _) => DecodeDict(t, s, pos)
    case MaskFormat(_, _, posSize, maskSize) =>
      FitsMask(f, t);
      DecodeMask(t, posSize, maskSize, s, pos)
  }

  /** One sub-command decodes back from its codeword wherever it sits in a stream. */
  lemma {:induction false} CodewordRoundTrip(f: Format, t: EncodeTable, c: Bits, s: Bits, n: nat)
    requires Fits(f, t) && |c| == 8 * f.cmdLen
    requires At(s, n, Codeword(f, t, c))
    ensures ReadBack(DecodeWith(f, t, s, n), c, n + |Codeword(f, t, c)|)
  {
    AtSlice(s, n, Codeword(f, t, c));
    match f
    case DictFormat(_, _) => DictRoundTripAt(t, c, s, n);
    case MaskFormat(_, _, posSize, maskSize) =>
      FitsMask(f, t);
      MaskRoundTripAt(t, posSize, maskSize, c, s, n);
  }

  // ---------------------------------------------------------------------------
  // One word

  /** The codewords of a word's pieces, each under its format, in the order the
      encoder writes them. */
  function PieceCodes(s: Scheme, ts: seq<EncodeTable>, ps: seq<Bits>): seq<Bits>
    requires |ts| == |Formats(s)| == |ps|
  {
    seq(|ps|, j requires 0 <= j < |ps| => Codeword(Formats(s)[j], ts[j], ps[j]))
  }

  /** The tables fit the scheme's formats. */
  ghost predicate SchemeTables(s: Scheme, ts: seq<EncodeTable>)
  {
    Coded(Formats(s), ts)
  }

  /** The decoder of the j-th piece of a scheme, on a stream. */
  function PieceReader(s: Scheme, ts: seq<EncodeTable>, bits: Bits): (nat, nat) -> Option<Decoded>
    requires SchemeTables(s, ts)
  {
    (j: nat, p: nat) => if j < |ts| then DecodeWith(Formats(s)[j], ts[j], bits, p) else None
  }

  /** Every piece decoder moves the cursor forward and stays inside the stream. */
  lemma {:induction false} PieceReaderWithin(s: Scheme, ts: seq<EncodeTable>, bits: Bits)
    requires SchemeTables(s, ts)
    ensures PiecesWithin(PieceReader(s, ts, bits), |bits|)
  {
  }

  /** What the encoder of a scheme writes for one word. */
  function EncodeCommand(s: Scheme, ts: seq<EncodeTable>, c: Bits): Bits
    requires |ts| == |Formats(s)| && |c| == Rv32Bits
  {
    Joined(PieceCodes(s, ts, Parts(s, c)))
  }

  /** What the restore loop of a scheme reads for one word at pos: the pieces in
      order, glued. */
  function DecodeCommand(s: Scheme, ts: seq<EncodeTable>, bits: Bits, pos: nat): (r: Option<Decoded>)
    requires SchemeTables(s, ts)
    ensures r.Some? ==> pos < r.value.next <= |bits|
  {
    PieceReaderWithin(s, ts, bits);
    ReadPiecesWithin(PieceReader(s, ts, bits), |Formats(s)|, |bits|, pos, 0);
    match ReadPieces(PieceReader(s, ts, bits), |Formats(s)|, pos, 0)
    case None => None
    case Some((ps, n)) => Some(Decoded(Assemble(s, ps), n))
  }

  /** Each piece decoder gives back the piece whose codeword starts at the cursor. */
  lemma {:induction false} PiecesReadBack(s: Scheme, ts: seq<EncodeTable>, c: Bits, bits: Bits)
    requires SchemeTables(s, ts) && |c| == Rv32Bits
    ensures ReadsPieces(PieceReader(s, ts, bits), bits, PieceCodes(s, ts, Parts(s, c)), Parts(s, c))
  {
    var fs, ps := Formats(s), Parts(s, c);
    forall j: nat, p: nat | j < |ps| && At(bits, p, PieceCodes(s, ts, ps)[j])
      ensures ReadBack(PieceReader(s, ts, bits)(j, p), ps[j], p + |PieceCodes(s, ts, ps)[j]|)
    {
      assert Fits(fs[j], ts[j]);
      CodewordRoundTrip(fs[j], ts[j], ps[j], bits, p);
    }
  }

  /** A word decodes back from its encoding wherever that sits in a stream, and
      the cursor ends just past it. */
  lemma {:induction false} CommandRoundTrip(s: Scheme, ts: seq<EncodeTable>, c: Bits, bits: Bits, n: nat)
    requires SchemeTables(s, ts) && |c| == Rv32Bits
    requires At(bits, n, EncodeCommand(s, ts, c))
    ensures ReadBack(DecodeCommand(s, ts, bits, n), c, n + |EncodeCommand(s, ts, c)|)
  {
    PiecesReadBack(s, ts, c, bits);
    ReadPiecesRoundTrip(PieceReader(s, ts, bits), bits, PieceCodes(s, ts, Parts(s, c)), Parts(s, c), n);
    AssembleParts(s, c);
  }

  // ---------------------------------------------------------------------------
  // A whole section

  /** The encoder of a scheme for one word; only 32-bit words are ever given to it. */
  function WordWriter(s: Scheme, ts: seq<EncodeTable>): Bits -> Bits
    requires |ts| == |Formats(s)|
  {
    (c: Bits) => if |c| == Rv32Bits then EncodeCommand(s, ts, c) else []
  }

  /** The compressed section of a scheme: the encodings of the words, one after
      another. */
  function EncodeSection(s: Scheme, ts: seq<EncodeTable>, cmds: seq<Bits>): Bits
    requires |ts| == |Formats(s)| && AllWidth(cmds, Rv32Bits)
  {
    Joined(Map(WordWriter(s, ts), cmds))
  }

  /** The word decoder of a scheme, on a stream. */
  function WordReader(s: Scheme, ts: seq<EncodeTable>, bits: Bits): nat -> Option<Decoded>
    requires SchemeTables(s, ts)
  {
    (p: nat) => DecodeCommand(s, ts, bits, p)
  }

  /** The restore loop of a scheme: words are read from pos until the cursor reaches
      the end; a word that cannot be read fails the section. */
  function DecodeSection(s: Scheme, ts: seq<EncodeTable>, bits: Bits, pos: nat): Option<seq<Bits>>
    requires SchemeTables(s, ts)
  {
    assert Advances(WordReader(s, ts, bits), |bits|);
    ReadAll(WordReader(s, ts, bits), |bits|, pos)
  }

  /** The encoder loop's step: one more word appends its encoding. */
  lemma {:induction false} SectionStep(s: Scheme, ts: seq<EncodeTable>, cmds: seq<Bits>, i: nat)
    requires |ts| == |Formats(s)| && AllWidth(cmds, Rv32Bits) && i < |cmds|
    ensures |cmds[i]| == Rv32Bits && AllWidth(cmds[..i], Rv32Bits) && AllWidth(cmds[..i + 1], Rv32Bits)
    ensures EncodeSection(s, ts, cmds[..i + 1]) == EncodeSection(s, ts, cmds[..i]) + EncodeCommand(s, ts, cmds[i])
  {
    assert AllWidth(cmds[..i + 1], Rv32Bits) && AllWidth(cmds[..i], Rv32Bits);
    JoinedMapSnoc(WordWriter(s, ts), cmds, i);
  }

  /** The restore loop's step: a word read at a cursor inside the stream goes in
      front of the words read after it, and a word that cannot be read fails the
      whole section. */
  lemma {:induction false} DecodeSectionAt(s: Scheme, ts: seq<EncodeTable>, bits: Bits, pos: nat)
    requires SchemeTables(s, ts) && pos < |bits|
    ensures DecodeCommand(s, ts, bits, pos).None? ==> DecodeSection(s, ts, bits, pos).None?
    ensures DecodeCommand(s, ts, bits, pos).Some? ==>
      DecodeSection(s, ts, bits, pos)
        == Prepend([DecodeCommand(s, ts, bits, pos).value.cmd],
                   DecodeSection(s, ts, bits, DecodeCommand(s, ts, bits, pos).value.next))
  {
    ReadAllStep(WordReader(s, ts, bits), |bits|, pos);
  }

  /** At the end of the stream nothing is left to read. */
  lemma {:induction false} DecodeSectionEnd(s: Scheme, ts: seq<EncodeTable>, bits: Bits, pos: nat, xs: seq<Bits>)
    requires SchemeTables(s, ts) && pos >= |bits|
    ensures Prepend(xs, DecodeSection(s, ts, bits, pos)) == Some(xs)
  {
    ReadAllEnd(WordReader(s, ts, bits), |bits|, pos, xs);
  }

  lemma {:induction false} Associative(a: Bits, b: Bits, c: Bits)
    ensures (a + b) + c == a + (b + c)
  {
  }

  /** The word decoder gives back the word whose encoding starts at the cursor. */
  lemma {:induction false} WordsReadBack(s: Scheme, ts: seq<EncodeTable>, cmds: seq<Bits>, bits: Bits)
    requires SchemeTables(s, ts) && AllWidth(cmds, Rv32Bits)
    ensures ReadsRecords(WordReader(s, ts, bits), bits, Map(WordWriter(s, ts), cmds), cmds)
  {
    forall j: nat, p: nat | j < |cmds| && At(bits, p, Map(WordWriter(s, ts), cmds)[j])
      ensures ReadBack(WordReader(s, ts, bits)(p), cmds[j], p + |Map(WordWriter(s, ts), cmds)[j]|)
    {
      CommandRoundTrip(s, ts, cmds[j], bits, p);
    }
  }

  /** The central property: restoring a compressed section gives the original words. */
  lemma {:induction false} SectionRoundTrip(s: Scheme, ts: seq<EncodeTable>, cmds: seq<Bits>)
    requires SchemeTables(s, ts) && AllWidth(cmds, Rv32Bits)
    ensures DecodeSection(s, ts, EncodeSection(s, ts, cmds), 0) == Some(cmds)
  {
    var bits := EncodeSection(s, ts, cmds);
    WordsReadBack(s, ts, cmds, bits);
    ReadAllRoundTrip(WordReader(s, ts, bits), Map(WordWriter(s, ts), cmds), cmds);
  }
}
