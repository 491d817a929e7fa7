/**
 * The `*_make_encode_table` partitioners: every command is cut the way its scheme
 * cuts it, the pieces of each kind are collected over the whole section, and
 * each collection gets its own frequency table. The tables they build are the
 * tables the section round trip asks for.
 */
module Partitions {
  import opened Bits
  import opened EncodeTables
  import opened DictionaryBuilder
  import opened Schemes
  import opened Sections

  /** The k-th piece of every word: what the k-th table of a scheme is built from. */
  function Column(s: Scheme, cmds: seq<Bits>, k: nat): (r: seq<Bits>)
    requires AllWidth(cmds, Rv32Bits) && k < |Formats(s)|
    ensures |r| == |cmds| && forall i :: 0 <= i < |cmds| ==> r[i] == Parts(s, cmds[i])[k]
    ensures AllWidth(r, 8 * Formats(s)[k].cmdLen)
  {
    seq(|cmds|, i requires 0 <= i < |cmds| => Parts(s, cmds[i])[k])
  }

  /** What a partitioner promises of its k-th table: built from the k-th column,
      with the widths of the k-th format. */
  ghost predicate Made(s: Scheme, cmds: seq<Bits>, k: nat, t: EncodeTable)
    requires AllWidth(cmds, Rv32Bits)
  {
    && k < |Formats(s)|
    && t.cmdLen == Formats(s)[k].cmdLen
    && t.indexSize == Formats(s)[k].indexSize
    && IsFrequencyTable(t, Column(s, cmds, k))
  }

  /** What a partitioner promises: one frequency table per piece. */
  ghost predicate Built(s: Scheme, cmds: seq<Bits>, ts: seq<EncodeTable>)
    requires AllWidth(cmds, Rv32Bits)
  {
    |ts| == |Formats(s)| && forall k :: 0 <= k < |ts| ==> Made(s, cmds, k, ts[k])
  }

  /** Three tables, each made for its piece, are built for a three-piece scheme. */
  lemma BuiltThree(s: Scheme, cmds: seq<Bits>, a: EncodeTable, b: EncodeTable, c: EncodeTable)
    requires AllWidth(cmds, Rv32Bits) && |Formats(s)| == 3
    requires Made(s, cmds, 0, a) && Made(s, cmds, 1, b) && Made(s, cmds, 2, c)
    ensures Built(s, cmds, [a, b, c])
  {
    var ts := [a, b, c];
    forall k | 0 <= k < 3 ensures Made(s, cmds, k, ts[k]) {
      if k == 0 {} else if k == 1 {} else {}
    }
  }

  /** Four tables, each made for its piece, are built for a four-piece scheme. */
  lemma BuiltFour(s: Scheme, cmds: seq<Bits>, a: EncodeTable, b: EncodeTable, c: EncodeTable, d: EncodeTable)
    requires AllWidth(cmds, Rv32Bits) && |Formats(s)| == 4
    requires Made(s, cmds, 0, a) && Made(s, cmds, 1, b) && Made(s, cmds, 2, c) && Made(s, cmds, 3, d)
    ensures Built(s, cmds, [a, b, c, d])
  {
    var ts := [a, b, c, d];
    forall k | 0 <= k < 4 ensures Made(s, cmds, k, ts[k]) {
      if k == 0 {} else if k == 1 {} else if k == 2 {} else {}
    }
  }

  /** Tables built by a partitioner are usable by the encoder and the restore loop
      of their scheme. */
  lemma BuiltTablesFit(s: Scheme, cmds: seq<Bits>, ts: seq<EncodeTable>)
    requires AllWidth(cmds, Rv32Bits) && Built(s, cmds, ts)
    ensures SchemeTables(s, ts)
  {
    FormatsTile(s);
    forall k | 0 <= k < |ts| ensures Fits(Formats(s)[k], ts[k]) {
      assert Made(s, cmds, k, ts[k]);
    }
  }

  /** The table of the DICT scheme: `dict_make_encode_table` over the words. */
  method MakeTablesDictionary(commands: seq<Bits>) returns (t: EncodeTable)
    requires AllWidth(commands, Rv32Bits)
    ensures Built(Dict, commands, [t]) && SchemeTables(Dict, [t])
  {
    assert Column(Dict, commands, 0) == commands;
    t := MakeEncodeTable(commands, CmdLen, DictIndexSize);
    BuiltTablesFit(Dict, commands, [t]);
  }

  /** `mask_single_make_encode_table`: one table over the whole words. */
  method MakeTablesMaskSingle(commands: seq<Bits>) returns (t: EncodeTable)
    requires AllWidth(commands, Rv32Bits)
    ensures Built(MaskSingle, commands, [t]) && SchemeTables(MaskSingle, [t])
  {
    assert Column(MaskSingle, commands, 0) == commands;
    t := MakeEncodeTable(commands, CmdLen, SingleIndexSize);
    BuiltTablesFit(MaskSingle, commands, [t]);
  }

  /** `mask_duo_make_encode_table`: a table over the low halves and one over the
      high halves. */
  method MakeTablesMaskDuo(commands: seq<Bits>) returns (t1: EncodeTable, t2: EncodeTable)
    requires AllWidth(commands, Rv32Bits)
    ensures Built(MaskDuo, commands, [t1, t2]) && SchemeTables(MaskDuo, [t1, t2])
  {
    var cmds1, cmds2 := [], [];
    for i := 0 to |commands|
      invariant |cmds1| == |cmds2| == i
      invariant forall j :: 0 <= j < i ==> cmds1[j] == commands[j][..16] && cmds2[j] == commands[j][16..]
    {
      var cmd1, cmd2 := Cut(commands[i], CmdLenH * 8);
      cmds1, cmds2 := cmds1 + [cmd1], cmds2 + [cmd2];
    }
    assert cmds1 == Column(MaskDuo, commands, 0);
    assert cmds2 == Column(MaskDuo, commands, 1);
    t1 := MakeEncodeTable(cmds1, CmdLenH, DuoIndexSize);
    t2 := MakeEncodeTable(cmds2, CmdLenH, DuoIndexSize);
    BuiltTablesFit(MaskDuo, commands, [t1, t2]);
  }

  /** `mask_quad_make_encode_table`: a table over each of the four bytes. */
  method MakeTablesMaskQuad(commands: seq<Bits>) returns (ts: seq<EncodeTable>)
    requires AllWidth(commands, Rv32Bits)
    ensures Built(MaskQuad, commands, ts) && SchemeTables(MaskQuad, ts)
  {
    var cmds11, cmds12, cmds21, cmds22 := [], [], [], [];
    for i := 0 to |commands|
      invariant |cmds11| == |cmds12| == |cmds21| == |cmds22| == i
      invariant forall j :: 0 <= j < i ==> cmds11[j] == commands[j][..8] && cmds12[j] == commands[j][8..16]
      invariant forall j :: 0 <= j < i ==> cmds21[j] == commands[j][16..24] && cmds22[j] == commands[j][24..]
    {
      var cmd11, cmd12, cmd21, cmd22 := Quarters(commands[i]);
      cmds11, cmds12, cmds21, cmds22 := cmds11 + [cmd11], cmds12 + [cmd12], cmds21 + [cmd21], cmds22 + [cmd22];
    }
    assert cmds11 == Column(MaskQuad, commands, 0);
    var t11 := MakeEncodeTable(cmds11, CmdLenQ, QuadIndexSize);
    assert Made(MaskQuad, commands, 0, t11);
    assert cmds12 == Column(MaskQuad, commands, 1);
    var t12 := MakeEncodeTable(cmds12, CmdLenQ, QuadIndexSize);
    assert Made(MaskQuad, commands, 1, t12);
    assert cmds21 == Column(MaskQuad, commands, 2);
    var t21 := MakeEncodeTable(cmds21, CmdLenQ, QuadIndexSize);
    assert Made(MaskQuad, commands, 2, t21);
    assert cmds22 == Column(MaskQuad, commands, 3);
    var t22 := MakeEncodeTable(cmds22, CmdLenQ, QuadIndexSize);
    assert Made(MaskQuad, commands, 3, t22);
    ts := [t11, t12, t21, t22];
    BuiltFour(MaskQuad, commands, t11, t12, t21, t22);
    BuiltTablesFit(MaskQuad, commands, ts);
  }

  /** The four bytes of a word, cut in half and each half in half again, as the
      partitioners and the encoder of the MASK_QUAD scheme do. */
  method Quarters(c: Bits) returns (c11: Bits, c12: Bits, c21: Bits, c22: Bits)
    requires |c| == Rv32Bits
    ensures c11 == c[..8] && c12 == c[8..16] && c21 == c[16..24] && c22 == c[24..]
  {
    var c1, c2 := Halve(c);
    c11, c12 := Halve(c1);
    c21, c22 := Halve(c2);
  }

  /** `mask_duo_quad_make_encode_table`: a table over the low halves and one over
      each byte of the high half. */
  method MakeTablesMaskDuoQuad(commands: seq<Bits>) returns (t1: EncodeTable, t21: EncodeTable, t22: EncodeTable)
    requires AllWidth(commands, Rv32Bits)
    ensures Built(MaskDuoQuad, commands, [t1, t21, t22]) && SchemeTables(MaskDuoQuad, [t1, t21, t22])
  {
    var cmds1, cmds21, cmds22 := [], [], [];
    for i := 0 to |commands|
      invariant |cmds1| == |cmds21| == |cmds22| == i
      invariant forall j :: 0 <= j < i ==> cmds1[j] == commands[j][..16]
      invariant forall j :: 0 <= j < i ==> cmds21[j] == commands[j][16..24] && cmds22[j] == commands[j][24..]
    {
      var cmd1, cmd2 := Halve(commands[i]);
      var cmd21, cmd22 := Halve(cmd2);
      cmds1, cmds21, cmds22 := cmds1 + [cmd1], cmds21 + [cmd21], cmds22 + [cmd22];
    }
    assert cmds1 == Column(MaskDuoQuad, commands, 0);
    t1 := MakeEncodeTable(cmds1, CmdLenH, DuoIndexSize);
    assert Made(MaskDuoQuad, commands, 0, t1);
    assert cmds21 == Column(MaskDuoQuad, commands, 1);
    t21 := MakeEncodeTable(cmds21, CmdLenQ, QuadIndexSize);
    assert Made(MaskDuoQuad, commands, 1, t21);
    assert cmds22 == Column(MaskDuoQuad, commands, 2);
    t22 := MakeEncodeTable(cmds22, CmdLenQ, QuadIndexSize);
    assert Made(MaskDuoQuad, commands, 2, t22);
    BuiltThree(MaskDuoQuad, commands, t1, t21, t22);
    BuiltTablesFit(MaskDuoQuad, commands, [t1, t21, t22]);
  }

  /** `mask_operands_opcode_make_encode_table`: a table over the 24 operand bits
      and one over the 8 opcode bits. */
  method MakeTablesOperandsOpcode(commands: seq<Bits>) returns (tOperands: EncodeTable, tOpcode: EncodeTable)
    requires AllWidth(commands, Rv32Bits)
    ensures Built(MaskOperandsOpcode, commands, [tOperands, tOpcode])
    ensures SchemeTables(MaskOperandsOpcode, [tOperands, tOpcode])
  {
    var cmdsOperands, cmdsOpcode := [], [];
    for i := 0 to |commands|
      invariant |cmdsOperands| == |cmdsOpcode| == i
      invariant forall j :: 0 <= j < i ==> cmdsOperands[j] == commands[j][8..] && cmdsOpcode[j] == commands[j][..8]
    {
      var cmdOpcode, cmdOperands := Cut(commands[i], CmdLenQ * 8);
      cmdsOperands, cmdsOpcode := cmdsOperands + [cmdOperands], cmdsOpcode + [cmdOpcode];
    }
    assert cmdsOperands == Column(MaskOperandsOpcode, commands, 0);
    assert cmdsOpcode == Column(MaskOperandsOpcode, commands, 1);
    tOperands := MakeEncodeTable(cmdsOperands, CmdLenO, OpersIndexSize);
    tOpcode := MakeEncodeTable(cmdsOpcode, CmdLenQ, QuadIndexSize);
    BuiltTablesFit(MaskOperandsOpcode, commands, [tOperands, tOpcode]);
  }
}
