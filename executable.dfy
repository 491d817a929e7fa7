/**
 * `rv32i_compress_executable` / `rv32i_decompress_executable`: the code section is
 * sliced into words, compressed with the scheme its tag names, framed with the
 * one-byte header, and every table is written to a dictionary section of its own;
 * decompression reads the header, the dictionaries and the codewords back.
 * Sections are byte strings; the file holding them is a map from section names.
 */
module Executable {
  import opened Wrappers
  import opened Bits
  import opened Runs
  import opened BitBuffer
  import opened EncodeTables
  import opened Schemes
  import opened Sections
  import opened Partitions
  import opened Framing

  /** The sections of the file a dictionary may be read from, by name. */
  type Dictionaries = map<string, seq<Byte>>

  /** What compression leaves in the file: the framed code section and the
      dictionary sections it added. */
  datatype Compressed = Compressed(text: seq<Byte>, dicts: Dictionaries)

  /** The dictionary section of each table of a scheme, in table order. */
  function DictNames(s: Scheme): (r: seq<string>)
    ensures |r| == |Formats(s)|
  {
    match s
    case Dict => [".dict"]
    case MaskSingle => [".dict"]
    case MaskDuo => [".dict.1", ".dict.2"]
    case MaskQuad => [".dict.11", ".dict.12", ".dict.21", ".dict.22"]
    case MaskOperandsOpcode => [".dict.operands", ".dict.opcode"]
    case MaskDuoQuad => [".dict.1", ".dict.21", ".dict.22"]
  }

  /** No scheme writes two tables to the same section. */
  lemma DictNamesDistinct(s: Scheme)
    ensures forall i, j :: 0 <= i < j < |DictNames(s)| ==> DictNames(s)[i] != DictNames(s)[j]
  {
  }

  /** A section by name, or nothing when the file has none of that name. */
  function Lookup(dicts: Dictionaries, name: string): Option<seq<Byte>>
  {
    if name in dicts then Some(dicts[name]) else None
  }

  /** A valid table with the widths of a format: what a dictionary section parses to. */
  ghost predicate Readable(f: Format, t: EncodeTable)
  {
    ValidTable(t) && t.cmdLen == f.cmdLen && t.indexSize == f.indexSize
  }

  /** `read_instr_dictionary` on a named section, with the widths of a format. */
  function ReadDict(dicts: Dictionaries, name: string, f: Format): (r: Result<EncodeTable>)
    requires f.cmdLen > 0
    ensures r.Ok? ==> Readable(f, r.value)
  {
    ParseDictionary(Lookup(dicts, name), f.cmdLen, f.indexSize)
  }

  /** Every table of a scheme, read in the order the decompressor reads them; the
      first that cannot be read decides the error. */
  function ReadTables(dicts: Dictionaries, s: Scheme): (r: Result<seq<EncodeTable>>)
    ensures r.Ok? ==> |r.value| == |Formats(s)|
    ensures r.Ok? ==> forall k :: 0 <= k < |r.value| ==> Readable(Formats(s)[k], r.value[k])
  {
    match s
    case Dict =>
      var t :- ReadDict(dicts, ".dict", DictFormat(CmdLen, DictIndexSize));
      Ok([t])
    case MaskSingle =>
      var t :- ReadDict(dicts, ".dict", SingleFormat);
      Ok([t])
    case MaskDuo =>
      var t1 :- ReadDict(dicts, ".dict.1", DuoFormat);
      var t2 :- ReadDict(dicts, ".dict.2", DuoFormat);
      Ok([t1, t2])
    case MaskQuad => ReadQuadTables(dicts)
    case MaskOperandsOpcode =>
      var tOpcode :- ReadDict(dicts, ".dict.opcode", QuadFormat);
      var tOperands :- ReadDict(dicts, ".dict.operands", OpersFormat);
      Ok([tOperands, tOpcode])
    case MaskDuoQuad =>
      var t1 :- ReadDict(dicts, ".dict.1", DuoFormat);
      var t21 :- ReadDict(dicts, ".dict.21", QuadFormat);
      var t22 :- ReadDict(dicts, ".dict.22", QuadFormat);
      Ok([t1, t21, t22])
  }

  /** Valid tables of a scheme's widths are tables its restore loop accepts. */
  lemma ReadableTablesFit(s: Scheme, ts: seq<EncodeTable>)
    requires |ts| == |Formats(s)| && forall k :: 0 <= k < |ts| ==> Readable(Formats(s)[k], ts[k])
    ensures SchemeTables(s, ts)
  {
    FormatsTile(s);
  }

  /** The words a compressed payload restores to under a scheme: the tables are
      read first, then the codewords; a stream that cannot be read is malformed. */
  function Restore(s: Scheme, dicts: Dictionaries, bits: Bits): Result<seq<Bits>>
  {
    var ts :- ReadTables(dicts, s);
    ReadableTablesFit(s, ts);
    match DecodeSection(s, ts, bits, 0)
    case None => Err(MalformedStream)
    case Some(cmds) => Ok(cmds)
  }

  /** Tables that were read are tables the scheme's restore loop accepts. */
  lemma TablesFit(dicts: Dictionaries, s: Scheme, ts: seq<EncodeTable>)
    requires ReadTables(dicts, s) == Ok(ts)
    ensures SchemeTables(s, ts)
  {
    ReadableTablesFit(s, ts);
  }

  /** Once the tables are read, the outcome of the restore loop is the outcome of `Restore`. */
  lemma RestoreWith(s: Scheme, dicts: Dictionaries, bits: Bits, ts: seq<EncodeTable>, ok: bool, cmds: seq<Bits>)
    requires ReadTables(dicts, s) == Ok(ts) && SchemeTables(s, ts)
    requires ok <==> DecodeSection(s, ts, bits, 0).Some?
    requires ok ==> cmds == DecodeSection(s, ts, bits, 0).value
    ensures Restore(s, dicts, bits) == if ok then Ok(cmds) else Err(MalformedStream)
  {
  }

  /** The code section decompression restores: header, scheme, tables, words, and
      the words' bytes one after the other. */
  function Decompress(text: seq<Byte>, dicts: Dictionaries): Result<seq<Byte>>
  {
    var frame :- Unframe(text);
    match SchemeOf(frame.1)
    case None => Err(UnsupportedScheme)
    case Some(s) =>
      var cmds :- Restore(s, dicts, frame.0);
      Ok(Join(cmds))
  }

  /** The file holds every table's blob under the table's section name. */
  ghost predicate Holds(dicts: Dictionaries, s: Scheme, ts: seq<EncodeTable>)
    requires |ts| == |Formats(s)|
  {
    forall k :: 0 <= k < |ts| ==> DictNames(s)[k] in dicts && dicts[DictNames(s)[k]] == Join(ts[k].entries)
  }

  /** The blob of one table is read back as that table. */
  lemma ReadDictRoundTrip(dicts: Dictionaries, name: string, f: Format, t: EncodeTable)
    requires f.cmdLen > 0 && Readable(f, t)
    requires name in dicts && dicts[name] == Join(t.entries)
    ensures ReadDict(dicts, name, f) == Ok(t)
  {
    DictionaryRoundTrip(t);
  }

  /** The four quadrant tables of the mask-quad scheme, in their section order. */
  function ReadQuadTables(dicts: Dictionaries): (r: Result<seq<EncodeTable>>)
    ensures r.Ok? ==> && |r.value| == 4
                      && Readable(QuadFormat, r.value[0]) && Readable(QuadFormat, r.value[1])
                      && Readable(QuadFormat, r.value[2]) && Readable(QuadFormat, r.value[3])
  {
    var t11 :- ReadDict(dicts, ".dict.11", QuadFormat);
    var t12 :- ReadDict(dicts, ".dict.12", QuadFormat);
    var t21 :- ReadDict(dicts, ".dict.21", QuadFormat);
    var t22 :- ReadDict(dicts, ".dict.22", QuadFormat);
    Ok([t11, t12, t21, t22])
  }

  /** Tables written as blobs are read back as the same tables. */
  lemma ReadTablesRoundTrip(dicts: Dictionaries, s: Scheme, ts: seq<EncodeTable>)
    requires SchemeTables(s, ts) && Holds(dicts, s, ts)
    ensures ReadTables(dicts, s) == Ok(ts)
  {
    assert forall k :: 0 <= k < |ts| ==> Readable(Formats(s)[k], ts[k]) by {
      forall k | 0 <= k < |ts| ensures Readable(Formats(s)[k], ts[k]) {
        assert Fits(Formats(s)[k], ts[k]);
      }
    }
    match s
    case Dict => ReadOne(dicts, s, ts);
    case MaskSingle => ReadOne(dicts, s, ts);
    case MaskDuo => ReadTwo(dicts, s, ts);
    case MaskQuad => ReadFour(dicts, ts);
    case MaskOperandsOpcode => ReadTwo(dicts, s, ts);
    case MaskDuoQuad => ReadThree(dicts, ts);
  }

  lemma ReadOne(dicts: Dictionaries, s: Scheme, ts: seq<EncodeTable>)
    requires s == Dict || s == MaskSingle
    requires |ts| == 1 && Holds(dicts, s, ts) && Readable(Formats(s)[0], ts[0])
    ensures ReadTables(dicts, s) == Ok(ts)
  {
    ReadDictRoundTrip(dicts, ".dict", Formats(s)[0], ts[0]);
    assert ts == [ts[0]];
  }

  lemma ReadTwo(dicts: Dictionaries, s: Scheme, ts: seq<EncodeTable>)
    requires s == MaskDuo || s == MaskOperandsOpcode
    requires |ts| == 2 && Holds(dicts, s, ts)
    requires Readable(Formats(s)[0], ts[0]) && Readable(Formats(s)[1], ts[1])
    ensures ReadTables(dicts, s) == Ok(ts)
  {
    var names := DictNames(s);
    assert names[0] in dicts && names[1] in dicts;
    ReadDictRoundTrip(dicts, names[0], Formats(s)[0], ts[0]);
    ReadDictRoundTrip(dicts, names[1], Formats(s)[1], ts[1]);
    assert ts == [ts[0], ts[1]];
  }

  /** The section of the given name holds the blob of table t. */
  ghost predicate Stored(dicts: Dictionaries, name: string, t: EncodeTable)
  {
    name in dicts && dicts[name] == Join(t.entries)
  }

  lemma ReadThree(dicts: Dictionaries, ts: seq<EncodeTable>)
    requires |ts| == 3 && Holds(dicts, MaskDuoQuad, ts)
    requires Readable(DuoFormat, ts[0]) && Readable(QuadFormat, ts[1]) && Readable(QuadFormat, ts[2])
    ensures ReadTables(dicts, MaskDuoQuad) == Ok(ts)
  {
    StoredThree(dicts, ts);
    ReadDictRoundTrip(dicts, ".dict.1", DuoFormat, ts[0]);
    ReadDictRoundTrip(dicts, ".dict.21", QuadFormat, ts[1]);
    ReadDictRoundTrip(dicts, ".dict.22", QuadFormat, ts[2]);
    ReadThreeOk(dicts, ts[0], ts[1], ts[2]);
    Listed(ts);
  }

  lemma StoredThree(dicts: Dictionaries, ts: seq<EncodeTable>)
    requires |ts| == 3 && Holds(dicts, MaskDuoQuad, ts)
    ensures Stored(dicts, ".dict.1", ts[0]) && Stored(dicts, ".dict.21", ts[1]) && Stored(dicts, ".dict.22", ts[2])
  {
    var names := DictNames(MaskDuoQuad);
    assert Stored(dicts, names[0], ts[0]) && Stored(dicts, names[1], ts[1]) && Stored(dicts, names[2], ts[2]);
  }

  lemma ReadThreeOk(dicts: Dictionaries, t1: EncodeTable, t21: EncodeTable, t22: EncodeTable)
    requires ReadDict(dicts, ".dict.1", DuoFormat) == Ok(t1)
    requires ReadDict(dicts, ".dict.21", QuadFormat) == Ok(t21)
    requires ReadDict(dicts, ".dict.22", QuadFormat) == Ok(t22)
    ensures ReadTables(dicts, MaskDuoQuad) == Ok([t1, t21, t22])
  {
  }

  lemma ReadFour(dicts: Dictionaries, ts: seq<EncodeTable>)
    requires |ts| == 4 && Holds(dicts, MaskQuad, ts)
    requires forall k :: 0 <= k < 4 ==> Readable(QuadFormat, ts[k])
    ensures ReadTables(dicts, MaskQuad) == Ok(ts)
  {
    StoredFour(dicts, ts);
    ReadDictRoundTrip(dicts, ".dict.11", QuadFormat, ts[0]);
    ReadDictRoundTrip(dicts, ".dict.12", QuadFormat, ts[1]);
    ReadDictRoundTrip(dicts, ".dict.21", QuadFormat, ts[2]);
    ReadDictRoundTrip(dicts, ".dict.22", QuadFormat, ts[3]);
    ReadFourOk(dicts, ts[0], ts[1], ts[2], ts[3]);
    Listed(ts);
  }

  lemma StoredFour(dicts: Dictionaries, ts: seq<EncodeTable>)
    requires |ts| == 4 && Holds(dicts, MaskQuad, ts)
    ensures && Stored(dicts, ".dict.11", ts[0]) && Stored(dicts, ".dict.12", ts[1])
            && Stored(dicts, ".dict.21", ts[2]) && Stored(dicts, ".dict.22", ts[3])
  {
    var names := DictNames(MaskQuad);
    assert Stored(dicts, names[0], ts[0]) && Stored(dicts, names[1], ts[1]);
    assert Stored(dicts, names[2], ts[2]) && Stored(dicts, names[3], ts[3]);
  }

  /** A sequence of three or four elements is the display of its elements. */
  lemma Listed<T>(s: seq<T>)
    requires |s| == 3 || |s| == 4
    ensures |s| == 3 ==> s == [s[0], s[1], s[2]]
    ensures |s| == 4 ==> s == [s[0], s[1], s[2], s[3]]
  {
  }

  lemma ReadFourOk(dicts: Dictionaries, t11: EncodeTable, t12: EncodeTable, t21: EncodeTable, t22: EncodeTable)
    requires ReadDict(dicts, ".dict.11", QuadFormat) == Ok(t11)
    requires ReadDict(dicts, ".dict.12", QuadFormat) == Ok(t12)
    requires ReadDict(dicts, ".dict.21", QuadFormat) == Ok(t21)
    requires ReadDict(dicts, ".dict.22", QuadFormat) == Ok(t22)
    ensures ReadQuadTables(dicts) == Ok([t11, t12, t21, t22])
  {
  }

  /** Decompressing what the compressor writes for a code section of whole words,
      under any scheme and with any fitting tables, gives back the code section. */
  lemma ExecutableRoundTrip(text: seq<Byte>, s: Scheme, ts: seq<EncodeTable>, dicts: Dictionaries)
    requires |text| % CmdLen == 0
    requires SchemeTables(s, ts) && Holds(dicts, s, ts)
    ensures Decompress(Frame(EncodeSection(s, ts, Chunks(text, CmdLen)), Tag(s)), dicts) == Ok(text)
  {
    var cmds := Chunks(text, CmdLen);
    var bits := EncodeSection(s, ts, cmds);
    TagRoundTrip(s);
    FrameRoundTrip(bits, Tag(s));
    ReadTablesRoundTrip(dicts, s, ts);
    SectionRoundTrip(s, ts, cmds);
    JoinOfChunks(text, CmdLen);
    DecompressOf(Frame(bits, Tag(s)), dicts, bits, s, ts, cmds);
  }

  /** A section whose header, tables and codewords all read back decompresses to
      the bytes of the words read. */
  lemma DecompressOf(section: seq<Byte>, dicts: Dictionaries, bits: Bits, s: Scheme, ts: seq<EncodeTable>,
                     cmds: seq<Bits>)
    requires Unframe(section) == Ok((bits, Tag(s))) && SchemeOf(Tag(s)) == Some(s)
    requires ReadTables(dicts, s) == Ok(ts) && SchemeTables(s, ts)
    requires DecodeSection(s, ts, bits, 0) == Some(cmds)
    ensures Decompress(section, dicts) == Ok(Join(cmds))
  {
  }

  /** The partitioner and the encoder of a scheme (the first half of each
      `rv32i_*_compress_section`). */
  method CompressSection(s: Scheme, commands: seq<Bits>) returns (csec: DynBitset, ts: seq<EncodeTable>)
    requires AllWidth(commands, Rv32Bits)
    ensures fresh(csec) && csec.Valid()
    ensures Built(s, commands, ts) && SchemeTables(s, ts)
    ensures csec.Bits() == EncodeSection(s, ts, commands)
  {
    match s
    case Dict =>
      var t := MakeTablesDictionary(commands);
      csec := EncodeSectionDictionary(commands, t);
      ts := [t];
    case MaskSingle =>
      var t := MakeTablesMaskSingle(commands);
      csec := EncodeSectionMaskSingle(commands, t);
      ts := [t];
    case MaskDuo =>
      var t1, t2 := MakeTablesMaskDuo(commands);
      csec := EncodeSectionMaskDuo(commands, t1, t2);
      ts := [t1, t2];
    case MaskQuad =>
      ts := MakeTablesMaskQuad(commands);
      csec := EncodeSectionMaskQuad(commands, ts);
    case MaskOperandsOpcode =>
      var tOperands, tOpcode := MakeTablesOperandsOpcode(commands);
      csec := EncodeSectionOperandsOpcode(commands, tOperands, tOpcode);
      ts := [tOperands, tOpcode];
    case MaskDuoQuad =>
      var t1, t21, t22 := MakeTablesMaskDuoQuad(commands);
      csec := EncodeSectionMaskDuoQuad(commands, t1, t21, t22);
      ts := [t1, t21, t22];
  }

  /** The `write_instr_dictionary` calls of each `rv32i_*_compress_section`: every
      table's blob under its section name. */
  method WriteDictionaries(s: Scheme, ts: seq<EncodeTable>) returns (dicts: Dictionaries)
    requires SchemeTables(s, ts)
    ensures Holds(dicts, s, ts)
  {
    dicts := map[];
    var names := DictNames(s);
    DictNamesDistinct(s);
    for k := 0 to |ts|
      invariant forall j :: 0 <= j < k ==> names[j] in dicts && dicts[names[j]] == Join(ts[j].entries)
    {
      assert Fits(Formats(s)[k], ts[k]);
      var blob := FormInstDictData(ts[k]);
      dicts := dicts[names[k] := blob];
    }
  }

  /** `rv32i_compress_executable`: a code section that is not a whole number of words
      is refused, then a tag that names no scheme; otherwise the section is framed
      and the dictionaries written, and decompressing them restores the section. */
  method CompressExecutable(text: seq<Byte>, tag: nat) returns (r: Result<Compressed>)
    ensures r.Err? <==> |text| % CmdLen != 0 || tag >= 6
    ensures r.Err? ==> r.error == (if |text| % CmdLen != 0 then BadLength else UnsupportedScheme)
    ensures r.Ok? ==> exists ts :: && Built(SchemeOf(tag).value, Chunks(text, CmdLen), ts)
                                   && SchemeTables(SchemeOf(tag).value, ts)
                                   && r.value.text == Frame(EncodeSection(SchemeOf(tag).value, ts, Chunks(text, CmdLen)), tag)
    ensures r.Ok? ==> Decompress(r.value.text, r.value.dicts) == Ok(text)
  {
    var sectionCommands := GetCommands(text, CmdLen);
    if sectionCommands.Err? {
      return Err(sectionCommands.error);
    }
    var commands := sectionCommands.value;
    var etype := SchemeOf(tag);
    if etype.None? {
      return Err(UnsupportedScheme);
    }
    var s := etype.value;
    var csec, ts := CompressSection(s, commands);
    var section := ModifyCodeSection(csec, tag);
    var dicts := WriteDictionaries(s, ts);
    ExecutableRoundTrip(text, s, ts, dicts);
    r := Ok(Compressed(section, dicts));
  }

  /** `rv32i_dict_decompress_section`: the dictionaries in the
      order it reads them, then the restore loop. */
  method DecompressDictionary(csec: DynBitset, dicts: Dictionaries) returns (r: Result<seq<Bits>>)
    requires csec.Valid()
    ensures r == Restore(Dict, dicts, csec.Bits())
  {
    var entab := ReadInstrDictionary(Lookup(dicts, ".dict"), CmdLen, DictIndexSize);
    if entab.Err? {
      return Err(entab.error);
    }
    var ts := [entab.value];
    assert ReadTables(dicts, Dict) == Ok(ts);
    TablesFit(dicts, Dict, ts);
    var ok, cmds := RestoreSectionDictionary(csec, entab.value);
    RestoreWith(Dict, dicts, csec.Bits(), ts, ok, cmds);
    r := if ok then Ok(cmds) else Err(MalformedStream);
  }

  /** `rv32i_mask_single_decompress_section`: the dictionaries in the
      order it reads them, then the restore loop. */
  method DecompressMaskSingle(csec: DynBitset, dicts: Dictionaries) returns (r: Result<seq<Bits>>)
    requires csec.Valid()
    ensures r == Restore(MaskSingle, dicts, csec.Bits())
  {
    var entab := ReadInstrDictionary(Lookup(dicts, ".dict"), CmdLen, SingleIndexSize);
    if entab.Err? {
      return Err(entab.error);
    }
    var ts := [entab.value];
    assert ReadTables(dicts, MaskSingle) == Ok(ts);
    TablesFit(dicts, MaskSingle, ts);
    var ok, cmds := RestoreSectionMaskSingle(csec, entab.value);
    RestoreWith(MaskSingle, dicts, csec.Bits(), ts, ok, cmds);
    r := if ok then Ok(cmds) else Err(MalformedStream);
  }

  /** `rv32i_mask_duo_decompress_section`: the dictionaries in the
      order it reads them, then the restore loop. */
  method DecompressMaskDuo(csec: DynBitset, dicts: Dictionaries) returns (r: Result<seq<Bits>>)
    requires csec.Valid()
    ensures r == Restore(MaskDuo, dicts, csec.Bits())
  {
    var entab1 := ReadInstrDictionary(Lookup(dicts, ".dict.1"), CmdLenH, DuoIndexSize);
    if entab1.Err? {
      return Err(entab1.error);
    }
    var entab2 := ReadInstrDictionary(Lookup(dicts, ".dict.2"), CmdLenH, DuoIndexSize);
    if entab2.Err? {
      return Err(entab2.error);
    }
    var ts := [entab1.value, entab2.value];
    assert ReadTables(dicts, MaskDuo) == Ok(ts);
    TablesFit(dicts, MaskDuo, ts);
    var ok, cmds := RestoreSectionMaskDuo(csec, entab1.value, entab2.value);
    RestoreWith(MaskDuo, dicts, csec.Bits(), ts, ok, cmds);
    r := if ok then Ok(cmds) else Err(MalformedStream);
  }

  /** `rv32i_mask_quad_decompress_section`: the dictionaries in the
      order it reads them, then the restore loop. */
  method DecompressMaskQuad(csec: DynBitset, dicts: Dictionaries) returns (r: Result<seq<Bits>>)
    requires csec.Valid()
    ensures r == Restore(MaskQuad, dicts, csec.Bits())
  {
    var entab11 := ReadInstrDictionary(Lookup(dicts, ".dict.11"), CmdLenQ, QuadIndexSize);
    if entab11.Err? {
      return Err(entab11.error);
    }
    var entab12 := ReadInstrDictionary(Lookup(dicts, ".dict.12"), CmdLenQ, QuadIndexSize);
    if entab12.Err? {
      return Err(entab12.error);
    }
    var entab21 := ReadInstrDictionary(Lookup(dicts, ".dict.21"), CmdLenQ, QuadIndexSize);
    if entab21.Err? {
      return Err(entab21.error);
    }
    var entab22 := ReadInstrDictionary(Lookup(dicts, ".dict.22"), CmdLenQ, QuadIndexSize);
    if entab22.Err? {
      return Err(entab22.error);
    }
    var ts := [entab11.value, entab12.value, entab21.value, entab22.value];
    assert ReadQuadTables(dicts) == Ok(ts);
    TablesFit(dicts, MaskQuad, ts);
    var ok, cmds := RestoreSectionMaskQuad(csec, ts);
    RestoreWith(MaskQuad, dicts, csec.Bits(), ts, ok, cmds);
    r := if ok then Ok(cmds) else Err(MalformedStream);
  }

  /** `rv32i_mask_operands_opcode_decompress_section`: the dictionaries in the
      order it reads them, then the restore loop. */
  method DecompressOperandsOpcode(csec: DynBitset, dicts: Dictionaries) returns (r: Result<seq<Bits>>)
    requires csec.Valid()
    ensures r == Restore(MaskOperandsOpcode, dicts, csec.Bits())
  {
    var entabOpcode := ReadInstrDictionary(Lookup(dicts, ".dict.opcode"), CmdLenQ, QuadIndexSize);
    if entabOpcode.Err? {
      return Err(entabOpcode.error);
    }
    var entabOperands := ReadInstrDictionary(Lookup(dicts, ".dict.operands"), CmdLenO, OpersIndexSize);
    if entabOperands.Err? {
      return Err(entabOperands.error);
    }
    var ts := [entabOperands.value, entabOpcode.value];
    assert ReadTables(dicts, MaskOperandsOpcode) == Ok(ts);
    TablesFit(dicts, MaskOperandsOpcode, ts);
    var ok, cmds := RestoreSectionOperandsOpcode(csec, entabOperands.value, entabOpcode.value);
    RestoreWith(MaskOperandsOpcode, dicts, csec.Bits(), ts, ok, cmds);
    r := if ok then Ok(cmds) else Err(MalformedStream);
  }

  /** `rv32i_mask_duo_quad_decompress_section`: the dictionaries in the
      order it reads them, then the restore loop. */
  method DecompressMaskDuoQuad(csec: DynBitset, dicts: Dictionaries) returns (r: Result<seq<Bits>>)
    requires csec.Valid()
    ensures r == Restore(MaskDuoQuad, dicts, csec.Bits())
  {
    var entab1 := ReadInstrDictionary(Lookup(dicts, ".dict.1"), CmdLenH, DuoIndexSize);
    if entab1.Err? {
      return Err(entab1.error);
    }
    var entab21 := ReadInstrDictionary(Lookup(dicts, ".dict.21"), CmdLenQ, QuadIndexSize);
    if entab21.Err? {
      return Err(entab21.error);
    }
    var entab22 := ReadInstrDictionary(Lookup(dicts, ".dict.22"), CmdLenQ, QuadIndexSize);
    if entab22.Err? {
      return Err(entab22.error);
    }
    var ts := [entab1.value, entab21.value, entab22.value];
    assert ReadTables(dicts, MaskDuoQuad) == Ok(ts);
    TablesFit(dicts, MaskDuoQuad, ts);
    var ok, cmds := RestoreSectionMaskDuoQuad(csec, entab1.value, entab21.value, entab22.value);
    RestoreWith(MaskDuoQuad, dicts, csec.Bits(), ts, ok, cmds);
    r := if ok then Ok(cmds) else Err(MalformedStream);
  }

  /** The per-scheme half of decompression: the `switch` of `rv32i_decompress_executable`. */
  method DecompressSection(s: Scheme, csec: DynBitset, dicts: Dictionaries) returns (r: Result<seq<Bits>>)
    requires csec.Valid()
    ensures r == Restore(s, dicts, csec.Bits())
  {
    match s
    case Dict => r := DecompressDictionary(csec, dicts);
    case MaskSingle => r := DecompressMaskSingle(csec, dicts);
    case MaskDuo => r := DecompressMaskDuo(csec, dicts);
    case MaskQuad => r := DecompressMaskQuad(csec, dicts);
    case MaskOperandsOpcode => r := DecompressOperandsOpcode(csec, dicts);
    case MaskDuoQuad => r := DecompressMaskDuoQuad(csec, dicts);
  }

  /** `rv32i_decompress_executable`: a malformed header is refused, then a tag that
      names no scheme; otherwise the scheme's dictionaries and codewords are read and
      the restored words' bytes make the new code section. */
  method DecompressExecutable(text: seq<Byte>, dicts: Dictionaries) returns (r: Result<seq<Byte>>)
    ensures r == Decompress(text, dicts)
  {
    var ok, csec, tag := GetCompressedSection(text);
    if !ok {
      return Err(MalformedSection);
    }
    var etype := SchemeOf(tag);
    if etype.None? {
      return Err(UnsupportedScheme);
    }
    var sectionCommands := DecompressSection(etype.value, csec, dicts);
    if sectionCommands.Err? {
      return Err(sectionCommands.error);
    }
    return Ok(Join(sectionCommands.value));
  }
}
