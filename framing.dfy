/**
 * The byte-level framing around the codec: slicing a code section into words,
 * the one-byte header in front of a compressed section, and the dictionary
 * blobs that carry the tables from the compressor to the decompressor.
 */
module Framing {
  import opened Wrappers
  import opened Bits
  import opened BitBuffer
  import opened Sorting
  import opened EncodeTables

  // ---------------------------------------------------------------------------
  // Words of a byte string

  /** Taking one word off a length keeps its remainder. */
  lemma ModStep(len: nat, n: nat)
    requires 0 < n <= len
    ensures (len - n) % n == len % n
  {
    var q, r := len / n, len % n;
    assert len == n * q + r;
    assert q >= 1;
    assert len - n == n * (q - 1) + r;
    DivModUnique(len - n, n, q - 1, r);
  }

  /** A non-empty whole number of words holds at least one word. */
  lemma ModPositive(len: nat, n: nat)
    requires 0 < len && 0 < n && len % n == 0
    ensures n <= len
  {
  }

  /** The n-byte words of a byte string, in order, each read as 8n bits; a short
      tail makes no word. */
  function Chunks(data: seq<Byte>, n: nat): (r: seq<Bits>)
    requires n > 0
    ensures AllWidth(r, 8 * n)
    decreases |data|
  {
    if |data| < n then [] else [BytesToBits(data[..n])] + Chunks(data[n..], n)
  }

  /** The bytes of each command in turn: what copying every command's `data()`
      one after the other produces. */
  function Join(cmds: seq<Bits>): seq<Byte>
  {
    if cmds == [] then [] else Pack(cmds[0]) + Join(cmds[1..])
  }

  /** A command of 8n bits is held by exactly n bytes, and they read back as it. */
  lemma PackWhole(c: Bits, n: nat)
    requires |c| == 8 * n
    ensures |Pack(c)| == n && BytesToBits(Pack(c)) == c
  {
    UnpackPack(c);
  }

  /** Joining one more command appends its bytes. */
  lemma {:induction false} JoinSnoc(cmds: seq<Bits>, c: Bits)
    ensures Join(cmds + [c]) == Join(cmds) + Pack(c)
  {
    if cmds != [] {
      assert (cmds + [c])[1..] == cmds[1..] + [c];
      JoinSnoc(cmds[1..], c);
    }
  }

  /** Commands of 8n bits join into a whole number of n-byte words. */
  lemma {:induction false} JoinWhole(cmds: seq<Bits>, n: nat)
    requires n > 0 && AllWidth(cmds, 8 * n)
    ensures |Join(cmds)| % n == 0
  {
    if cmds != [] {
      JoinWhole(cmds[1..], n);
      PackWhole(cmds[0], n);
      ModStep(|Join(cmds)|, n);
    }
  }

  /** Slicing joined commands gives back the commands. */
  lemma {:induction false} ChunksOfJoin(cmds: seq<Bits>, n: nat)
    requires n > 0 && AllWidth(cmds, 8 * n)
    ensures Chunks(Join(cmds), n) == cmds
  {
    if cmds != [] {
      var data := Join(cmds);
      PackWhole(cmds[0], n);
      assert data[..n] == Pack(cmds[0]) && data[n..] == Join(cmds[1..]);
      ChunksOfJoin(cmds[1..], n);
    }
  }

  /** Joining a command in front of others puts its bytes in front. */
  lemma JoinCons(c: Bits, cmds: seq<Bits>, word: seq<Byte>, rest: seq<Byte>)
    requires Pack(c) == word && Join(cmds) == rest
    ensures Join([c] + cmds) == word + rest
  {
    assert ([c] + cmds)[1..] == cmds;
  }

  /** A byte string holding a word starts its words with that word. */
  lemma ChunksFront(data: seq<Byte>, n: nat)
    requires 0 < n <= |data|
    ensures Chunks(data, n) == [BytesToBits(data[..n])] + Chunks(data[n..], n)
  {
  }

  /** Joining the words of a byte string that is a whole number of words gives back
      the byte string. */
  lemma {:induction false} JoinOfChunks(data: seq<Byte>, n: nat)
    requires n > 0 && |data| % n == 0
    ensures Join(Chunks(data, n)) == data
    decreases |data|
  {
    if |data| > 0 {
      WholeTail(|data|, n);
      JoinOfChunks(data[n..], n);
      JoinFirstWord(data, n);
    }
  }

  /** A byte string that is a whole, non-zero number of words holds a first word and
      a whole number of words after it. */
  lemma WholeTail(len: nat, n: nat)
    requires 0 < len && 0 < n && len % n == 0
    ensures n <= len && (len - n) % n == 0
  {
    ModPositive(len, n);
    ModStep(len, n);
  }

  /** A byte string is its first n bytes followed by the rest. */
  lemma TakeDrop(data: seq<Byte>, n: nat)
    requires n <= |data|
    ensures data[..n] + data[n..] == data
  {
  }

  /** If the words after the first join back to the rest, all words join back. */
  lemma JoinFirstWord(data: seq<Byte>, n: nat)
    requires 0 < n <= |data| && Join(Chunks(data[n..], n)) == data[n..]
    ensures Join(Chunks(data, n)) == data
  {
    ChunksFront(data, n);
    PackUnpack(data[..n]);
    JoinCons(BytesToBits(data[..n]), Chunks(data[n..], n), data[..n], data[n..]);
    TakeDrop(data, n);
  }

  /** The words from offset i on: the word at i, then the words after it. */
  lemma ChunksStep(data: seq<Byte>, i: nat, n: nat)
    requires n > 0 && i + n <= |data|
    ensures Chunks(data[i..], n) == [BytesToBits(data[i..i + n])] + Chunks(data[i + n..], n)
  {
    assert data[i..][..n] == data[i..i + n] && data[i..][n..] == data[i + n..];
  }

  /** One word: a fresh command filled with all the bits of its bytes. */
  method ReadWord(src: seq<Byte>, bitcnt: nat) returns (w: Bits)
    requires bitcnt == 8 * |src|
    ensures w == BytesToBits(src)
  {
    var comm := new DynBitset();
    comm.AddBytes(src, bitcnt);
    w := comm.Bits();
  }

  /** The slicing loop shared by `get_commands` and `read_instr_dictionary`: a fresh
      command per word, filled with the word's cmdLen*8 bits. */
  method SliceWords(data: seq<Byte>, cmdLen: nat) returns (words: seq<Bits>)
    requires cmdLen > 0 && |data| % cmdLen == 0
    ensures words == Chunks(data, cmdLen)
  {
    words := [];
    var cmdlenBits := cmdLen * 8;
    var i := 0;
    while i < |data|
      invariant i <= |data| && (|data| - i) % cmdLen == 0
      invariant words + Chunks(data[i..], cmdLen) == Chunks(data, cmdLen)
      decreases |data| - i
    {
      WholeTail(|data| - i, cmdLen);
      ChunksStep(data, i, cmdLen);
      var word := ReadWord(data[i..i + cmdLen], cmdlenBits);
      words := words + [word];
      i := i + cmdLen;
    }
  }

  /** `get_commands`: a section that is not a whole number of words is refused;
      otherwise its words, cmdLen*8 bits each, in byte order. */
  method GetCommands(data: seq<Byte>, cmdLen: nat) returns (r: Result<seq<Bits>>)
    requires cmdLen > 0
    ensures r.Err? <==> |data| % cmdLen != 0
    ensures r.Err? ==> r.error == BadLength
    ensures r.Ok? ==> r.value == Chunks(data, cmdLen) && Join(r.value) == data
  {
    if |data| % cmdLen != 0 {
      return Err(BadLength);
    }
    var commands := SliceWords(data, cmdLen);
    JoinOfChunks(data, cmdLen);
    return Ok(commands);
  }

  // ---------------------------------------------------------------------------
  // The header byte of a compressed section

  /** The unused bits of the last byte: the fewest bits that fill it. */
  function Padding(bitCount: nat): (p: nat)
    ensures p < 8 && (bitCount + p) % 8 == 0
  {
    (8 - bitCount % 8) % 8
  }

  /** Three bits of padding above a five-bit encoding-type tag. */
  function HeaderByte(padding: Byte, tag: Byte): Byte
  {
    (padding << 5) | (tag & 0x1F)
  }

  /** The header of a padding and a tag given as numbers; the tag is cast to `char`
      before it is masked. */
  function Header(padding: nat, tag: nat): Byte
    requires padding < 8
  {
    HeaderByte(padding as bv8, (tag % 256) as bv8)
  }

  /** A padding below 8 survives the trip through a byte. */
  lemma SmallPadding(x: nat)
    requires x < 8
    ensures (x as bv8) as nat == x && (x as bv8) < 8
  {
    if x == 0 {} else if x == 1 {} else if x == 2 {} else if x == 3 {}
    else if x == 4 {} else if x == 5 {} else if x == 6 {} else {}
  }

  /** A tag below 32 survives the trip through a byte. */
  lemma SmallTag(x: nat)
    requires x < 32
    ensures (x as bv8) as nat == x && (x as bv8) < 32
  {
    var lo, hi := x % 8, x / 8;
    SmallPadding(lo);
    assert x == hi * 8 + lo;
    if hi == 0 {} else if hi == 1 {} else if hi == 2 {} else {}
  }

  /** A field below 32 survives the trip through numbers. */
  lemma FieldAsNumber(c: Byte)
    requires c < 32
    ensures c as nat < 32 && (c as nat) as bv8 == c && ((c as nat) % 256) as bv8 == c
  {
  }

  /** The fields written into a header byte are the fields read from it. */
  lemma HeaderByteFields(p: Byte, t: Byte)
    requires p < 8 && t < 32
    ensures (HeaderByte(p, t) >> 5) & 7 == p && HeaderByte(p, t) & 0x1F == t
  {
  }

  /** Padding and tag are read back from the fields they were written into. */
  lemma HeaderFields(padding: nat, tag: nat)
    requires padding < 8 && tag < 32
    ensures ((Header(padding, tag) >> 5) & 7) as nat == padding
    ensures (Header(padding, tag) & 0x1F) as nat == tag
  {
    SmallPadding(padding);
    SmallTag(tag);
    assert tag % 256 == tag;
    HeaderByteFields(padding as bv8, tag as bv8);
  }

  /** Every byte is the header of the padding and tag read from it. */
  lemma HeaderOfFields(b: Byte)
    ensures Header(((b >> 5) & 7) as nat, (b & 0x1F) as nat) == b
  {
    var p, t := (b >> 5) & 7, b & 0x1F;
    assert p < 8 && t < 32;
    FieldAsNumber(p);
    FieldAsNumber(t);
    assert HeaderByte(p, t) == b;
  }

  /** The compressed section as written: the header, then the bytes of the bits. */
  function Frame(bits: Bits, tag: nat): (r: seq<Byte>)
    ensures |r| == 1 + (|bits| + 7) / 8
  {
    [Header(Padding(|bits|), tag)] + Pack(bits)
  }

  /** A compressed section read back: its bits and its tag. An empty section, or
      padding beyond the payload, is malformed. */
  function Unframe(section: seq<Byte>): (r: Result<(Bits, nat)>)
    ensures r.Err? <==> |section| == 0 || ((section[0] >> 5) & 7) as nat > 8 * (|section| - 1)
    ensures r.Err? ==> r.error == MalformedSection
    ensures r.Ok? ==> r.value.1 < 32 && |r.value.0| <= 8 * (|section| - 1) < |r.value.0| + 8
  {
    if |section| == 0 then Err(MalformedSection)
    else
      var padding := ((section[0] >> 5) & 7) as nat;
      var dataBits := 8 * (|section| - 1);
      if padding > dataBits then Err(MalformedSection)
      else Ok((BytesToBits(section[1..])[..dataBits - padding], (section[0] & 0x1F) as nat))
  }

  /** The payload's bytes less the padding are exactly the bits. */
  lemma PaddingFills(bitCount: nat)
    ensures Padding(bitCount) <= 8 * ((bitCount + 7) / 8)
    ensures 8 * ((bitCount + 7) / 8) - Padding(bitCount) == bitCount
  {
  }

  /** A header followed by a payload that holds the bits reads back as the bits. */
  lemma UnframeParts(h: Byte, payload: seq<Byte>, bits: Bits, tag: nat)
    requires tag < 32 && h == Header(Padding(|bits|), tag)
    requires |payload| == (|bits| + 7) / 8 && BytesToBits(payload)[..|bits|] == bits
    ensures Unframe([h] + payload) == Ok((bits, tag))
  {
    HeaderFields(Padding(|bits|), tag);
    PaddingFills(|bits|);
    assert ([h] + payload)[0] == h && ([h] + payload)[1..] == payload;
  }

  /** Framing then unframing recovers the exact bits and the tag. */
  lemma FrameRoundTrip(bits: Bits, tag: nat)
    requires tag < 32
    ensures Unframe(Frame(bits, tag)) == Ok((bits, tag))
  {
    UnpackPack(bits);
    UnframeParts(Header(Padding(|bits|), tag), Pack(bits), bits, tag);
  }

  /** The padding of a length that stops p bits short of a byte boundary is p. */
  lemma PaddingOf(m: nat, p: nat)
    requires p < 8 && p <= 8 * m
    ensures Padding(8 * m - p) == p
  {
  }

  /** The header written for what a header byte announces is that byte. */
  lemma HeaderRebuilt(b: Byte, m: nat, bitCount: nat, tag: nat)
    requires ((b >> 5) & 7) as nat <= 8 * m && bitCount == 8 * m - ((b >> 5) & 7) as nat
    requires tag == (b & 0x1F) as nat
    ensures Header(Padding(bitCount), tag) == b
  {
    PaddingOf(m, ((b >> 5) & 7) as nat);
    HeaderOfFields(b);
  }

  /** A header and a payload that are those of the bits make up their framing. */
  lemma FrameOf(h: Byte, payload: seq<Byte>, bits: Bits, tag: nat)
    requires h == Header(Padding(|bits|), tag) && payload == Pack(bits)
    ensures Frame(bits, tag) == [h] + payload
  {
  }

  /** Conversely, a section whose unused bits are clear is the framing of what it
      reads back as. */
  lemma UnframeRoundTrip(section: seq<Byte>)
    requires Unframe(section).Ok?
    requires section[1..] == Pack(Unframe(section).value.0)
    ensures Frame(Unframe(section).value.0, Unframe(section).value.1) == section
  {
    var bits, tag := Unframe(section).value.0, Unframe(section).value.1;
    UnframeFields(section, bits, tag);
    FrameOfFields(section, bits, tag);
  }

  /** What a section that reads back announces in its header byte. */
  lemma UnframeFields(section: seq<Byte>, bits: Bits, tag: nat)
    requires Unframe(section) == Ok((bits, tag))
    ensures |section| > 0 && ((section[0] >> 5) & 7) as nat <= 8 * (|section| - 1)
    ensures |bits| == 8 * (|section| - 1) - ((section[0] >> 5) & 7) as nat
    ensures tag == (section[0] & 0x1F) as nat
  {
  }

  /** A section whose header byte announces the bits' padding and the tag, and whose
      payload is the bits' bytes, is the framing of the bits. */
  lemma FrameOfFields(section: seq<Byte>, bits: Bits, tag: nat)
    requires |section| > 0 && ((section[0] >> 5) & 7) as nat <= 8 * (|section| - 1)
    requires |bits| == 8 * (|section| - 1) - ((section[0] >> 5) & 7) as nat
    requires tag == (section[0] & 0x1F) as nat
    requires section[1..] == Pack(bits)
    ensures Frame(bits, tag) == section
  {
    var b := section[0];
    HeaderRebuilt(b, |section| - 1, |bits|, tag);
    FrameOf(b, section[1..], bits, tag);
    assert section == [b] + section[1..];
  }

  /** `modify_code_section`: the header byte, then the buffer's bytes. */
  method ModifyCodeSection(csec: DynBitset, tag: nat) returns (section: seq<Byte>)
    requires csec.Valid()
    ensures section == Frame(csec.Bits(), tag)
  {
    var lastFreeBits := (8 - csec.bits % 8) % 8;
    var metadata := HeaderByte(lastFreeBits as bv8, (tag % 256) as bv8);
    csec.DataIsPacked();
    section := [metadata] + csec.data;
  }

  /** `get_compressed_section`: the payload's bits less the padding, and the tag. */
  method GetCompressedSection(section: seq<Byte>) returns (ok: bool, csec: DynBitset, tag: nat)
    ensures fresh(csec) && csec.Valid()
    ensures ok <==> Unframe(section).Ok?
    ensures ok ==> (csec.Bits(), tag) == Unframe(section).value
  {
    csec := new DynBitset();
    tag := 0;
    if |section| == 0 {
      return false, csec, tag;
    }
    var metadata := section[0];
    var dataSize := |section| - 1;
    var padding := ((metadata >> 5) & 7) as nat;
    if padding > dataSize * 8 {
      return false, csec, tag;
    }
    csec.AddBytes(section[1..], dataSize * 8 - padding);
    tag := (metadata & 0x1F) as nat;
    assert csec.Bits() == BytesToBits(section[1..])[..dataSize * 8 - padding];
    assert Unframe(section) == Ok((csec.Bits(), tag));
    ok := true;
  }

  // ---------------------------------------------------------------------------
  // Dictionary blobs

  /** The inner copy of `form_inst_dict_data`: count bytes pushed one at a time. */
  method PushBytes(data: seq<Byte>, src: seq<Byte>, count: nat) returns (r: seq<Byte>)
    requires count <= |src|
    ensures r == data + src[..count]
  {
    r := data;
    for i := 0 to count
      invariant r == data + src[..i]
    {
      r := r + [src[i]];
    }
  }

  /** `form_inst_dict_data`: the cmdLen bytes of every entry, in table order. */
  method FormInstDictData(t: EncodeTable) returns (data: seq<Byte>)
    requires AllWidth(t.entries, 8 * t.cmdLen)
    ensures data == Join(t.entries)
  {
    data := [];
    for k := 0 to |t.entries|
      invariant data == Join(t.entries[..k])
    {
      var cmdData := Pack(t.entries[k]);
      PackWhole(t.entries[k], t.cmdLen);
      data := PushBytes(data, cmdData, t.cmdLen);
      assert cmdData[..t.cmdLen] == cmdData;
      assert t.entries[..k + 1] == t.entries[..k] + [t.entries[k]];
      JoinSnoc(t.entries[..k], t.entries[k]);
    }
    assert t.entries[..|t.entries|] == t.entries;
  }

  /** The table a dictionary section describes: a missing section, or one that is
      not a whole number of entries, is refused; otherwise the entries go through
      the validating constructor. */
  function ParseDictionary(section: Option<seq<Byte>>, cmdLen: nat, indexSize: nat): (r: Result<EncodeTable>)
    requires cmdLen > 0
    ensures section.None? ==> r == Err(MissingDictionary)
    ensures section.Some? && |section.value| % cmdLen != 0 ==> r == Err(MalformedDictionary)
    ensures r.Ok? ==> && ValidTable(r.value)
                      && r.value.cmdLen == cmdLen && r.value.indexSize == indexSize
                      && multiset(r.value.entries) == multiset(Chunks(section.value, cmdLen))
  {
    match section
    case None => Err(MissingDictionary)
    case Some(data) =>
      if |data| % cmdLen != 0 then Err(MalformedDictionary)
      else MakeTable(cmdLen, indexSize, Chunks(data, cmdLen))
  }

  /** The parsing half of `read_instr_dictionary`. */
  method ReadInstrDictionary(section: Option<seq<Byte>>, cmdLen: nat, indexSize: nat) returns (r: Result<EncodeTable>)
    requires cmdLen > 0
    ensures r == ParseDictionary(section, cmdLen, indexSize)
  {
    if section.None? {
      return Err(MissingDictionary);
    }
    var data := section.value;
    if |data| % cmdLen != 0 {
      return Err(MalformedDictionary);
    }
    var entries := SliceWords(data, cmdLen);
    r := Build(cmdLen, indexSize, entries);
  }

  /** Writing a table's blob and reading it back rebuilds the same table. */
  lemma DictionaryRoundTrip(t: EncodeTable)
    requires ValidTable(t) && t.cmdLen > 0
    ensures ParseDictionary(Some(Join(t.entries)), t.cmdLen, t.indexSize) == Ok(t)
  {
    JoinWhole(t.entries, t.cmdLen);
    ChunksOfJoin(t.entries, t.cmdLen);
    AscendingSorted(t.entries);
    SortOfSorted(t.entries, Key);
  }
}
