# isa-compress RV32I bitstream codec, modelled in Dafny

isa-compress shrinks the `.text` section of a RISC-V executable. It cuts the
section into 32-bit instructions and builds one or more frequency dictionaries
over the whole instruction or over parts of it. Each instruction, or each part,
then becomes a variable-length codeword:

- in the dictionary scheme, a 1-bit flag, then a table index or the literal part;
- in the mask schemes, a 2-bit tier, then an exact index, or a position, a mask
  and an index for an entry that differs from the part in one mask-sized field,
  or a 1-bit literal.

The codewords of all instructions are packed into one growable bit buffer
(`dynbitset`). A header byte is put in front of the buffer. It holds the count
of unused bits in the last byte and the scheme number. The dictionaries are
stored as extra sections named `.dict`, `.dict.1`, `.dict.2`, `.dict.11`, and so on.
Decompression reads the header, loads the dictionaries of that scheme and
decodes codewords until the buffer ends.

The model covers that codec for the six RV32I schemes: dictionary, mask single,
mask duo, mask quad, mask duo-quad and mask operands/opcode.

| Module (file) | Models |
|---|---|
| `BitBuffer` (dynbitset.dfy) | class `DynBitset`, with its byte vector and its bit count |
| `Commands` (command.dfy) | splitting a command into two parts |
| `EncodeTables`, `Sorting` | the sorted dictionary and its binary search |
| `DictionaryBuilder` | the table of the most frequent commands |
| `MaskMatcher` | the search for an entry that differs from a command in one field |
| `Codewords` | the per-part compressors and the `restore_block_*` readers |
| `Schemes` | the six schemes as data, with the command and section codecs as reference functions |
| `Sections` | the `encode_code_section_*` and `restore_section_commands` loops, as methods over a `DynBitset` |
| `Partitions` (tables.dfy) | the per-scheme table builders |
| `Framing` | `get_commands`, the header byte and the dictionary section bytes |
| `Executable` | the scheme dispatch of compression and decompression |
| `CodecVectors` (vectors.dfy) | the unit-test vectors of the mask search, the compressors and the block readers |

Bit `i` of a buffer is bit `i % 8` of byte `i / 8`, least significant first. A
run of bits read as a number gives bit `i` the weight 2^i, which is what
`to_size_t` computes.

Decoding is total in the model. Where the C++ reads past the end of a buffer or
a table, the model returns an error instead:

- a stream that ends inside a codeword;
- an index beyond the dictionary;
- an empty section;
- a padding count larger than the payload;
- a dictionary section whose length is not a multiple of the command length.

## Model

| member | source | states |
|---|---|---|
| BitBuffer.DynBitset.constructor | src/CodeCompressor/lib/dynbitset.cpp:7-8 | a new buffer holds no bits and no bytes |
| BitBuffer.DynBitset.DataIsPacked | src/CodeCompressor/lib/dynbitset.cpp:68-71 | the byte vector behind `data()` is exactly the packed bits, with zero padding in the last byte |
| BitBuffer.DynBitset.AddImpl | src/CodeCompressor/lib/dynbitset.cpp:118-126 | appends one bit, keeps the unused tail bits zero, and grows the byte vector exactly when the new bit falls past its end |
| BitBuffer.DynBitset.Add | src/CodeCompressor/lib/dynbitset.cpp:10-13 | the new contents are the old contents followed by the bit |
| BitBuffer.DynBitset.AddValue | src/CodeCompressor/lib/dynbitset.cpp:15-23 | appends the low `bitcnt` bits of the value, least significant first |
| BitBuffer.DynBitset.AddBytes | src/CodeCompressor/lib/dynbitset.cpp:25-33 | appends the first `bitcnt` bits of the byte vector |
| BitBuffer.DynBitset.AddFrom | src/CodeCompressor/lib/dynbitset.cpp:35-48 | fails, changing nothing, exactly when the bit offset exceeds 7; otherwise appends bits `offset..offset+bitcnt` of the source bytes |
| BitBuffer.DynBitset.AddAll | src/CodeCompressor/lib/dynbitset.cpp:50-56 | appends every bit of the other buffer, in order |
| BitBuffer.DynBitset.ToSizeT | src/CodeCompressor/lib/dynbitset.cpp:73-84 | the result is the number whose bit `i` is stored bit `i` |
| BitBuffer.DynBitset.SetBit | src/CodeCompressor/lib/dynbitset.cpp:86-98 | only bit `pos` changes, to the new value; the size and the byte count are unchanged |
| BitBuffer.DynBitset.GetBit | src/CodeCompressor/lib/dynbitset.cpp:100-103 | returns the stored bit at `pos` |
| BitBuffer.DynBitset.GetSeq | src/CodeCompressor/lib/dynbitset.cpp:105-116 | a fresh buffer holding exactly bits `start..end` |
| BitBuffer.DynBitset.Clear | src/CodeCompressor/lib/dynbitset.cpp:7-8 | the buffer is emptied |
| BitBuffer.Less | src/CodeCompressor/lib/dynbitset.cpp:135-138 | true exactly when the first buffer's number is smaller |
| BitBuffer.Equal | src/CodeCompressor/lib/dynbitset.cpp:140-143 | true exactly when the two numbers are equal |
| BitBuffer.NotEqual | src/CodeCompressor/lib/dynbitset.cpp:145-148 | true exactly when the two numbers differ |
| BitBuffer.ToSizeTExample | src/CodeCompressor/tests/core_unit_tests.cpp:764-775 | the bytes 0xf5, 0xf1 read as 12 bits give 501 |
| BitBuffer.GetSeqExample | src/CodeCompressor/tests/core_unit_tests.cpp:836-850 | bits 4..12 of 0xaffa read as 0xff |
| BitBuffer.AddBoolExample | src/CodeCompressor/tests/core_unit_tests.cpp:727-737 | `add(0)` on an empty buffer gives one bit held in one zero byte |
| BitBuffer.AddValueExample | src/CodeCompressor/tests/core_unit_tests.cpp:739-749 | `add(0xa, 4)` gives four bits held in the single byte 10 |
| BitBuffer.AddBytesExample | src/CodeCompressor/tests/core_unit_tests.cpp:751-762 | the first 12 bits of the bytes 0x05, 0xf1 fill two bytes and read as 261 |
| BitBuffer.AddFromExample | src/CodeCompressor/tests/core_unit_tests.cpp:777-788 | the 12 bits after the first 4 of the bytes 0xf5, 0xf1 fill two bytes and read as 3871 |
| Bits.PackUnpack | src/CodeCompressor/lib/dynbitset.cpp:25-33 | unpacking a byte vector into bits and packing the bits again gives back the same bytes |
| Bits.UnpackPack | src/CodeCompressor/lib/dynbitset.cpp:68-71 | packing bits and unpacking the bytes gives the bits back as a prefix |
| Bits.BytesToBitsAppend | src/CodeCompressor/lib/dynbitset.cpp:25-33 | unpacking distributes over concatenation of byte vectors |
| Bits.BytesToBitsDrop | src/CodeCompressor/lib/dynbitset.cpp:35-48 | dropping `k` bytes drops `8k` bits |
| Bits.BytesToBitsFrom | src/CodeCompressor/lib/dynbitset.cpp:35-48 | reading from byte `f/8`, bit `f%8` reads the same bits as reading from bit `f` |
| Bits.AppendBit | src/CodeCompressor/lib/dynbitset.cpp:118-126 | growing by a zero byte when needed and or-ing in the bit appends exactly that bit and keeps the tail zero |
| Bits.OredBit | src/CodeCompressor/lib/dynbitset.cpp:118-126 | or-ing a shifted bit into byte `p/8` sets bit `p` when the value is true and changes no other bit |
| Bits.ClearedBit | src/CodeCompressor/lib/dynbitset.cpp:86-98 | clearing with the inverted mask clears bit `p` and changes no other bit |
| Bits.SetKeeps | src/CodeCompressor/lib/dynbitset.cpp:86-98 | setting a bit below the size keeps the unused tail zero and sets only that bit |
| Bits.ClearKeeps | src/CodeCompressor/lib/dynbitset.cpp:86-98 | clearing a bit below the size keeps the unused tail zero and clears only that bit |
| Bits.ValueOfLowBits | src/CodeCompressor/lib/dynbitset.cpp:15-23 | the low `n` bits of a value, read back as a number, give the value mod 2^n |
| Bits.LowBitsOfValue | src/CodeCompressor/lib/dynbitset.cpp:73-84 | writing back, in as many bits as `s` has, the number read from `s` gives `s` |
| Bits.ValueOfInjective | src/CodeCompressor/lib/dynbitset.cpp:140-148 | two runs of equal length that read as the same number are equal |
| Bits.ValueOfAppend | src/CodeCompressor/lib/dynbitset.cpp:73-84 | the number of `a + b` is the number of `a` plus 2 to the length of `a`, times the number of `b` |
| Bits.ValueOfBound | src/CodeCompressor/lib/dynbitset.cpp:73-84 | a run of `n` bits reads as a number below 2^n |
| Bits.SplitValues | src/CodeCompressor/lib/command.cpp:18-31 | the first `f` bits read as the number mod 2^f, the rest as the number div 2^f |
| Commands.Devide | src/CodeCompressor/lib/command.cpp:8-11 | fails, leaving both outputs untouched, exactly when `fbits` exceeds the size; otherwise the outputs are the first `fbits` bits and the rest, and they concatenate back to the input |
| Commands.DevideHalf | src/CodeCompressor/lib/command.cpp:13-16 | the outputs are the two halves, and they concatenate back to the input |
| Commands.Load | src/CodeCompressor/lib/command.cpp:18-31 | the output holds exactly bits `off..off+cnt` of the source bytes |
| Commands.SplitAt12Example | src/CodeCompressor/tests/core_unit_tests.cpp:634-650 | 0xaffa split after 12 bits gives 0xffa and 0xa |
| Commands.SplitHalfExample | src/CodeCompressor/tests/core_unit_tests.cpp:701-719 | 0xaffa split in half gives 0xfa and 0xaf |
| Commands.SplitAt2Example | src/CodeCompressor/tests/core_unit_tests.cpp:634-655 | 0xfa split after 2 bits gives 0x2 and 0x3e |
| Commands.DevideAtEnd | src/CodeCompressor/tests/core_unit_tests.cpp:659-678 | splitting any command at its full length gives a first part equal to it and an empty second part, with no bits and no bytes |
| Commands.DevideAtStart | src/CodeCompressor/tests/core_unit_tests.cpp:680-699 | splitting any command at 0 gives an empty first part, with no bits and no bytes, and a second part equal to it |
| Sorting.SortBy | src/CodeCompressor/lib/encode_table.h:46 | the result is sorted by the key and is a permutation of the input |
| Sorting.InsertBy | src/CodeCompressor/lib/encode_table.h:46 | inserting into a sorted sequence keeps it sorted and adds exactly one occurrence |
| Sorting.SortOfSorted | src/CodeCompressor/lib/encode_table.h:46 | sorting an already sorted sequence changes nothing |
| Sorting.DistinctMultiset | src/CodeCompressor/lib/utils.h:30-57 | a sequence has no repeats exactly when every multiplicity is at most one |
| EncodeTables.MakeTable | src/CodeCompressor/lib/encode_table.h:30-47 | fails with a capacity error exactly when there are more than 2^indexSize entries, else with a length error exactly when an entry is not `8*cmdLen` bits; on success the table is sorted, valid and a permutation of the entries |
| EncodeTables.Build | src/CodeCompressor/lib/encode_table.h:30-47 | the constructor's checks and sort give the same result as `MakeTable` |
| EncodeTables.EmptyTable | src/CodeCompressor/lib/encode_table.h:25-28 | the default table is valid and empty |
| EncodeTables.IndexOf | src/CodeCompressor/lib/encode_table.h:69-80 | -1 exactly when no entry has the value; otherwise the first index whose entry has the value |
| EncodeTables.Find | src/CodeCompressor/lib/encode_table.h:69-80 | the binary search over the sorted table returns the index of the entry equal to the command, or -1 |
| EncodeTables.Located | src/CodeCompressor/lib/encode_table.h:69-80 | when the search narrows to `lo`, the entry there is the command's index or the command is absent |
| EncodeTables.IndexOfMember | src/CodeCompressor/lib/encode_table.h:69-80 | for a command of the table's width, the search succeeds exactly when the command is an entry, and finds that entry |
| EncodeTables.AscendingSorted | src/CodeCompressor/lib/encode_table.h:46 | entries ascending by value, duplicates allowed, are exactly those sorted by the key |
| DictionaryBuilder.CountOccurrences | src/CodeCompressor/lib/utils.h:33-40 | the map has a key for each distinct command, holding how often it occurs; the key list has no repeats |
| DictionaryBuilder.RankByCount | src/CodeCompressor/lib/utils.h:42-47 | every distinct command appears exactly once with its count, ordered by non-increasing count |
| DictionaryBuilder.MakeEncodeTable | src/CodeCompressor/lib/utils.h:30-57 | the table holds the min(2^indexSize, distinct) most frequent commands: no left-out command occurs more often than a chosen one |
| DictionaryBuilder.SelectedTable | src/CodeCompressor/lib/utils.h:49-56 | taking the first entries of the ranking yields a frequency table |
| DictionaryBuilder.BuilderExample | src/CodeCompressor/lib/utils.h:30-57 | with a 1-bit index over a,a,a,b,c,c,d the table is exactly {a, c} |
| DictionaryBuilder.ExampleCounts | src/CodeCompressor/lib/utils.h:33-40 | a occurs 3 times, c twice, b and d once, over four distinct values |
| MaskMatcher.BitsDiffer | src/CodeCompressor/lib/utils.h:66-74 | the bit loop reports a difference exactly when the two slices differ |
| MaskMatcher.FieldDiffers | src/CodeCompressor/lib/utils.h:66-74 | true exactly when field `j` of the entry differs from field `j` of the command |
| MaskMatcher.FindSingleMismatch | src/CodeCompressor/lib/utils.h:60-83 | true exactly when exactly one of the `poscnt` fields differs, and then the position is that field |
| MaskMatcher.ScanExit | src/CodeCompressor/lib/utils.h:76-82 | stopping at the second difference or at the last field decides "exactly one" correctly |
| MaskMatcher.GetMaskByPos | src/CodeCompressor/lib/utils.h:85-90 | the mask is field `pos` of the command |
| MaskMatcher.TryEntry | src/CodeCompressor/lib/utils.h:99-107 | for one entry, a single-field mismatch is found exactly when it exists, together with the field and its bits |
| MaskMatcher.FindMask | src/CodeCompressor/lib/utils.h:92-111 | succeeds exactly when some entry differs from the command in exactly one field; then the index and position are the first such entry and its field |
| MaskMatcher.MaskMatchMeaning | src/CodeCompressor/lib/utils.h:92-111 | a match names an entry with exactly one differing field, and no earlier entry has one; no match means no entry has one |
| MaskMatcher.MaskRestores | src/CodeCompressor/lib/utils.h:207-226 | splicing the command's field into the matched entry gives back the command |
| MaskMatcher.SpliceField | src/CodeCompressor/lib/utils.h:221-225 | an entry that agrees everywhere except field `pos`, overwritten there with the command's field, equals the command |
| Codewords.OverwriteSlices | src/CodeCompressor/lib/utils.h:221-225 | overwriting the bits from `start` with `f` keeps the bits before and after and places `f` between them |
| Codewords.CompressWithDictionary | src/CodeCompressor/lib/utils.h:165-197 | the codeword is 1 and the index when the command is in the table, 0 and the literal otherwise |
| Codewords.EmitIndexHit | src/CodeCompressor/lib/utils.h:175-178 | a 1 flag followed by the index in `indexSize` bits |
| Codewords.EmitDictLiteral | src/CodeCompressor/lib/utils.h:184-189 | a 0 flag followed by the command bits |
| Codewords.CompressWithMask | src/CodeCompressor/lib/utils.h:113-163 | the codeword chosen by the three tiers: exact hit, single-field mask hit, literal |
| Codewords.TierMeaning | src/CodeCompressor/lib/utils.h:123-160 | the exact tier is chosen only for a table entry, the mask tier only for the first single-field match of a command not in the table, the literal tier only when neither exists |
| Codewords.EmitExactHit | src/CodeCompressor/lib/utils.h:123-127 | `11` followed by the index |
| Codewords.EmitMaskHit | src/CodeCompressor/lib/utils.h:137-143 | `10`, the position, the mask bits and the entry index, in that order |
| Codewords.EmitLiteral | src/CodeCompressor/lib/utils.h:149-154 | `0` followed by the command bits |
| Codewords.ReadValue | src/CodeCompressor/lib/utils.h:209-217 | the number stored in bits `start..start+k` |
| Codewords.ReadLiteral | src/CodeCompressor/lib/utils.h:235-242 | a fresh command holding exactly bits `start..start+n` of the section |
| Codewords.ApplyMask | src/CodeCompressor/lib/utils.h:221-225 | the `setbit` loop overwrites the bits from `start` with the mask and keeps every other bit |
| Codewords.RestoreBlockDict | src/CodeCompressor/lib/utils.h:247-269 | decodes exactly what the reference dictionary decoder decodes, and fails exactly when it does |
| Codewords.RestoreIndexed | src/CodeCompressor/lib/utils.h:252-258 | reads an index and returns that entry, failing when the stream is short or the index is past the table |
| Codewords.RestoreLiteral | src/CodeCompressor/lib/utils.h:259-266 | reads a literal of the table's width, failing when the stream is short |
| Codewords.RestoreBlockMask | src/CodeCompressor/lib/utils.h:199-245 | decodes exactly what the reference mask decoder decodes, and fails exactly when it does |
| Codewords.RestoreMasked | src/CodeCompressor/lib/utils.h:207-226 | reads position, mask and index, and returns the entry with that field overwritten |
| Codewords.MaskedEntry | src/CodeCompressor/lib/utils.h:220-225 | the copied entry with bits `start..` overwritten by the mask read from the section |
| Codewords.DictRoundTrip | src/CodeCompressor/lib/utils.h:165-197 | decoding a dictionary codeword placed between any bits gives the command back and moves past the codeword |
| Codewords.DictRoundTripAt | src/CodeCompressor/lib/utils.h:247-269 | wherever the codeword sits in a stream, the decoder restores the command and ends right after it |
| Codewords.MaskRoundTrip | src/CodeCompressor/lib/utils.h:113-163 | decoding a mask codeword placed between any bits gives the command back and moves past the codeword |
| Codewords.MaskRoundTripAt | src/CodeCompressor/lib/utils.h:199-245 | wherever the codeword sits in a stream, the decoder restores the command and ends right after it |
| Codewords.MaskBranch | src/CodeCompressor/lib/utils.h:137-148 | a mask hit's index and position fit their widths, and overwriting the entry's field gives the command |
| Schemes.SchemeOf | src/CodeCompressor/lib/config.h:5-13 | the six scheme numbers 0..5 name a scheme and map back to that number; any other number names none |
| Schemes.TagRoundTrip | src/CodeCompressor/lib/config.h:5-13 | every scheme's number is below 6 and names that scheme |
| Schemes.FieldsWidthProduct | src/CodeCompressor/lib/utils.cpp:34-48 | the mask fields of every format tile the part: 2^posSize fields of maskSize bits |
| Schemes.Parts | src/CodeCompressor/lib/utils.cpp:335-473 | each scheme cuts a 32-bit command into its parts, each of its format's width |
| Schemes.AssembleParts | src/CodeCompressor/lib/utils.cpp:545-620 | gluing a command's parts back in the scheme's order gives the command |
| Schemes.CodewordRoundTrip | src/CodeCompressor/lib/utils.h:113-269 | a part's codeword, anywhere in a stream, decodes to the part and ends right after it |
| Schemes.CommandRoundTrip | src/CodeCompressor/lib/utils.cpp:284-620 | one command's codewords, anywhere in a stream, decode to the command and end right after them |
| Schemes.SectionRoundTrip | src/CodeCompressor/lib/utils.cpp:284-620 | decoding the encoded section from bit 0 gives back exactly the command list |
| Sections.EncodeSectionDictionary | src/CodeCompressor/lib/utils.cpp:284-306 | the section bits are the dictionary codewords of the commands, in order |
| Sections.EncodeSectionMaskSingle | src/CodeCompressor/lib/utils.cpp:309-332 | the section bits are the whole-command mask codewords, in order |
| Sections.EncodeSectionMaskDuo | src/CodeCompressor/lib/utils.cpp:335-365 | the section bits are the codewords of each command's two halves, in order |
| Sections.EncodeSectionMaskQuad | src/CodeCompressor/lib/utils.cpp:368-406 | the section bits are the codewords of each command's four bytes, in order |
| Sections.EncodeSectionMaskDuoQuad | src/CodeCompressor/lib/utils.cpp:409-443 | the section bits are the codewords of the low half and the two high bytes, in order |
| Sections.EncodeSectionOperandsOpcode | src/CodeCompressor/lib/utils.cpp:446-473 | the section bits are the codewords of the 24 operand bits, then the 8 opcode bits, per command |
| Sections.RestoreSectionDictionary | src/CodeCompressor/lib/utils.cpp:511-526 | succeeds exactly when the reference section decoder does, and then returns its commands |
| Sections.RestoreSectionMaskSingle | src/CodeCompressor/lib/utils.cpp:529-542 | succeeds exactly when the reference section decoder does, and then returns its commands |
| Sections.RestoreSectionMaskDuo | src/CodeCompressor/lib/utils.cpp:545-562 | succeeds exactly when the reference section decoder does, and then returns its commands |
| Sections.RestoreSectionMaskQuad | src/CodeCompressor/lib/utils.cpp:565-583 | succeeds exactly when the reference section decoder does, and then returns its commands |
| Sections.RestoreSectionMaskDuoQuad | src/CodeCompressor/lib/utils.cpp:586-602 | succeeds exactly when the reference section decoder does, and then returns its commands |
| Sections.RestoreSectionOperandsOpcode | src/CodeCompressor/lib/utils.cpp:605-620 | succeeds exactly when the reference section decoder does, and then returns its commands |
| Sections.AppendDictionary | src/CodeCompressor/lib/utils.cpp:292-303 | the loop body appends exactly one command's dictionary codeword |
| Sections.AppendMaskDuo | src/CodeCompressor/lib/utils.cpp:346-362 | the loop body appends the codewords of both halves |
| Sections.AppendMaskQuad | src/CodeCompressor/lib/utils.cpp:383-403 | the loop body appends the codewords of all four bytes |
| Sections.AppendOperandsOpcode | src/CodeCompressor/lib/utils.cpp:456-470 | the loop body appends the operand codeword, then the opcode codeword |
| Sections.ReadMaskQuad | src/CodeCompressor/lib/utils.cpp:569-580 | one step of the restore loop decodes exactly what the reference command decoder does |
| Sections.ReadOperandsOpcode | src/CodeCompressor/lib/utils.cpp:609-617 | the opcode byte goes in front of the operand bits, as the reference decoder does |
| Sections.Halve | src/CodeCompressor/lib/command.cpp:13-16 | the two halves of the command |
| Sections.Cut | src/CodeCompressor/lib/command.cpp:8-11 | the first `fbits` bits and the rest |
| Partitions.Column | src/CodeCompressor/lib/utils.cpp:176-258 | the column holds part `k` of every command, each of the format's width |
| Partitions.MakeTablesDictionary | src/CodeCompressor/lib/utils.cpp:765-781 | a frequency table over the whole commands that fits the dictionary scheme |
| Partitions.MakeTablesMaskSingle | src/CodeCompressor/lib/utils.cpp:170-173 | a frequency table over the whole commands that fits the mask-single scheme |
| Partitions.MakeTablesMaskDuo | src/CodeCompressor/lib/utils.cpp:176-192 | frequency tables over the low and the high halves |
| Partitions.MakeTablesMaskQuad | src/CodeCompressor/lib/utils.cpp:195-217 | frequency tables over each of the four bytes |
| Partitions.MakeTablesMaskDuoQuad | src/CodeCompressor/lib/utils.cpp:220-239 | frequency tables over the low half and the two high bytes |
| Partitions.MakeTablesOperandsOpcode | src/CodeCompressor/lib/utils.cpp:242-258 | frequency tables over the operand bits and the opcode byte |
| Partitions.Quarters | src/CodeCompressor/lib/utils.cpp:195-217 | the four bytes of the command, low first |
| Partitions.BuiltTablesFit | src/CodeCompressor/lib/utils.cpp:170-258 | tables built for a scheme have its command lengths and index sizes |
| Framing.Chunks | src/CodeCompressor/lib/utils.cpp:127-146 | every command has `8*n` bits |
| Framing.JoinOfChunks | src/CodeCompressor/lib/utils.cpp:127-146 | joining the commands cut from the section gives back its bytes |
| Framing.ChunksOfJoin | src/CodeCompressor/lib/utils.cpp:691-702 | cutting the joined bytes of whole commands gives back the commands |
| Framing.SliceWords | src/CodeCompressor/lib/utils.cpp:138-143 | the loop cuts the bytes into consecutive `cmdLen`-byte commands |
| Framing.GetCommands | src/CodeCompressor/lib/utils.cpp:127-146 | fails exactly when the size is not a multiple of the command length; otherwise the commands joined give back the section |
| Framing.Padding | src/CodeCompressor/lib/utils.cpp:646 | the count of unused bits is below 8 and fills the last byte |
| Framing.HeaderFields | src/CodeCompressor/lib/utils.cpp:643-659 | the top three bits of the header byte hold the padding and the low five the scheme |
| Framing.HeaderOfFields | src/CodeCompressor/lib/utils.cpp:148-166 | every byte is the header of its own two fields |
| Framing.Frame | src/CodeCompressor/lib/utils.cpp:643-659 | a framed section is one header byte plus the packed bits |
| Framing.Unframe | src/CodeCompressor/lib/utils.cpp:148-166 | fails exactly when the section is empty or claims more padding than it has bits; the tag is below 32 and the bits fill all but the last padding |
| Framing.FrameRoundTrip | src/CodeCompressor/lib/utils.cpp:643-659 | reading a framed section gives back its bits and scheme number |
| Framing.UnframeRoundTrip | src/CodeCompressor/lib/utils.cpp:148-166 | a readable section whose padding bits are zero is rebuilt exactly by framing what was read |
| Framing.ModifyCodeSection | src/CodeCompressor/lib/utils.cpp:643-659 | the written section is the frame of the buffer's bits under the scheme number |
| Framing.GetCompressedSection | src/CodeCompressor/lib/utils.cpp:148-166 | succeeds exactly when the section can be read, and then returns its bits and scheme number |
| Framing.FormInstDictData | src/CodeCompressor/lib/utils.cpp:691-702 | the dictionary bytes are the entries' bytes, in table order |
| Framing.ParseDictionary | src/CodeCompressor/lib/utils.cpp:716-736 | a missing section or a length not a multiple of the command length is an error; on success the table is a valid permutation of the section's commands |
| Framing.ReadInstrDictionary | src/CodeCompressor/lib/utils.cpp:716-736 | the loop produces exactly the parsed dictionary |
| Framing.DictionaryRoundTrip | src/CodeCompressor/lib/utils.cpp:691-736 | reading back the bytes written for a valid table gives that table |
| Executable.DictNamesDistinct | src/CodeCompressor/lib/utils.cpp:765-867 | the dictionary section names of a scheme are pairwise different |
| Executable.ReadDictRoundTrip | src/CodeCompressor/lib/utils.cpp:705-736 | a dictionary stored under its name is read back as the same table |
| Executable.ReadTablesRoundTrip | src/CodeCompressor/lib/utils.cpp:913-980 | the dictionaries written for a scheme are read back as the same tables |
| Executable.CompressSection | src/CodeCompressor/lib/utils.cpp:1094-1114 | builds the scheme's tables from the commands and encodes the section with them |
| Executable.WriteDictionaries | src/CodeCompressor/lib/utils.cpp:765-867 | every table is stored under its scheme's section name |
| Executable.CompressExecutable | src/CodeCompressor/lib/utils.cpp:1081-1117 | fails with a length error when the text is not whole commands and with an unsupported-scheme error for a scheme number of 6 or more; otherwise the framed encoded section decompresses back to the text |
| Executable.ExecutableRoundTrip | src/CodeCompressor/lib/utils.cpp:1081-1153 | decompressing the framed section with the written dictionaries gives back the original text bytes |
| Executable.DecompressSection | src/CodeCompressor/lib/utils.cpp:1131-1150 | the dispatch restores with the scheme's own tables |
| Executable.DecompressDictionary | src/CodeCompressor/lib/utils.cpp:913-921 | reads `.dict` and restores the section with it |
| Executable.DecompressMaskSingle | src/CodeCompressor/lib/utils.cpp:923-931 | reads the mask-single dictionary and restores the section with it |
| Executable.DecompressMaskDuo | src/CodeCompressor/lib/utils.cpp:933-942 | reads both half dictionaries and restores the section with them |
| Executable.DecompressMaskQuad | src/CodeCompressor/lib/utils.cpp:944-955 | reads the four byte dictionaries and restores the section with them |
| Executable.DecompressMaskDuoQuad | src/CodeCompressor/lib/utils.cpp:957-968 | reads the half and two byte dictionaries and restores the section with them |
| Executable.DecompressOperandsOpcode | src/CodeCompressor/lib/utils.cpp:970-980 | reads the operand and opcode dictionaries and restores the section with them |
| Executable.DecompressExecutable | src/CodeCompressor/lib/utils.cpp:1119-1153 | the header, dictionaries and codewords are read as the reference decompression does, with the same errors |
| CodecVectors.TestTableBuilt | src/CodeCompressor/tests/core_unit_tests.cpp:379-388 | the table built from 0xfffd and 0xfffb with a 1-bit index holds 0xfffb at index 0 and 0xfffd at index 1 |
| CodecVectors.FindMaskHighNibble | src/CodeCompressor/tests/core_unit_tests.cpp:295-315 | over the table of 0xffff with four 4-bit fields, 0xafff matches entry 0 at position 3 with the mask 0xa |
| CodecVectors.FindMaskLowNibble | src/CodeCompressor/tests/core_unit_tests.cpp:317-337 | 0xffaf matches entry 0 at position 1 with the mask 0xa |
| CodecVectors.FindMaskEqual | src/CodeCompressor/tests/core_unit_tests.cpp:281-293 | 0xffff itself differs in no field, so no mask is found |
| CodecVectors.FindMaskTwoNibbles | src/CodeCompressor/tests/core_unit_tests.cpp:339-353 | 0xafaf differs in two fields, so no mask is found |
| CodecVectors.MaskLiteral | src/CodeCompressor/tests/core_unit_tests.cpp:379-398 | with two position bits and 4-bit masks, 0xaaaa is written as the 17 bits of 0x15554 |
| CodecVectors.MaskExactHit | src/CodeCompressor/tests/core_unit_tests.cpp:400-419 | 0xfffd is written as the 3 bits `111` |
| CodecVectors.MaskFieldHit | src/CodeCompressor/tests/core_unit_tests.cpp:421-440 | 0xffff is written as the 9 bits of 0xf1: tier `10`, position 0, mask 0xf, index 0 |
| CodecVectors.DictionaryLiteral | src/CodeCompressor/tests/core_unit_tests.cpp:442-461 | in the dictionary scheme 0xffff is written as the 17 bits of 0x1fffe |
| CodecVectors.DictionaryHit | src/CodeCompressor/tests/core_unit_tests.cpp:463-480 | in the dictionary scheme 0xfffd is written as the 2 bits `11` |
| CodecVectors.RestoreMaskLiteral | src/CodeCompressor/tests/core_unit_tests.cpp:483-506 | the 17 bits of 0x15554 decode to 0xaaaa and consume all 17 bits |
| CodecVectors.RestoreMaskExact | src/CodeCompressor/tests/core_unit_tests.cpp:508-531 | the 3 bits `111` decode to 0xfffd |
| CodecVectors.RestoreMaskField | src/CodeCompressor/tests/core_unit_tests.cpp:533-556 | the 9 bits of 0xf1 decode to 0xffff |
| CodecVectors.RestoreMaskFieldShort | src/CodeCompressor/tests/core_unit_tests.cpp:533-556 | the 8 bits of 0xf1, as the test writes them, end before the index bit and decode to nothing |
| CodecVectors.RestoreDictionaryLiteral | src/CodeCompressor/tests/core_unit_tests.cpp:558-581 | the 17 bits of 0x1fffe decode to 0xffff |
| CodecVectors.RestoreDictionaryHit | src/CodeCompressor/tests/core_unit_tests.cpp:583-603 | the 2 bits `11` decode to 0xfffd |

## Left out

- ELF plumbing is not part of this model: loading and saving the file (`build_exec_file`), `get_section_with_name`, adding sections, and `restore_code_section`'s rewrite of the `.text` section. A section is a byte sequence, and the dictionaries are a map from section name to bytes.
- A duplicate section name, and a missing `.text` section, are not modelled, because sections are looked up in a map.
- `write_instr_dictionary` is modelled only by the bytes it writes (`FormInstDictData`), and `write_addr_dictionary` is left out, because both are ELF section creation.
- The RV64 path is left out: `riscv64ci_get_commands`, the `mask_duo_p` encoder and restorer, and the RV64 compress and decompress drivers.
- `size_stat` accounting, `update_counters` under `BENCH_COVERAGE`, `entab_to_string` and the `dict_infos` strings are left out, because they are statistics and printing only.
- `compress_executable` and `decompress_executable` dispatch on the ELF machine field, and that check is left out. The model starts at the RV32I functions.
- Exceptions become `Result` errors or `false` results, and a thrown `runtime_error` message is reduced to an error kind.
- BitBuffer.DynBitset.ToSizeT: the source accumulates into a `size_t`, so more than 64 bits wrap around. The model returns the unbounded number; every caller reads at most 32 bits.
- Framing.ParseDictionary: the source reads past the end of a section whose length is not a multiple of the command length. The model returns `MalformedDictionary` instead.
- Framing.GetCompressedSection: the source underflows on an empty section and reads beyond the data when the padding exceeds the payload. The model returns `MalformedSection` instead.
- Codewords.RestoreBlockMask and Codewords.RestoreBlockDict: the source reads past the end of a truncated stream, or indexes past the table. The model fails on both. The unit test at src/CodeCompressor/tests/core_unit_tests.cpp:533-556 decodes a 9-bit mask codeword from an 8-bit buffer; the model rejects that input (CodecVectors.RestoreMaskFieldShort) and decodes the 9-bit codeword (CodecVectors.RestoreMaskField).
- DictionaryBuilder.MakeEncodeTable: `std::sort` does not fix the order among commands of equal count. The model states only that no left-out command is more frequent than a chosen one, not which of the tied commands is chosen.
- `dynbitset::to_size_t` gives bit `i` the weight 2^i. The model follows that code, not a most-significant-bit-first reading.
