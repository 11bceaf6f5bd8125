# gnwmanager, modelled in Dafny

gnwmanager flashes and manages a Game & Watch console through a debug probe. The host
tool writes commands into two fixed "work contexts" in the device's RAM. It fills in
every field of a context and writes the submission counter into `ready` last. The
firmware on the console claims the context whose `ready` equals its own counter. It then
skips work that flash already holds, erases, decompresses, checks SHA-256 digests in RAM
and in flash, and programs the data page by page. Around that protocol sit small pure
pieces: a ROM file-system table with a best-fit allocator and a defragmenter, an LZ77
decoder, an integer and size parser, offset validators, rounding helpers, chunking and
padding, and the XOR payload used to unlock a device.

The project models:

- the host side of the protocol as the current tool (`gnwmanager/gnw.py`, modules
  `MemoryMap`, `HostProtocol` and `Host`), the target mixin (`gnwmanager/target.py`,
  module `Target`) and the legacy single-file tool (`gnwmanager.py`, module `Legacy`);
- the LittleFS block device of both tools (modules `Filesystem` and `LegacyLfs`);
- the device-side state machines of `Core/Src/gnwmanager.c` (module `FwGnwmanager`) and
  of the legacy `Core/Src/flashapp.c` (module `FwFlashapp`);
- the self-contained logic: `romfs.py` (modules `RomFsCodec`, `SubsetSum` and `RomFs`),
  `compression.py` (`Lz77`), `_parsers.py` (`Parsers`), `validation.py` (`Validation`),
  `gnw_patch/utils.py` (`PatchUtils`), `cli/flash.py` and `cli/_flash.py` (`CliFlash`),
  and `devices.py` (`Devices`). Shared byte, word and slice helpers are in `Common`.

Objects that the source updates in place are classes:

- the `GnW` tool and its transport;
- the target mixin;
- the legacy tool's module state;
- both LittleFS drivers;
- `RomFS`;
- both firmware state machines.

Each method is proved against a function of the old state. The properties are proved
about those functions. The transport is a log of the reads and writes the tool
performs, plus a script of the words and blocks the device answers with. A script that
runs out stands for an I/O failure. A poll budget ("polls") stands for the deadlines of
the polling loops. SHA-256, SHA-1, LZMA and the flash chip are function parameters.

## Model

| member | source | states |
|---|---|---|
| Common.Slice | gnwmanager/cli/devices.py:82 | Python's `s[a:b]`: length clipped to the data, each byte taken from `a` on |
| Common.SliceAssign | gnwmanager/cli/devices.py:116 | slice assignment keeps the bytes before and after the window and puts `v` in it |
| Common.SliceAssignInPlace | gnwmanager/cli/devices.py:116 | a window filled exactly keeps the length and changes only the window |
| Common.PackU32 | gnwmanager/romfs.py:128 | `struct.pack("<I")` succeeds exactly on 0..2^32-1 and gives four bytes |
| Common.UnpackU32 | gnwmanager/romfs.py:118 | `struct.unpack_from("<I")` succeeds exactly when four bytes remain |
| Common.PackUnpackU32 | gnwmanager/romfs.py:118-128 | unpacking a packed word gives it back, whatever follows |
| Common.PackUnpackU32At | gnwmanager/romfs.py:152-167 | a packed word reads back at its own position, whatever surrounds it |
| Common.UnpackU32Shift | gnwmanager/romfs.py:152 | unpacking at an offset reads only the bytes from that offset |
| Common.ChunksFlatten | gnwmanager/cli/flash.py:14-15 | gluing the chunks back together gives the data |
| Common.ChunksBounded | gnwmanager/cli/flash.py:14-15 | there are ceil(len/n) chunks, none empty, none longer than n |
| Common.ChunkAt | gnwmanager/cli/flash.py:14-15 | chunk k is `data[k*n:(k+1)*n]`, clipped at the end |
| Validation.ValidateExtflashOffset | gnwmanager/validation.py:1-5 | passes exactly for offsets below 0x9000_0000 that are multiples of 4096; ValueError otherwise |
| Validation.ValidateIntflashOffset | gnwmanager/validation.py:8-14 | passes exactly for offsets below 0x8000_0000 that are multiples of 8192; ValueError otherwise |
| Validation.IntflashOffsetIsExtflashOffset | gnwmanager/validation.py:1-14 | every offset the internal check accepts, the external check accepts too |
| PatchUtils.RoundDown | gnwmanager/cli/gnw_patch/utils.py:3-4 | the result is the multiple of m in (val-m, val] |
| PatchUtils.RoundUp | gnwmanager/cli/gnw_patch/utils.py:7-8 | the result is the multiple of m in [val, val+m) |
| PatchUtils.RoundDownWord | gnwmanager/cli/gnw_patch/utils.py:3-4 | a multiple of 4 in (val-4, val] |
| PatchUtils.RoundUpWord | gnwmanager/cli/gnw_patch/utils.py:7-8 | a multiple of 4 in [val, val+4) |
| PatchUtils.RoundDownPage | gnwmanager/cli/gnw_patch/utils.py:11-12 | a multiple of 4096 in (val-4096, val] |
| PatchUtils.RoundUpPage | gnwmanager/cli/gnw_patch/utils.py:15-16 | a multiple of 4096 in [val, val+4096) |
| PatchUtils.MultipleInWindow | gnwmanager/cli/gnw_patch/utils.py:3-4 | there is only one multiple of m in (val-m, val], so rounding down is determined |
| PatchUtils.RoundingAgree | gnwmanager/cli/gnw_patch/utils.py:3-8 | rounding down and rounding up agree exactly on multiples of m |
| PatchUtils.RoundingAdjacent | gnwmanager/cli/gnw_patch/utils.py:3-8 | away from a multiple, rounding up is rounding down plus m |
| PatchUtils.RoundingIdempotent | gnwmanager/cli/gnw_patch/utils.py:3-8 | rounding a rounded value again changes nothing, in either direction |
| PatchUtils.SecondsToFrames | gnwmanager/cli/gnw_patch/utils.py:19-20 | whole seconds give exactly 60 frames each |
| Parsers.Lower | gnwmanager/cli/_parsers.py:16 | `lower()` keeps the length, leaves no ASCII capital, turns each capital into its lower-case letter and keeps every other character |
| Parsers.LowerIdempotent | gnwmanager/cli/_parsers.py:16 | lower-casing twice is lower-casing once |
| Parsers.FindSuffix | gnwmanager/cli/_parsers.py:26-27 | a found suffix is in the table and ends the string |
| Parsers.FindSuffixFinds | gnwmanager/cli/_parsers.py:26-27 | the loop picks the first suffix of the table that ends the string |
| Parsers.FindSuffixMisses | gnwmanager/cli/_parsers.py:26-27 | when no suffix ends the string, the loop finds none |
| Parsers.StripUnits | gnwmanager/cli/_parsers.py:32-35 | a trailing `b`, then a trailing `hz`, is removed, and nothing else |
| Parsers.Decimal | gnwmanager/cli/_parsers.py:38 | `str(n)` is a non-empty digit string ending in the last decimal digit |
| Parsers.Hex | gnwmanager/cli/_parsers.py:19-21 | the hexadecimal rendering is a non-empty digit string ending in the last hex digit |
| Parsers.DecimalValue | gnwmanager/cli/_parsers.py:38 | the digits of `str(n)` have the value n |
| Parsers.HexValue | gnwmanager/cli/_parsers.py:38 | the hex digits of n have the value n |
| Parsers.DigitStringFacts | gnwmanager/cli/_parsers.py:16-38 | a digit string is already lower case, has no `0x` and no `hz`, and `int` gives its value |
| Parsers.SuffixShapes | gnwmanager/cli/_parsers.py:2-12 | every suffix is 2 or 3 lower-case letters whose second-to-last is no hex digit |
| Parsers.NoSuffixOnDigits | gnwmanager/cli/_parsers.py:26-29 | a digit string matches no suffix of the table |
| Parsers.DecimalRoundTrip | gnwmanager/cli/_parsers.py:15-38 | `int_parser(str(n)) == n` for every natural n |
| Parsers.SuffixesDistinct | gnwmanager/cli/_parsers.py:2-12 | no suffix of the table ends a later one, so table order never hides a match |
| Parsers.FirstSuffix | gnwmanager/cli/_parsers.py:26-27 | a number followed by suffix k finds suffix k |
| Parsers.ParseBodySuffix | gnwmanager/cli/_parsers.py:26-29 | a number part with value v and suffix k gives v times k's multiplier |
| Parsers.DecimalWithSuffixShape | gnwmanager/cli/_parsers.py:16-19 | a decimal number with a suffix is lower case and has no `0x` |
| Parsers.SuffixScales | gnwmanager/cli/_parsers.py:15-38 | `int_parser(str(n) + suffix)` is n times that suffix's multiplier |
| Parsers.HexParse | gnwmanager/cli/_parsers.py:15-38 | `int_parser("0x" + hex(n))` is n unless the last hex digit is `b`: then it is n // 16, or a ValueError for `0xb` |
| Parsers.HexStripUnits | gnwmanager/cli/_parsers.py:32-35 | unit stripping removes the last hex digit exactly when it is `b` |
| Parsers.NoHzOnDigits | gnwmanager/cli/_parsers.py:34 | a digit string never ends in `hz` |
| Parsers.HexByteSuffixQuirk | gnwmanager/cli/_parsers.py:32-33 | `0x1b` parses to 1 and `0xab` to 10 |
| CliFlash.PadTo | gnwmanager/cli/flash.py:18-22 | the result is a multiple of n long, shorter than data+n, starts with the data, rest 0xFF, and is the data itself when already aligned |
| CliFlash.PadSizeFits | gnwmanager/cli/flash.py:19 | `(n - len % n) % n` tops the length up to the next multiple of n |
| CliFlash.PadBytes | gnwmanager/cli/flash.py:18-22 | padding to 8192 bytes keeps the data as prefix and ends on a multiple of 8192 |
| CliFlash.PadIdempotent | gnwmanager/cli/flash.py:18-22 | padding padded data changes nothing |
| CliFlash.PadShortest | gnwmanager/cli/flash.py:18-22 | every aligned extension of the data is at least as long as the padding |
| CliFlash.Classify | gnwmanager/cli/_flash.py:41-56 | an accepted destination is bank 0, 1 or 2, base plus offset is the address, progress exactly for bank 0; otherwise ValueError |
| CliFlash.ClassifyInverse | gnwmanager/cli/_flash.py:41-56 | every address of a bank classifies back to that bank and offset |
| CliFlash.ClassifyRefuses | gnwmanager/cli/_flash.py:55-56 | an address below external flash and outside both banks is refused |
| CliFlash.CliDestination | gnwmanager/cli/flash.py:54-74 | names choose a bank with the offset, `ext` means the external path, addresses must fall in a bank; ValueError otherwise |
| CliFlash.CliDestinationAgreesOnBanks | gnwmanager/cli/flash.py:69-74 | on bank addresses the two flash commands accept the same addresses and give the same bank and offset |
| CliFlash.MakePackets | gnwmanager/cli/flash.py:95 | packet i carries chunk i at offset + i * chunk size |
| CliFlash.FilterChanged | gnwmanager/cli/flash.py:98 | the kept packets are at most as many as the pairs of the zip |
| CliFlash.FilterChangedMember | gnwmanager/cli/flash.py:98 | a packet is kept exactly when it is paired with a device hash that differs from its own hash |
| CliFlash.FilterChangedOrdered | gnwmanager/cli/flash.py:98 | the kept packets are a subsequence of the packets, in order |
| CliFlash.FilterUnchangedIsEmpty | gnwmanager/cli/flash.py:98 | when the device already holds every chunk nothing is uploaded |
| Devices.Xor | gnwmanager/cli/devices.py:31-32 | `_xor` is as long as the shorter input and XORs byte by byte |
| Devices.BitXorTwice | gnwmanager/cli/devices.py:31-32 | XOR with the same value twice gives the value back |
| Devices.BitXorCommutes | gnwmanager/cli/devices.py:31-32 | XOR is commutative |
| Devices.XorByteFacts | gnwmanager/cli/devices.py:31-32 | byte XOR undoes itself and commutes |
| Devices.XorTwice | gnwmanager/cli/devices.py:31-32 | XOR-ing twice with a key at least as long gives the data back |
| Devices.ValidateItcm | gnwmanager/cli/devices.py:62-67 | passes exactly when the SHA-1 of the ITCM image is the model's, else HashMismatchError with both hashes |
| Devices.ValidateExternalFlash | gnwmanager/cli/devices.py:80-86 | passes exactly when the SHA-1 of `data[start:end]` is the model's |
| Devices.ValidateInternalFlash | gnwmanager/cli/devices.py:102-107 | passes exactly when the SHA-1 of the whole dump is the model's |
| Devices.CreateEncryptedPayload | gnwmanager/cli/devices.py:109-117 | succeeds exactly when both images validate; the ITCM failure is reported first |
| Devices.EncryptedPayloadLayout | gnwmanager/cli/devices.py:112-117 | the output keeps the length, holds payload XOR itcm XOR extflash in the window and the old bytes elsewhere |
| Devices.EncryptedPayloadDecrypts | gnwmanager/cli/devices.py:114-116 | XOR-ing the window with the same key gives the payload back |
| Lz77.SplitOpcode | gnwmanager/cli/gnw_patch/compression.py:52-54 | the direct, offset and pattern fields are below 4, 4 and 16 |
| Lz77.SplitOpcodeJoins | gnwmanager/cli/gnw_patch/compression.py:52-54 | the three fields put back together give the opcode byte |
| Lz77.SplitOpcodeUnique | gnwmanager/cli/gnw_patch/compression.py:52-54 | the fields of an opcode are determined by its bits |
| Lz77.ReadHeader | gnwmanager/cli/gnw_patch/compression.py:48-65 | the opcode bytes are consumed within the data; running past the end raises IndexError |
| Lz77.ReadOffset | gnwmanager/cli/gnw_patch/compression.py:74-81 | one or two offset bytes are consumed and the offset is below 0x10000; IndexError past the end |
| Lz77.PatternCopy | gnwmanager/cli/gnw_patch/compression.py:85-86 | the copy appends exactly n bytes after the old output, or raises IndexError for a reference before the start |
| Lz77.Step | gnwmanager/cli/gnw_patch/compression.py:47-86 | one opcode moves the index forward within the data and only appends to the output |
| Lz77.Decode | gnwmanager/cli/gnw_patch/compression.py:47-88 | decoding only appends to what was produced so far |
| Lz77.CopyLiterals | gnwmanager/cli/gnw_patch/compression.py:68-70 | the loop appends the next literals, or raises IndexError exactly when they run past the end |
| Lz77.CopyPattern | gnwmanager/cli/gnw_patch/compression.py:85-86 | the loop computes the specification `PatternCopy` |
| Lz77.ReadOpcode | gnwmanager/cli/gnw_patch/compression.py:48-65 | the parsing computes the specification `ReadHeader` |
| Lz77.ReadPatternOffset | gnwmanager/cli/gnw_patch/compression.py:74-81 | the parsing computes the specification `ReadOffset` |
| Lz77.Decompress | gnwmanager/cli/gnw_patch/compression.py:21-88 | the decoder's result is the specification `Decode` of the whole input |
| Lz77.DecodeUnfold | gnwmanager/cli/gnw_patch/compression.py:47-86 | one turn of the loop is one `Step` |
| Lz77.LiteralStep | gnwmanager/cli/gnw_patch/compression.py:52-70 | a literal-only opcode anywhere in the input decodes to its bytes and stops after them |
| Lz77.LiteralsFirstRun | gnwmanager/cli/gnw_patch/compression.py:47-70 | the first run of a literal-only encoding yields its bytes and leaves the encoding of the rest |
| Lz77.LiteralsDecode | gnwmanager/cli/gnw_patch/compression.py:47-88 | a literal-only encoding decodes to its input wherever it sits |
| Lz77.LiteralsEnd | gnwmanager/cli/gnw_patch/compression.py:47 | the loop stops at the end of the data |
| Lz77.LiteralRoundTrip | gnwmanager/cli/gnw_patch/compression.py:21-88 | decoding the literal-only encoding of any bytes gives those bytes |
| Lz77.PatternRepeatsLast | gnwmanager/cli/gnw_patch/compression.py:85-86 | a back-reference at distance one repeats the last byte |
| MemoryMap.PopulateComm | gnwmanager/gnw.py:33-65 | every status variable and every field of both contexts is placed exactly where the firmware's struct puts it |
| MemoryMap.PopulateContext | gnwmanager/gnw.py:44-59 | the fields of context i are laid end to end from `flashapp_comm + (i+1)*1024`, matching the firmware struct |
| MemoryMap.FieldIndex | Core/Src/gnwmanager.c:38-82 | every struct field has a position in declaration order |
| MemoryMap.ContextFieldsAdjacent | gnwmanager/gnw.py:47-59 | each field starts where the previous ends, and `ready` ends inside the 1024-byte context |
| MemoryMap.FieldsApart | Core/Src/gnwmanager.c:38-82 | distinct fields of one context do not overlap |
| MemoryMap.ContextVarsApart | Core/Src/gnwmanager.c:84-124 | no two distinct context fields, buffers included, share a byte |
| MemoryMap.ContextVarPlaced | Core/Src/gnwmanager.c:84-124 | every context field lies in `flashapp_comm`, apart from the status words and the active context |
| MemoryMap.FieldEnd | Core/Src/gnwmanager.c:38-82 | the struct fields end within the first 72 bytes |
| MemoryMap.CommLayout | gnwmanager/gnw.py:26-65 | the framebuffer ends where `flashapp_comm` starts, the status words fit its first KiB, and the two buffers follow the active context |
| MemoryMap.WordAt | Core/Src/gnwmanager.c:38-82 | the word field found at an offset starts there, and it is the only one that does |
| MemoryMap.PokeField | Core/Src/gnwmanager.c:38-82 | a host write to a word field's address sets exactly that field |
| MemoryMap.PokeOutside | Core/Src/gnwmanager.c:84-124 | a host write outside a context's struct leaves that context unchanged |
| RomFsCodec.RoundUp4 | gnwmanager/romfs.py:93-94 | the next multiple of four at or above the value (the intended rounding; see Findings) |
| RomFsCodec.RoundUp4AsWrittenShrinks | gnwmanager/romfs.py:93-101 | the rounding as written maps 5 to 0, never exceeds its input, and leaves `_pad_4` a no-op |
| RomFsCodec.Pad4 | gnwmanager/romfs.py:97-101 | zeros are appended up to the next multiple of four, the data kept as prefix |
| RomFsCodec.HeaderToBytes | gnwmanager/romfs.py:126-128 | packs to 12 bytes exactly when the count fits 24 bits and the words fit 32 bits; `struct.error` otherwise |
| RomFsCodec.HeaderFromBytes | gnwmanager/romfs.py:116-124 | a decoded header has a 24-bit count and 32-bit words; fewer than 12 bytes raise `struct.error` |
| RomFsCodec.HeaderRoundTrip | gnwmanager/romfs.py:116-128 | a header whose fields fit reads back unchanged, whatever follows it |
| RomFsCodec.HeaderVersionChecked | gnwmanager/romfs.py:120-121 | a version byte other than 1 fails the assertion |
| RomFsCodec.CheckHash | gnwmanager/romfs.py:141-143 | the validator passes exactly on four bytes; an integer hash raises TypeError |
| RomFsCodec.NewEntry | gnwmanager/romfs.py:134-143 | an entry is built exactly when its hash passes the validator |
| RomFsCodec.PackValue | gnwmanager/romfs.py:167 | `struct` packs an `I` only from an integer in range |
| RomFsCodec.PackWords | gnwmanager/romfs.py:167 | `struct` packs several words exactly when each one packs |
| RomFsCodec.EntryCodecAsWrittenFails | gnwmanager/romfs.py:150-167 | as written, neither `Entry.to_bytes` nor `Entry.from_bytes` succeeds on any input |
| RomFsCodec.EntryToBytes | gnwmanager/romfs.py:164-167 | the intended encoding succeeds exactly when offset and size fit 32 bits, and its length is a multiple of four |
| RomFsCodec.NameEnd | gnwmanager/romfs.py:156-158 | the scan stops at the first zero byte from the start, or at the end |
| RomFsCodec.EntryFromBytes | gnwmanager/romfs.py:150-162 | the intended decoding succeeds exactly when 12 bytes remain; the name has no zero byte |
| RomFsCodec.ScanName | gnwmanager/romfs.py:156-158 | the scanning loop computes `NameEnd` |
| RomFsCodec.DecodeEntry | gnwmanager/romfs.py:150-162 | the decoding method computes the specification `EntryFromBytes` |
| RomFsCodec.NameEndAfter | gnwmanager/romfs.py:156-158 | the terminator right after a name free of zeros is the one found |
| RomFsCodec.EntryRoundTrip | gnwmanager/romfs.py:150-167 | a valid entry whose name has no zero byte reads back unchanged, whatever follows it |
| RomFsCodec.EntryFromBytesShift | gnwmanager/romfs.py:150-153 | decoding at an offset inside a longer buffer is decoding the suffix |
| RomFsCodec.NameEndShift | gnwmanager/romfs.py:156-158 | the name scan moves with the offset it starts from |
| SubsetSum.SumAppend | gnwmanager/romfs.py:195 | the sum of a tuple with one more number adds that number |
| SubsetSum.Search | gnwmanager/romfs.py:187-206 | a result is the given indices followed by distinct descending indices summing to what the partial sum lacks, at most `limit - len(partial)` taken by recursion plus one closing index; otherwise SubsetSumOptimizationError |
| SubsetSum.Scan | gnwmanager/romfs.py:196-206 | the loop from index k-1 down to 0 returns only solutions over the first k numbers, with at most `limit - len(partial)` + 1 new indices |
| SubsetSum.ExtendSolution | gnwmanager/romfs.py:198-200 | a solution of the recursive call over `numbers[:i]` is a solution of the caller |
| SubsetSum.SumAtPrefix | gnwmanager/romfs.py:200 | indices below i pick the same numbers from `numbers[:i]` as from `numbers` |
| SubsetSum.SearchSound | gnwmanager/romfs.py:187-206 | from scratch, a result is between 1 and `limit` + 1 distinct in-range indices whose numbers sum to the target |
| SubsetSum.ExampleFrom7 | tests/test_romfs.py:13-22 | from 7, the search takes 5 and closes with 12 |
| SubsetSum.ExampleFrom2And7 | tests/test_romfs.py:13-22 | from 2 and 7 every branch fails |
| SubsetSum.ExampleFrom2And5 | tests/test_romfs.py:13-22 | from 2 and 5 every branch fails |
| SubsetSum.ExampleFrom2 | tests/test_romfs.py:13-22 | from 2 every branch fails |
| SubsetSum.TestSubsetSumExample | tests/test_romfs.py:13-22 | on (12, 1, 61, 5, 7, 2), target 24, limit 3 the search returns [4, 3, 0], whose numbers sum to 24 |
| RomFs.SumSizesConcat | gnwmanager/romfs.py:257 | the total size of two tables together is the sum of their totals |
| RomFs.Insert | gnwmanager/romfs.py:241 | inserting one entry adds exactly that entry, as a multiset |
| RomFs.InsertAbove | gnwmanager/romfs.py:241 | inserting keeps a common lower bound of the offsets |
| RomFs.InsertSorted | gnwmanager/romfs.py:241 | inserting into a table in offset order keeps it in order |
| RomFs.SortByOffset | gnwmanager/romfs.py:241 | `sort(key=offset)` gives a permutation of the table in offset order |
| RomFs.InsertLast | gnwmanager/romfs.py:241 | an entry at or above every offset is inserted at the end, as the stable sort keeps it |
| RomFs.SortSorted | gnwmanager/romfs.py:272 | sorting a sorted table changes nothing, so the repeated sorts agree |
| RomFs.SortAppend | gnwmanager/romfs.py:311 | sorting a table with one appended entry inserts that entry into the sorted table |
| RomFs.FreeGaps | gnwmanager/romfs.py:240-252 | every yielded gap is a FREE entry with the empty hash, strictly larger than `min_size` |
| RomFs.FreeGapsFilter | gnwmanager/romfs.py:246-252 | the gaps above a larger threshold are exactly the gaps above a smaller one that exceed it |
| RomFs.GapsInside | gnwmanager/romfs.py:243-252 | every gap of a well-formed table lies inside the partition |
| RomFs.FitsEnd | gnwmanager/romfs.py:250 | a well-formed table ends by the partition end |
| RomFs.FitsSorted | gnwmanager/romfs.py:241 | a well-formed table is in offset order |
| RomFs.FitsEarlier | gnwmanager/romfs.py:243-248 | a table that fits from some offset also fits from any earlier one |
| RomFs.FreeSpace | gnwmanager/romfs.py:254-257 | `free` plus the used bytes of a well-formed table is the partition size |
| RomFs.MinGap | gnwmanager/romfs.py:293-298 | the loop's choice is a gap no larger than any other, and it fails only on no gaps |
| RomFs.BestFitChoosesSmallest | gnwmanager/romfs.py:289-301 | the chosen gap holds `size` bytes and no smaller such gap exists; InsufficientSpaceError exactly when no gap holds `size` |
| RomFs.BestFitAsWrittenMissesExactGap | gnwmanager/romfs.py:289-310 | as written, a gap of exactly the requested size is never chosen, so `add_entry` raises FragmentationError where the documented fit succeeds |
| RomFs.InsertIntoGap | gnwmanager/romfs.py:311 | an entry placed at a gap's start and no larger than the gap keeps the table well formed |
| RomFs.SumSizesInsert | gnwmanager/romfs.py:311 | inserting an entry adds its size to the used total |
| RomFs.AddEntryKeepsFit | gnwmanager/romfs.py:303-312 | a successful add keeps the table well formed and takes exactly `size` bytes of free space |
| RomFs.FindIndex | gnwmanager/romfs.py:273-285 | the index found is the first matching entry, or the length when none matches |
| RomFs.RemoveTakesOne | gnwmanager/romfs.py:259-287 | exactly one matching entry leaves the table and is returned; FileNotFoundError exactly when none matches, the table then unchanged |
| RomFs.RemoveKeepsFit | gnwmanager/romfs.py:286 | deleting an entry from a well-formed table keeps it well formed |
| RomFs.Sizes | gnwmanager/romfs.py:342 | `tuple(x.size for x in entries)` has one size per queued entry |
| RomFs.FillGap | gnwmanager/romfs.py:344-347 | each chosen index leaves the queue; the moved entries are kept only in the intended version |
| RomFs.DefragStep | gnwmanager/romfs.py:335-353 | a turn shortens the queue; intended, placed plus queued entries keep their number; as written, only the popped entry is placed |
| RomFs.DefragFrom | gnwmanager/romfs.py:335-353 | the loop ends with an empty queue |
| RomFs.PackedAppend | gnwmanager/romfs.py:349-353 | placing an entry at the running offset keeps the placed entries end to end |
| RomFs.FillGapPacked | gnwmanager/romfs.py:344-347 | entries moved into a gap are placed end to end |
| RomFs.DefragStepPacked | gnwmanager/romfs.py:335-353 | a turn keeps the placed entries end to end from 0 |
| RomFs.FillGapKeepsEntries | gnwmanager/romfs.py:344-347 | the intended gap filling moves entries from the queue to the table with name, size and hash unchanged: the two together hold the same entries up to offsets |
| RomFs.DefragStepKeepsEntries | gnwmanager/romfs.py:335-353 | an intended turn neither loses, adds nor alters an entry: placed plus queued entries are the same multiset up to offsets |
| RomFs.DefragFromKeeps | gnwmanager/romfs.py:335-353 | the intended loop places every queued entry, end to end, and the placed entries are the queued ones with only their offsets changed |
| RomFs.DefragKeepsAll | gnwmanager/romfs.py:317-355 | the intended defragmentation returns exactly the input entries, as a multiset, with names, sizes and hashes kept and only offsets new, packed end to end from offset 0 |
| RomFs.DefragAsWrittenDropsEntry | gnwmanager/romfs.py:338-354 | as written, files at 0, 20 and 50 give one move 50→10 and a new table without the moved file |
| RomFs.RomFS.constructor | gnwmanager/romfs.py:210-212 | the table holds the given header and entries |
| RomFs.RomFS.WalkFree | gnwmanager/romfs.py:240-252 | the entries are sorted in place and the gaps are `FreeGaps` of the sorted table |
| RomFs.RomFS.Free | gnwmanager/romfs.py:254-257 | the result is the total size of the gaps; the entries are left sorted |
| RomFs.RomFS.BestFit | gnwmanager/romfs.py:289-301 | the result is the documented best fit of the sorted table |
| RomFs.RomFS.AddEntry | gnwmanager/romfs.py:303-312 | the result and the new entry list are those of `AddEntryTo` on the sorted table |
| RomFs.RomFS.Remove | gnwmanager/romfs.py:259-287 | the result and the new entry list are those of `RemoveFrom` on the sorted table |
| RomFs.RomFS.DefragEntries | gnwmanager/romfs.py:317-355 | the move commands and the new entry list are those of the intended defragmentation of the sorted table |
| RomFs.ExactFitStays | gnwmanager/romfs.py:295-298 | breaking on an exact fit returns what the full loop would |
| RomFs.MinGapReplaced | gnwmanager/romfs.py:295-296 | a strictly smaller gap replaces the running choice |
| RomFs.MinGapStays | gnwmanager/romfs.py:294-298 | a running choice no larger than all later gaps stays |
| RomFs.MinGapKeeps | gnwmanager/romfs.py:295 | a gap no smaller than the running choice does not replace it |
| RomFs.FindFirst | gnwmanager/romfs.py:273-285 | the search loop computes `FindIndex` |
| RomFs.WalkGaps | gnwmanager/romfs.py:243-252 | the generator's loop computes `FreeGaps` |
| RomFs.WalkStep | gnwmanager/romfs.py:244-248 | one turn of the loop extends the gaps found so far by the gap before entry k |
| RomFs.SmallestGap | gnwmanager/romfs.py:293-298 | the loop, with its early break, computes `MinGap` |
| RomFs.FillGapLoop | gnwmanager/romfs.py:344-347 | the loop computes the intended `FillGap` |
| RomFs.Turn | gnwmanager/romfs.py:336-353 | one turn computes the intended `DefragStep` |
| HostProtocol.ReadsOf | gnwmanager/gnw.py:151 | one logged read of the address per reply consumed, in order |
| HostProtocol.WaitForIdleReads | gnwmanager/gnw.py:145-159 | polling consumes one status reply per read, logs exactly those reads and touches nothing else |
| HostProtocol.WaitForIdleOutcome | gnwmanager/gnw.py:145-159 | returns exactly when the last status read is IDLE, raises DataError with that status's name exactly when `(status & 0xFFFF0000) == 0xBAD00000`, and times out only after every allowed poll read neither |
| HostProtocol.GetContext | gnwmanager/gnw.py:173-181 | the context returned is 0 or 1 |
| HostProtocol.GetContextFree | gnwmanager/gnw.py:173-181 | a context is returned only right after its `ready` read as 0, every earlier poll found a busy context, and failure is only a timeout or a transport error |
| HostProtocol.WaitCleared | gnwmanager/gnw.py:164-167 | the polls left after the wait never exceed those given |
| HostProtocol.SeeAllConcat | Core/Src/gnwmanager.c:38-82 | the device's view after two runs of writes is the view after the first, then the second |
| HostProtocol.SeeAllStep | Core/Src/gnwmanager.c:38-82 | a run of writes is seen one write at a time |
| HostProtocol.SeeOne | Core/Src/gnwmanager.c:38-82 | a run of one write is that write |
| HostProtocol.SeeWord | gnwmanager/gnw.py:116-117 | a word write to a context field sets that field |
| HostProtocol.SeeStatus | gnwmanager/gnw.py:35-42 | a write to a status word leaves every context unchanged |
| HostProtocol.SeeAllKeepsReady | Core/Src/gnwmanager.c:73-75 | writes that do not target a context's `ready` leave it as it was |
| HostProtocol.CeilDivInt | gnwmanager/gnw.py:214 | `int(ceil(a / n))` is the least multiple count covering a non-negative a |
| HostProtocol.HashRequestSeen | gnwmanager/gnw.py:218-222 | the device sees a HASH request for the offset and size, with `response_ready` cleared, and `ready` takes the counter only after every other field |
| HostProtocol.ReadHashesFrees | gnwmanager/gnw.py:196-232 | a successful call validated the offset, claimed a free context, wrote the request, read back `ceil(size/256 KiB)*32` bytes, returned them cut into 32-byte digests, freed the context last and advanced the counter by one |
| HostProtocol.DigestsOf | gnwmanager/gnw.py:227-232 | n digests' worth of bytes cut into 32-byte pieces gives n digests of 32 bytes |
| HostProtocol.WaitForResponseExtends | gnwmanager/gnw.py:183-189 | polling only appends reads to the log |
| HostProtocol.PayloadChoice | gnwmanager/gnw.py:278-284 | compressed data is used exactly when compression was asked for and saves at least a tenth; otherwise the raw data goes out with `compressed_size` 0 |
| HostProtocol.ProgramChecks | gnwmanager/gnw.py:265-276 | a bad bank or offset and more than 256 KiB raise ValueError with nothing sent, empty data submits nothing, a submission advances the counter by exactly one |
| HostProtocol.ProgramSeen | gnwmanager/gnw.py:288-313 | the device sees the whole request: action, offset, size, bank, erase flag and length, the raw data's SHA-256, compressed size, payload in the buffer and the counter in `ready` |
| HostProtocol.ProgramReadyLast | gnwmanager/gnw.py:288-310 | until `ready` is written, the device finds it as it was, so a half-written request is never picked up |
| HostProtocol.NoReadyBefore | gnwmanager/gnw.py:288-310 | no program write before the second-to-last one targets `ready` |
| HostProtocol.SeeHead | gnwmanager/gnw.py:288-293 | the first writes set action, offset, size and bank |
| HostProtocol.SeeErase | gnwmanager/gnw.py:295-299 | erasing sets `erase` to 1 and `erase_bytes` to the size; otherwise only `erase` to 0 |
| HostProtocol.SeeBody | gnwmanager/gnw.py:301-308 | the digest, the compressed size and the payload land in the context and its buffer |
| HostProtocol.SeeTail | gnwmanager/gnw.py:310-313 | the last writes set `ready` to the counter |
| HostProtocol.EraseChecks | gnwmanager/gnw.py:370-391 | accepted exactly when whole-chip with offset 0 and size 0, or a positive size, on a valid bank and offset; otherwise ValueError with nothing sent; an accepted erase advances the counter by one |
| HostProtocol.EraseSeen | gnwmanager/gnw.py:394-405 | the device sees an erase of `size` bytes at `offset` with nothing to program and the empty digest, `ready` written last |
| HostProtocol.SeeEraseFront | gnwmanager/gnw.py:396-399 | the first erase writes set action, offset, size 0 and erase 1 |
| HostProtocol.SeeEraseBack | gnwmanager/gnw.py:400-402 | the next writes set `erase_bytes`, bank and the expected digest |
| HostProtocol.ProgressBounded | gnwmanager/gnw.py:433 | `int(26*(i+1)/n)` never decreases, stays within 0..26 and reaches 26 with the last packet |
| HostProtocol.DivMonotone | gnwmanager/gnw.py:433 | integer division is monotone in the dividend |
| HostProtocol.ProgramPackets | gnwmanager/gnw.py:431-433 | when every packet is non-empty, a successful loop submits one request per packet |
| HostProtocol.ChangedPacketsAre | gnwmanager/gnw.py:420-429 | every programmed packet is a non-empty chunk i of the data at `offset + i*256 KiB` whose SHA-256 differs from device digest i |
| HostProtocol.FlashExtCount | gnwmanager/gnw.py:410-436 | a successful `_flash_ext` submitted the hash request and exactly one program request per changed chunk |
| HostProtocol.FlashRefusesOversize | gnwmanager/gnw.py:318-339 | padded data larger than the external flash (bank 0) or 256 KiB (banks 1, 2), or a bad bank, is refused before any request is submitted |
| Host.Backend.constructor | gnwmanager/gnw.py:94-95 | the probe starts with an empty call log and the replies the target will give |
| Host.Backend.ReadUint32 | gnwmanager/gnw.py:113-114 | the read is the specification `ReadWord` on the probe's link |
| Host.Backend.WriteUint32 | gnwmanager/gnw.py:116-117 | the write is the specification `WriteWord` on the probe's link |
| Host.Backend.WriteMemory | gnwmanager/gnw.py:141-143 | the block write is logged as one `WriteMem` |
| Host.Backend.ReadMemory | gnwmanager/gnw.py:136 | the block read is the specification `ReadBlock` |
| Host.Submit | gnwmanager/gnw.py:288-313 | a run of writes goes out in order, as `Send` states |
| Host.ReadMemory | gnwmanager/gnw.py:119-139 | the block read is bracketed by raising and lowering `download_in_progress`, as `ReadMemory` states |
| Host.WaitForIdle | gnwmanager/gnw.py:145-159 | the polling loop computes the specification `WaitForIdle` |
| Host.WaitCleared | gnwmanager/gnw.py:164-167 | the loop computes `WaitCleared` |
| Host.WaitForAllContextsComplete | gnwmanager/gnw.py:161-168 | both `ready` words cleared, then idle, within one deadline, as the specification states |
| Host.GetContext | gnwmanager/gnw.py:173-181 | the loop computes the specification `GetContext` |
| Host.WaitForContextResponse | gnwmanager/gnw.py:183-189 | the loop computes `WaitForResponse` |
| Host.GnW.constructor | gnwmanager/gnw.py:94-99 | the counter starts at 1 and nothing is cached |
| Host.GnW.ReadHashes | gnwmanager/gnw.py:196-232 | result and new state are those of the specification `ReadHashes` |
| Host.GnW.Program | gnwmanager/gnw.py:234-316 | result and new state are those of the specification `Program` |
| Host.GnW.SubmitProgram | gnwmanager/gnw.py:286-316 | result and new state are those of `SubmitProgram` |
| Host.GnW.Erase | gnwmanager/gnw.py:341-408 | result and new state are those of `EraseFlash` |
| Host.GnW.ExternalFlashBlockSize | gnwmanager/gnw.py:107-111 | the property reads `min_erase_size` once and caches it |
| Host.GnW.ExternalFlashSize | gnwmanager/gnw.py:101-105 | the property reads `flash_size` once and caches it |
| Host.GnW.FlashExt | gnwmanager/gnw.py:410-436 | result and new state are those of the specification `FlashExt` |
| Host.GnW.Flash | gnwmanager/gnw.py:318-339 | result and new state are those of the specification `Flash` |
| Target.RoundUpLeast | gnwmanager/target.py:67-68 | for a positive value `_round_up` gives the least multiple of `mod` at or above it |
| Target.GetContextInitialises | gnwmanager/target.py:155-157 | the counter is created at 1 when missing and an existing counter is kept |
| Target.ReadHashesFrees | gnwmanager/target.py:178-198 | a successful `read_hashes` frees its context with the last write and advances the counter by one from where `get_context` put it |
| Target.ProgChecks | gnwmanager/target.py:229-240 | a bad bank or offset and more than 256 KiB raise ValueError and empty data returns, all before any transport call; a request advances the counter by one |
| Target.EraseExtChecks | gnwmanager/target.py:300-303 | a bad offset, or a non-positive size without `whole_chip`, raises ValueError before any transport call |
| Target.EraseExtSeen | gnwmanager/target.py:307-321 | the device sees bank 0, nothing to program, erase set, and an erase length that is 0 exactly when `whole_chip` was asked for; `ready` is written last |
| Target.SeeFront | gnwmanager/target.py:307-310 | the first four erase writes set action, offset, erase and size 0 |
| Target.SeeBankEraseBytes | gnwmanager/target.py:311-318 | the next writes set bank, erase length and expected digest |
| Target.EraseIntAsWrittenIgnoresSize | gnwmanager/target.py:332-347 | as written, the device finds the erase length of a released context, 0, whatever rounded size was asked for |
| Target.SeeAllKeepsEraseBytes | gnwmanager/target.py:339-347 | writes that do not target `erase_bytes` leave it as it was |
| Target.EraseIntSeen | gnwmanager/target.py:326-351 | with the length written, the device sees an erase of `size` rounded up to whole 8 KiB sectors in the requested bank, `ready` last |
| Target.EraseIntChecks | gnwmanager/target.py:327-335 | a bad offset, a non-positive size or a bank other than 1 or 2 raises ValueError before any transport call |
| Target.TargetMixin.constructor | gnwmanager/target.py:93 | the mixin starts without a `context_counter` |
| Target.TargetMixin.GetContext | gnwmanager/target.py:155-167 | result and new state are those of `GetContextOf` |
| Target.TargetMixin.ReadHashes | gnwmanager/target.py:178-198 | result and new state are those of `ReadHashesOf` |
| Target.TargetMixin.Prog | gnwmanager/target.py:200-282 | result and new state are those of `ProgOf` |
| Target.TargetMixin.SubmitProg | gnwmanager/target.py:248-282 | result and new state are those of `SubmitProgOf` |
| Target.TargetMixin.WriteProg | gnwmanager/target.py:250-282 | result and new state are those of `WriteProgOf` |
| Target.TargetMixin.Settle | gnwmanager/target.py:280-282 | result and new state are those of `SettleOf`: both contexts taken, then idle |
| Target.TargetMixin.SubmitErase | gnwmanager/target.py:305-324 | result and new state are those of `SubmitEraseOf` |
| Target.TargetMixin.EraseExt | gnwmanager/target.py:284-324 | result and new state are those of `EraseExtOf` |
| Target.TargetMixin.EraseInt | gnwmanager/target.py:326-351 | result and new state are those of the corrected `EraseIntOf`, which writes the rounded length |
| Legacy.Previous | gnwmanager.py:73-83 | every context field but the first has a predecessor one rank lower, the order in which the struct is laid out |
| Legacy.OffsetTable | gnwmanager.py:72-83 | every field of a context struct, `__buffer_ptr` included, ends within 92 bytes of the struct's start and all but `ready` start at 4 or more |
| Legacy.SlotOffsetValue | gnwmanager.py:72-83 | chaining each field after the previous one from the struct's start gives exactly the offset table |
| Legacy.SlotsApart | gnwmanager.py:71-89 | distinct context fields never overlap, across both contexts, and every field lies below every transfer buffer |
| Legacy.GetContextOf | gnwmanager.py:827-837 | a context handed out is 0 or 1 |
| Legacy.GetContextFree | gnwmanager.py:827-837 | the log only grows; a context is handed out right after its `ready` word was read as 0, every earlier read in the poll having found a busy context; errors are timeout or transport |
| Legacy.WaitForOutcome | gnwmanager.py:851-866 | `wait_for` succeeds only right after reading the wanted status and raises DataError only right after reading an 0xBAD0xxxx status other than the wanted one, named after it |
| Legacy.WriteRequestShape | gnwmanager.py:765-794 | the request writes the address and size, and with `erase` an erase length that is the decompressed size when given and the data length otherwise; the buffer holds the data and `ready` is written last with the counter |
| Legacy.NonBlockingWriteOf | gnwmanager.py:918-923 | `_flash_ext` calls `extflash_write` with erase and without blocking |
| Legacy.ExtflashWriteChecks | gnwmanager.py:763-794 | a bad offset or more than 256 KiB raise ValueError and empty data returns, with nothing sent; only a valid request of 1 byte to 256 KiB advances the counter, and a successful one does |
| Legacy.EraseRequest | gnwmanager.py:700-715 | the erase request sets size 0, erase 1, and an erase length of 0 for the whole chip and `size` otherwise; `ready` is written last |
| Legacy.ExtflashEraseChecks | gnwmanager.py:696-715 | an erase is submitted, and the counter advanced, exactly for a valid offset with a positive size or `whole_chip`; the erase length is 0 exactly for `whole_chip` |
| Legacy.ResumePoint | gnwmanager.py:891-897 | the upload resumes from the recorded count exactly when a progress file exists whose time stamp is the data file's, otherwise from 0 |
| Legacy.SafeCount | gnwmanager.py:926-931 | the recorded count never falls below the resume point, never exceeds the chunks handed over, and is at most three short of them |
| Legacy.ChooseUpload | gnwmanager.py:910-916 | the compressed chunk is sent exactly when it is strictly shorter, then with the raw length and the raw chunk's digest; otherwise the raw chunk with no decompression |
| Legacy.UploadErasesChunk | gnwmanager.py:776-782 | whichever form is sent, the device is told to erase exactly the raw chunk's length |
| Legacy.ResumeChunks | gnwmanager.py:887-900 | the chunks left to send are the 256 KiB chunks of the file from the resume point on, in order |
| Legacy.UploadOneCounts | gnwmanager.py:907-931 | one loop step hands one request to the device and records the safe count when it succeeds, and changes neither when it fails |
| Legacy.UploadStepCounted | gnwmanager.py:907-931 | every step of the loop over chunks of 1 byte to 256 KiB behaves as `UploadOneCounts` states |
| Legacy.UploadChunksRecords | gnwmanager.py:907-931 | the loop stops at the first failure; after `h` requests handed over the progress record holds the safe count for them, and a loop that hands over nothing leaves it alone |
| Legacy.ResumeUploadRecords | gnwmanager.py:890-931 | an interrupted upload changes the progress record only to one with this file's time stamp and a count between the resume point and the chunks handed over, at most three short of them |
| Legacy.FinishOf | gnwmanager.py:933-937 | the end of the upload leaves the counter alone and removes a tracked progress record exactly when the final waits succeed |
| Legacy.FlashExtResumeSafe | gnwmanager.py:879-937 | a finished tracked upload removes the progress record; a failed one leaves a record that a later run can resume from without skipping an unwritten chunk |
| Legacy.GetContext | gnwmanager.py:827-837 | result and log are those of `GetContextOf` |
| Legacy.WaitFor | gnwmanager.py:851-866 | result and log are those of `WaitForOf` |
| Legacy.WaitForAllContextsComplete | gnwmanager.py:840-848 | result and log are those of `WaitForAllContextsCompleteOf` |
| Legacy.LegacyTool.constructor | gnwmanager.py:36 | the global `context_counter` starts at 1 |
| Legacy.LegacyTool.ExtflashWrite | gnwmanager.py:734-798 | result and new state are those of `ExtflashWriteOf` |
| Legacy.LegacyTool.SubmitWrite | gnwmanager.py:769-794 | result and new state are those of `SubmitWriteOf` |
| Legacy.LegacyTool.BlockingWrite | gnwmanager.py:769-798 | result and new state are those of `BlockingWriteOf` |
| Legacy.LegacyTool.ExtflashErase | gnwmanager.py:680-717 | result and new state are those of `ExtflashEraseOf` |
| Legacy.LegacyTool.FlashExt | gnwmanager.py:879-937 | result and new state are those of `FlashExtOf` |
| Legacy.LegacyTool.ResumeUpload | gnwmanager.py:890-931 | result and new state are those of `ResumeUploadOf` |
| Legacy.LegacyTool.UploadLoop | gnwmanager.py:907-931 | result and new state are those of `UploadChunks` over the chunks still to send |
| Legacy.LegacyTool.UploadOne | gnwmanager.py:908-931 | result and new state are those of step `k` of `UploadStep` |
| Legacy.LegacyTool.Finish | gnwmanager.py:933-937 | result and new state are those of `FinishOf` |
| Filesystem.BlocksFromEnd | gnwmanager/filesystem.py:23 | block 0 ends at `filesystem_end`, each block ends where the previous one starts, and distinct blocks never overlap |
| Filesystem.OpenOf | gnwmanager/filesystem.py:10-11 | a driver opens exactly on an end below 0x9000_0000 that is a multiple of 4096 |
| Filesystem.GetFilesystemReads | gnwmanager/filesystem.py:61-66 | exactly `flash_size` and `min_erase_size` are read; the driver opens, on end `flash_size - offset` and block size `min_erase_size`, exactly when that end is a valid offset, and ValueError otherwise |
| Filesystem.ReadServes | gnwmanager/filesystem.py:17-25 | a cached block is answered from the cache with nothing else changed; an uncached one is read at its memory-mapped address after the contexts drain and what came back becomes its cache entry; a failed read leaves the cache alone |
| Filesystem.ReadWholeBlockThenHit | gnwmanager/filesystem.py:17-25 | after a whole-block first read, every window of that block is answered from the cache |
| Filesystem.Returned | gnwmanager/filesystem.py:36-38 | a callback returns 0 exactly when the target call returned, and otherwise passes its error on |
| Filesystem.ProgUpdatesCache | gnwmanager/filesystem.py:27-38 | a program writes `data` into the window of a cached block and keeps every other byte and entry, creates no entry, and is refused with no transport call at an address that is not 4 KiB aligned |
| Filesystem.EraseThenRead | gnwmanager/filesystem.py:40-44 | after an erase, whether the target's erase succeeded or not, every window of the block reads as 0xFF from the cache with no transport call; an empty or misplaced block is refused with nothing sent |
| Filesystem.SyncOf | gnwmanager/filesystem.py:46-47 | `sync` returns 0 |
| Filesystem.LfsDriver.constructor | gnwmanager/filesystem.py:10-15 | the driver keeps the target and the end and starts with an empty cache, for a valid end only |
| Filesystem.LfsDriver.Read | gnwmanager/filesystem.py:17-25 | result and new state are those of `ReadOf` |
| Filesystem.LfsDriver.Prog | gnwmanager/filesystem.py:27-38 | result and new state are those of `ProgOf` |
| Filesystem.LfsDriver.PatchCache | gnwmanager/filesystem.py:29-33 | the cache becomes `PatchedCache` of the old one |
| Filesystem.LfsDriver.Erase | gnwmanager/filesystem.py:40-44 | result and new state are those of `EraseOf` |
| Filesystem.GetFilesystem | gnwmanager/filesystem.py:50-66 | the link and the result are those of `GetFilesystemOf`; a new driver with an empty cache on the reported end |
| LegacyLfs.BlocksFromStart | gnwmanager.py:199 | block 0 starts at the driver's offset, each block starts where the previous one ends, and distinct blocks never overlap |
| LegacyLfs.ReadServes | gnwmanager.py:192-200 | a cached block is answered from the cache with nothing else changed; an uncached one is read, after the contexts drain, only at a valid address, and what came back becomes its entry; counter and progress record are untouched |
| LegacyLfs.ProgSubmits | gnwmanager.py:202-222 | a program patches only a cached block, leaves the progress record alone, is refused with nothing sent at a bad address, and hands at most one request over, exactly one when it succeeds with 1 byte to 256 KiB compressed |
| LegacyLfs.EraseThenRead | gnwmanager.py:224-228 | after an erase every window of the block reads as 0xFF from the cache with no transport call; an empty block or a bad address is refused with nothing sent |
| LegacyLfs.LegacyLfsDriver.constructor | gnwmanager.py:187-190 | the driver keeps the offset and starts with an empty cache, for a valid offset only |
| LegacyLfs.LegacyLfsDriver.Read | gnwmanager.py:192-200 | result and new state are those of `ReadOf` |
| LegacyLfs.LegacyLfsDriver.PatchCache | gnwmanager.py:205-210 | the cache becomes `PatchedCache` of the old one |
| LegacyLfs.LegacyLfsDriver.Prog | gnwmanager.py:202-222 | result and new state are those of `ProgOf` |
| LegacyLfs.LegacyLfsDriver.Erase | gnwmanager.py:224-228 | result and new state are those of `EraseOf` |
| FwGnwmanager.Boot | Core/Src/gnwmanager.c:465-474 | at boot the machine is IDLE with no chip operation, the flash geometry published, and no context claimable |
| FwGnwmanager.GetContextOf | Core/Src/gnwmanager.c:188-196 | the context found is the first whose `ready` word equals the counter, and none is found exactly when neither does |
| FwGnwmanager.ReleasedNotReady | Core/Src/gnwmanager.c:198-200 | a released context is all zeros and is never found again while the counter is nonzero |
| FwGnwmanager.ChunkHashesCover | Core/Src/gnwmanager.c:214-229 | one digest per started 256 KiB chunk; digest `k` covers bank 0 from `offset + k * 256 KiB`, the last one short |
| FwGnwmanager.FlattenDigests | Core/Src/gnwmanager.c:225-226 | the digests sit back to back at 32-byte strides in the response buffer |
| FwGnwmanager.HashActionOf | Core/Src/gnwmanager.c:214-229 | the hash action changes only the buffers and the contexts |
| FwGnwmanager.EraseIntflashSectors | Core/Src/gnwmanager.c:134-156 | the firmware stops exactly on a bank other than 1 or 2 or an unaligned offset or size; otherwise one sector erase covering exactly `[offset, offset + size)` |
| FwGnwmanager.StartEraseOf | Core/Src/gnwmanager.c:317-335 | starting an external erase changes only the status, the erase cursor and the chip log, and moves on or to ERROR |
| FwGnwmanager.StartEraseRoundsUp | Core/Src/gnwmanager.c:319-334 | a misaligned offset reports NOT_ALIGNED and enters ERROR with no chip operation; otherwise one erase at the offset of the least multiple of the erase size covering the requested bytes |
| FwGnwmanager.ClaimOf | Core/Src/gnwmanager.c:286-337 | a claimed context becomes the active one with its bank 0, 1 or 2, whole sectors for internal banks, and the cursor at the bank's base plus offset; it is either released unchanged or passed on, and buffers, clock and counter are untouched |
| FwGnwmanager.ScheduleOf | Core/Src/gnwmanager.c:310-337 | the erase decision changes only the status and the active `erase` flag besides the erase cursor and moves on or to ERROR |
| FwGnwmanager.PickOf | Core/Src/gnwmanager.c:269-284 | claiming keeps the state well formed |
| FwGnwmanager.IdleOf | Core/Src/gnwmanager.c:260-338 | the IDLE step keeps the state well formed |
| FwGnwmanager.FillOf | Core/Src/gnwmanager.c:340-353 | filling RAM changes only the decompress buffer and the status, and enters ERROR or stays |
| FwGnwmanager.WordWritesCover | Core/Src/gnwmanager.c:431-439 | the internal program loop issues `n / 16` flash words at consecutive 16-byte addresses whose data together is exactly the `n` payload bytes |
| FwGnwmanager.IdleWithoutWork | Core/Src/gnwmanager.c:260-273 | with no context ready for the counter, IDLE only applies a pending clock setting, clears it and reports IDLE |
| FwGnwmanager.IdleClaims | Core/Src/gnwmanager.c:270-290 | the first context ready for the counter is claimed, the counter advances by one modulo 2^32, and its offset, size and bank become the active ones |
| FwGnwmanager.HashActionAnswers | Core/Src/gnwmanager.c:280-283 | a hash request is answered in its own buffer with one bank-0 digest per 256 KiB chunk, `response_ready` set, the context not released, the state still IDLE |
| FwGnwmanager.IdleSkipsUnchanged | Core/Src/gnwmanager.c:299-307 | when flash already hashes to the expected digest the context is released, nothing is erased or programmed and the state stays IDLE |
| FwGnwmanager.IdleRefusesBadBank | Core/Src/gnwmanager.c:292-297 | the firmware stops exactly on an internal bank other than 1 or 2 or an internal offset or size that is not whole 8 KiB sectors |
| FwGnwmanager.BadDecompressSticks | Core/Src/gnwmanager.c:339-358 | a bad inflate reports BAD_DECOMPRESS, releases the source context and leaves the machine one past ERROR, where no later step changes it |
| FwGnwmanager.HashChecks | Core/Src/gnwmanager.c:359-376 | a RAM digest mismatch, exactly, reports BAD_HASH_RAM and enters ERROR, and a match goes on to ERASE; a flash digest match, exactly, returns to IDLE, and a mismatch reports BAD_HASH_FLASH; neither touches the chip |
| FwGnwmanager.ErrorAbsorbs | Core/Src/gnwmanager.c:458-460 | ERROR, the state past it and a stopped firmware never change again |
| FwGnwmanager.StepKeepsProgress | Core/Src/gnwmanager.c:242-462 | every step from a claim to the flash check keeps the cursor and the program offset advanced by the same amount, internal counts in whole flash words |
| FwGnwmanager.ClaimKeepsProgress | Core/Src/gnwmanager.c:286-337 | a claim leaves the context ready to decompress with the cursor at its start |
| FwGnwmanager.DecompressKeepsProgress | Core/Src/gnwmanager.c:339-358 | decompression keeps the program bookkeeping |
| FwGnwmanager.SectorsAreWords | Core/Src/gnwmanager.c:295 | whole 8 KiB sectors are whole 16-byte flash words |
| FwGnwmanager.EraseKeepsProgress | Core/Src/gnwmanager.c:377-405 | an erase step keeps the program bookkeeping |
| FwGnwmanager.ProgramKeepsProgress | Core/Src/gnwmanager.c:412-443 | a program step keeps the program bookkeeping |
| FwGnwmanager.ProgramCompletes | Core/Src/gnwmanager.c:444-447 | at the flash check every payload byte has been handed to the chip |
| FwGnwmanager.ExternalProgramStep | Core/Src/gnwmanager.c:419-427 | one external step programs the page holding the offset with at most 256 bytes and advances offset and cursor by them |
| FwGnwmanager.InternalProgramStep | Core/Src/gnwmanager.c:428-442 | one internal step programs the rest of the payload as consecutive flash words from the program offset and moves to the flash check |
| FwGnwmanager.HashChunks | Core/Src/gnwmanager.c:219-227 | the digest loop yields `ChunkHashes` |
| FwGnwmanager.Manager.constructor | Core/Src/gnwmanager.c:465-474 | the state is `Boot` |
| FwGnwmanager.Manager.GetContext | Core/Src/gnwmanager.c:188-196 | the result is `GetContextOf` |
| FwGnwmanager.Manager.HashAction | Core/Src/gnwmanager.c:214-229 | the new state is `HashActionOf` |
| FwGnwmanager.Manager.EraseIntflash | Core/Src/gnwmanager.c:134-156 | the new state is `EraseIntflashOf` |
| FwGnwmanager.Manager.StartErase | Core/Src/gnwmanager.c:317-335 | the new state is `StartEraseOf` |
| FwGnwmanager.Manager.Schedule | Core/Src/gnwmanager.c:310-337 | the new state is `ScheduleOf` |
| FwGnwmanager.Manager.Take | Core/Src/gnwmanager.c:286-297 | the new state is `TakeOf` |
| FwGnwmanager.Manager.Skip | Core/Src/gnwmanager.c:299-308 | the new state is `SkipOf` |
| FwGnwmanager.Manager.Claim | Core/Src/gnwmanager.c:286-337 | the new state is `ClaimOf` |
| FwGnwmanager.Manager.SetClock | Core/Src/gnwmanager.c:263-267 | the new state is `ClockOf` |
| FwGnwmanager.Manager.Pick | Core/Src/gnwmanager.c:269-284 | the new state is `PickOf` |
| FwGnwmanager.Manager.RunIdle | Core/Src/gnwmanager.c:260-338 | the new state is `IdleOf` |
| FwGnwmanager.Manager.Fill | Core/Src/gnwmanager.c:340-353 | the new state is `FillOf` |
| FwGnwmanager.Manager.RunDecompress | Core/Src/gnwmanager.c:339-358 | the new state is `DecompressOf` |
| FwGnwmanager.Manager.RunCheckHashRam | Core/Src/gnwmanager.c:359-376 | the new state is `CheckHashRamOf` |
| FwGnwmanager.Manager.RunErase | Core/Src/gnwmanager.c:377-405 | the new state is `EraseOf` |
| FwGnwmanager.Manager.EraseExt | Core/Src/gnwmanager.c:385-396 | the new state is `EraseExtOf` |
| FwGnwmanager.Manager.EraseInt | Core/Src/gnwmanager.c:397-404 | the new state is `EraseIntOf` |
| FwGnwmanager.Manager.RunEraseFinish | Core/Src/gnwmanager.c:406-411 | the new state is `EraseFinishOf` |
| FwGnwmanager.Manager.ProgramWords | Core/Src/gnwmanager.c:428-442 | the new state is `ProgramWordsOf` |
| FwGnwmanager.Manager.ProgramPage | Core/Src/gnwmanager.c:419-427 | the new state is `ProgramPageOf` |
| FwGnwmanager.Manager.RunProgram | Core/Src/gnwmanager.c:412-443 | the new state is `ProgramOf` |
| FwGnwmanager.Manager.RunCheckHashFlash | Core/Src/gnwmanager.c:444-457 | the new state is `CheckHashFlashOf` |
| FwGnwmanager.Manager.Run | Core/Src/gnwmanager.c:242-462 | the new state is `StepOf` |
| FwFlashapp.Boot | Core/Src/flashapp.c:447-454 | at boot `comm` is zero, so the machine is in INIT, the counter is 1, and no chip operation has been issued |
| FwFlashapp.StateSetOf | Core/Src/flashapp.c:228-233 | `state_set` changes the state to the one given and nothing else |
| FwFlashapp.StateIncOf | Core/Src/flashapp.c:235-238 | `state_inc` moves to the next state and changes nothing else |
| FwFlashapp.InitOf | Core/Src/flashapp.c:246-255 | INIT leaves the machine well formed in IDLE |
| FwFlashapp.GetContextOf | Core/Src/flashapp.c:271-272 | the context found is the first whose `ready` equals the counter, and none is found exactly when neither does |
| FwFlashapp.StartEraseOf | Core/Src/flashapp.c:278-299 | starting the erase changes only status, state, the erase cursor and the chip log |
| FwFlashapp.ClaimOf | Core/Src/flashapp.c:272-301 | a claim keeps the machine well formed |
| FwFlashapp.IdleOf | Core/Src/flashapp.c:256-307 | the IDLE step keeps the machine well formed |
| FwFlashapp.DecompressOf | Core/Src/flashapp.c:336-365 | DECOMPRESSING keeps the machine well formed |
| FwFlashapp.PassThroughStates | Core/Src/flashapp.c:308-316 | START, CHECK_HASH_RAM_NEXT and CHECK_HASH_FLASH_NEXT move on by one and change nothing else, START reporting BUSY |
| FwFlashapp.IdleWithoutWork | Core/Src/flashapp.c:256-307 | with no context ready for the counter, IDLE reports IDLE, zeroes the progress, drops a pending clock setting and stays |
| FwFlashapp.IdleClaims | Core/Src/flashapp.c:270-301 | the first context ready for the counter is claimed: the counter advances modulo 2^32, its index is recorded, the active context is its copy pointing at its transfer buffer, and the machine goes to START, or to ERROR with NOT_ALIGNED |
| FwFlashapp.StartEraseRoundsUp | Core/Src/flashapp.c:279-298 | a misaligned address reports NOT_ALIGNED and enters ERROR with no chip operation; otherwise one non-blocking erase at the address of the least multiple of the erase size covering the request |
| FwFlashapp.DecompressSwapsDigest | Core/Src/flashapp.c:338-352 | after a good inflate the active context describes exactly the inflated bytes with the decompressed digest, its source context is released, and the RAM digest is checked again |
| FwFlashapp.DecompressSizeChecked | Core/Src/flashapp.c:340-342 | the firmware stops exactly when the inflated size is not the announced one |
| FwFlashapp.DecompressPassesThrough | Core/Src/flashapp.c:354-364 | uncompressed data is copied into the decompress buffer and its context released, or, already there, passed on; either way on to ERASE_NEXT |
| FwFlashapp.ProgramNextStarts | Core/Src/flashapp.c:392-402 | PROGRAM_NEXT starts programming with nothing written and the whole size left |
| FwFlashapp.StepKeepsProgress | Core/Src/flashapp.c:240-444 | every step keeps the program bookkeeping: progress is the bytes written, address and buffer pointer advanced by as much, never past the size |
| FwFlashapp.IdleStaysOut | Core/Src/flashapp.c:256-307 | IDLE leads only to IDLE, START or ERROR |
| FwFlashapp.ProgramKeepsProgress | Core/Src/flashapp.c:403-417 | a PROGRAM step keeps the bookkeeping |
| FwFlashapp.ProgramWritesPage | Core/Src/flashapp.c:405-413 | one PROGRAM step programs the page holding the address with at most 256 bytes from the buffer pointer and advances address, pointer and progress by them |
| FwFlashapp.ProgramCompletes | Core/Src/flashapp.c:414-426 | at the flash check the progress is full and the address one past the last byte written |
| FwFlashapp.HashChecks | Core/Src/flashapp.c:317-335 | a RAM digest mismatch, exactly, reports BAD_HASH_RAM and enters ERROR, and a match moves to DECOMPRESSING; a flash digest match, exactly, returns to IDLE, and a mismatch reports BAD_HASH_FLASH |
| FwFlashapp.FinalAndErrorAbsorb | Core/Src/flashapp.c:439-442 | FINAL, ERROR and a stopped firmware never change again |
| FwFlashapp.FlashApp.constructor | Core/Src/flashapp.c:447-454 | the state is `Boot` |
| FwFlashapp.FlashApp.StateSet | Core/Src/flashapp.c:228-233 | the new state is `StateSetOf` |
| FwFlashapp.FlashApp.StateInc | Core/Src/flashapp.c:235-238 | the new state is `StateIncOf` |
| FwFlashapp.FlashApp.RunInit | Core/Src/flashapp.c:246-255 | the new state is `InitOf` |
| FwFlashapp.FlashApp.GetContext | Core/Src/flashapp.c:271-272 | the result is `GetContextOf` |
| FwFlashapp.FlashApp.StartErase | Core/Src/flashapp.c:278-299 | the new state is `StartEraseOf` |
| FwFlashapp.FlashApp.Claim | Core/Src/flashapp.c:272-301 | the new state is `ClaimOf` |
| FwFlashapp.FlashApp.RunIdle | Core/Src/flashapp.c:256-307 | the new state is `IdleOf` |
| FwFlashapp.FlashApp.RunStart | Core/Src/flashapp.c:308-312 | the new state is `StartOf` |
| FwFlashapp.FlashApp.RunCheckHashRam | Core/Src/flashapp.c:317-335 | the new state is `CheckHashRamOf` |
| FwFlashapp.FlashApp.RunDecompress | Core/Src/flashapp.c:336-365 | the new state is `DecompressOf` |
| FwFlashapp.FlashApp.RunEraseNext | Core/Src/flashapp.c:366-379 | the new state is `EraseNextOf` |
| FwFlashapp.FlashApp.RunErase | Core/Src/flashapp.c:380-391 | the new state is `EraseOf` |
| FwFlashapp.FlashApp.RunProgramNext | Core/Src/flashapp.c:392-402 | the new state is `ProgramNextOf` |
| FwFlashapp.FlashApp.RunProgram | Core/Src/flashapp.c:403-417 | the new state is `ProgramOf` |
| FwFlashapp.FlashApp.RunCheckHashFlash | Core/Src/flashapp.c:423-438 | the new state is `CheckHashFlashOf` |
| FwFlashapp.FlashApp.Run | Core/Src/flashapp.c:240-444 | the new state is `StepOf` |

## Left out

- Transport backends (`ocdbackend/*`): the link is a log of the calls plus the device's scripted replies, and a reply that does not come is a transport failure.
- Halting and resuming the core (`target.halt()`, `target.resume()`) are left out, because they have no effect on memory.
- `time()` and `sleep()` deadlines: each polling loop gets a poll budget. A budget that runs out is `TimeoutError`. Real timing is not modelled.
- SHA-256, SHA-1 and LZMA compression (`utils.py`, `hashlib`, `lzma`) and the firmware's LZMA decoder (`Core/Src/lzma.c`) are function parameters, because they are foreign library code.
- The flash chip (OSPI and HAL calls), the hash peripheral and the RTC are parameters or a log of chip operations. The firmware's `Error_Handler` on a failed HAL call is not modelled.
- The watchdog, GUI drawing, buttons, `NVIC_SystemReset`, `status_override`, `printf` and `sprintf` are left out, because they are display and hardware I/O.
- `flashapp.c` has `GW_SetUnixTime` commented out. The model therefore only clears `utc_timestamp` there.
- `flashapp.c` hash checks are modelled with `PERFORM_HASH_CHECK` enabled.
- The firmware's `assert` failures are modelled as a firmware that is stopped: it is marked hung and never steps again.
- `gnwmanager/utils.py` in this copy has no `pad_bytes` or `chunk_bytes`. The definitions of `gnwmanager/cli/flash.py:14-22` are used for them, and the legacy `chunk_bytes` (`gnwmanager.py:647-648`) is the same function.
- `romfs.py` leaves out `RomFS.from_descriptor`, `RomFS.to_bytes`, `add_data`, `MoveCommand.to_bytes` and the `__repr__` methods. They are serialisation glue over `Header` and `Entry` and a SHA-256 call. LittleFS itself and `get_filesystem`'s `LittleFS(...)` mount are left out too.
- `RomFs.DefragKeepsAll`: the claim that a `MoveCommand` is emitted exactly when an entry's offset changes is stated by the definition `DefragFrom`, not by a separate lemma.
- CLI plumbing (`main.py`, the `cli/_*.py` commands other than `_flash.py`, and the legacy CLI commands), the patchers, the lock and unlock register pokes, and the `devices.py` `read_*` functions and autodetection are left out. They are I/O, subprocesses or calls into code that is not part of this model.
- Integers are unbounded. Host-side counters and sizes do not wrap at 2^32. The firmware's `context_counter` does wrap, and its context words are read modulo 2^32.
- In the firmware, `x & (s - 1)` with `s` the smallest erase size is written `x % s`. The two agree because that size is a power of two; the model does not require it.
- `PatchUtils.SecondsToFrames`: only whole seconds are modelled. The float product `60 * seconds` of the source is not.
- `HostProtocol.FlashRefusesOversize` and `Host.GnW.Flash`: a device that reports an external erase size of 0 makes `pad_bytes` divide by zero in Python. The model answers `ValueError` instead.
- `FwGnwmanager.FillOf`: the decompress buffer is modelled as exactly the bytes inflated or copied, not as a 256 KiB array whose tail keeps stale data.
- `FwGnwmanager.HashActionOf`: digests that run past the 256 KiB response buffer extend the buffer rather than overwrite the memory after it.
- `Filesystem.ReadServes` and `LegacyLfs.ReadServes`: as in the source, a cache miss caches only the `size` bytes read from the block's start. A later window beyond them reads short.
- `Host.GnW` and `Target.TargetMixin` writes to the active context index assume that the index is in range, as the source does.
- `RomFs.RomFS.BestFit`: follows the corrected smallest gap `>= size`. The source's strictly-larger walk is `RomFs.BestFitAsWritten`, listed under Findings.
- `RomFs.RomFS.AddEntry`: places the entry with the corrected best fit. The source's behaviour, which misses an exact gap, is `RomFs.AddEntryAsWritten`.
- `RomFs.RomFS.DefragEntries`: keeps moved entries at their new offsets, as corrected. The source's table, which drops them, is `RomFs.DefragAsWritten`.
- `Target.EraseIntOf`: writes the rounded size to `erase_bytes`, as corrected. The source's writes, which leave it out, are `Target.EraseIntWritesAsWritten`, and `Target.EraseIntAsWrittenIgnoresSize` shows their effect.
- `Target.TargetMixin.EraseInt`: follows `Target.EraseIntOf`, the corrected erase. The source's behaviour is `Target.EraseIntWritesAsWritten`.
- `Parsers.PyInt` and `Parsers.Lower`: only ASCII text is modelled. Python's `int()` also accepts surrounding whitespace, `_` between digits and non-ASCII digits, and `str.lower()` folds non-ASCII letters; none of these is modelled.
- `Legacy.ResumePoint`: the progress file is taken as already parsed into a time stamp and a non-negative count. The `ValueError` that `int()` or the two-line unpacking raises on a malformed file is not modelled. Nor is a negative count, for which `chunks[-n:]` keeps the last `n` chunks.
- `LegacyLfs.LegacyLfsDriver.constructor`: requires an offset that `Validation.ValidateExtflashOffset` accepts. The `ValueError` that `LfsDriverContext.__init__` raises otherwise is stated by `Validation.ValidateExtflashOffset` alone, not by the constructor.
- `RomFsCodec`: entry names are UTF-8 bytes. The `UnicodeDecodeError` of `Entry.from_bytes` and the code-point length of `Entry.__len__` are not modelled.
- `FwGnwmanager.HashActionOf` and `FwGnwmanager.ChunkHashes`: `offset + size` and the running `offset += chunk_size` are unbounded, not reduced modulo 2^32 as the firmware's `uint32_t` arithmetic is.

## Findings

| source | as written | input that shows it | evidently intended | confidence | as-written member | corrected member |
|---|---|---|---|---|---|---|
| gnwmanager/romfs.py:93-94 | `_round_up_4` divides by `4**4` (256), so it rounds down to a small quotient and `_pad_4` never pads | `_round_up_4(5)` is 0, so `_pad_4(b"abcde")` returns the 5 bytes unpadded | the least multiple of 4 at or above the value: `_round_up_4(5)` is 8 | high, not executed | RomFsCodec.RoundUp4AsWrittenShrinks | RomFsCodec.RoundUp4 |
| gnwmanager/romfs.py:150-167 | `Entry.to_bytes` packs the 4-byte hash with format `I`, and `from_bytes` unpacks it as an integer that the 4-byte length check rejects | any entry: `struct.pack("<III", offset, size, b"\x00\x00\x00\x00")` raises | pack and unpack the hash as 4 raw bytes, so that decoding an encoded entry gives it back | high, not executed | RomFsCodec.EntryCodecAsWrittenFails | RomFsCodec.EntryRoundTrip |
| gnwmanager/romfs.py:289-298 | `_best_fit(size)` walks only gaps strictly larger than `size`, so a gap of exactly `size` is never chosen | an empty table of size N and `add_entry(name, N, hash)` raise `FragmentationError` | the smallest gap `>= size`, as its docstring says | high, not executed | RomFs.BestFitAsWrittenMissesExactGap | RomFs.BestFitChoosesSmallest |
| gnwmanager/romfs.py:338-354 | `defrag` moves entries into a gap by subset sum but never adds them to the new table | files of size 10 at 0, 20 and 50: one move 50→10, and the table keeps only the first two | moved entries are kept at their new offsets | high, not executed | RomFs.DefragAsWrittenDropsEntry | RomFs.DefragKeepsAll |
| gnwmanager/target.py:332-347 | `erase_int` rounds `size` up to 8 KiB but never writes `erase_bytes`, so the device finds 0 there and erases a whole 256 KiB | `erase_int(1, 0, 8192)` erases 256 KiB of bank 1 | write the rounded size to `erase_bytes` | high, not executed | Target.EraseIntAsWrittenIgnoresSize | Target.EraseIntSeen |
