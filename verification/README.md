# The UCL decompressors, the packers around them, and three kernel and ELF tools

A Dafny model of the parts of the repository whose correctness is not visible from reading one
function at a time.

* **NRV2B, NRV2D, NRV2E.** The C template is modelled twice: as a small-step machine (`Nrv`) over
  three views of its data (a bare list of bits and bytes, separate buffers, one memory with two
  pointers), on which the theorems are proved, and as the loops of the template on an array
  (`Decoder`), proved to do what the machine does. Fast, SAFE and TEST_OVERLAP are three modes of
  one configuration. `Compressor` is the bit-emitting half of the compressor, `Finding` the rule by
  which matches are taken, `StubDecoder` the assembler decoder register by register.
* **exepak.** Block framing, the rotation written by `append_stubfile`, the relocation and the
  block loop of the stub, from the file that is packed to the bytes that the stub writes.
* **uclpack.** The checksummed container, decompressed in place.
* **Checksums.** Adler-32 and CRC-32 as fast forms of their definitions.
* **sstrip**, the page-table pinning of **mmu.c**, and the list deduplication of **malpage.c**.

`uint32` is the type of C's 32-bit unsigned values; `U32` is written wherever the source wraps
around. Loops that the source has are loops here. `hide` statements only keep definitions out of a
proof. `dafny verify dfyconfig.toml` verifies the whole project.

## Where to start

`RoundTrip.DecodeInvertsEncode`, `InPlace.InPlaceIsCorrect`, `Safety.SafeTotal`,
`StubDecoder.Decompress`, `Exepak.RunStub`, `Uclpack.DoDecompress`, `Uclpack.RoundTripUpTo`,
`Overtaken.AcceptedExactly`, `Failures.FindingLevels`, `Failures.FoundBlockBreaks`, `Sstrip.SegmentKept`,
`XenMmu.RunKeeps` and `Crc.BurstIsDetected` are the main results. Tokens of a block are `Lit(b)` and
`Match(off, len)`; a block is valid when no match reaches before its first byte and every match is
one that the compressor may code.

## What the code does and its documentation does not say

* The SAFE decoders may produce one byte more than `*dst_len` allows (`RoundTrip.AcceptsExactly`),
  and may read one control word behind `src_len`, and no more. uclpack places a block at the very end
  of its buffer, so nine bytes of a damaged file, 0xff and any eight, with a larger uncompressed size
  and a sufficient block size, make it read one byte behind (`Safety.SafeTotalIsSharp`); the model
  gives its buffer that byte.
* The buffers of uclpack rest on nine bits per output byte. A match can cost more, in exactly the
  cases of `NineBits.DearExactly`. None of them can arise up to a certain block size
  (`Uclpack.RoundTripUpTo`) or within the windows of most levels (`Uclpack.RoundTripInWindow`), the
  program's own settings among them. At the other levels the round trip holds when the blocks of the
  file are cheap (`Uclpack.CheapRoundTrip`), and there are files for which it does not, with the
  matches that match finding takes of them: some that packing gives up on, with the error that
  should never happen (`Failures.FoundBlockGrows`), and some that are packed, and that unpacking then
  takes for damaged, because the output overtakes the input (`Failures.FoundBlockBreaks`).
* `append_stubfile` changes the stub in place, so that the stub of a later file packed by the same
  process looks for its length in the wrong place (`Exepak.FirstFileOnly`); and it fails when the
  compressed file is shorter than the part that the stub moves, as that of a short script may be
  (`Failures.ScriptTooShort`).
* `sstrip` reads the program header table from behind the ELF header and writes it to `e_phoff`
  (`Sstrip.MovedTable`), loops for ever on a part whose only nonzero byte is its first
  (`Sstrip.EndsExactly`), and takes the end of a segment that wraps around 32 bits for small
  (`Sstrip.WrappingLoses`).

## Model

| member | source | states |
|---|---|---|
| Nrv.Step | packers/exepak-1.5/ucl-1.02/src/n2e_d.c:58-127 | every step of the decoder consumes a bit or byte of input, or is the copy of a match: the measure by which every run ends |
| Nrv.AfterBit | packers/exepak-1.5/ucl-1.02/src/n2e_d.c:62-110 | a bit changes control and counters only, never the store, and stops a run only with an error |
| Nrv.CopyMatch | packers/exepak-1.5/ucl-1.02/src/n2e_d.c:118-123 | copying a match consumes no input |
| Simulation.Relax | packers/exepak-1.5/ucl-1.02/src/n2e_d.c:35-39 | fast refines safe, and both refine TEST_OVERLAP: a mode with fewer checks decodes whatever one with more checks accepts, to the same bytes, length and final positions, for all three formats and widths |
| Simulation.RelaxStep | packers/exepak-1.5/ucl-1.02/src/n2e_ds.c:29-34 | step by step: a step that goes on, or ends with success, is the same step without the checks |
| Simulation.OutputGrows | packers/exepak-1.5/ucl-1.02/src/n2e_d.c:58-127 | the output length never decreases in a run |
| Simulation.CopyLength | packers/exepak-1.5/ucl-1.02/src/n2e_d.c:118-123 | a match of n bytes extends the output by n bytes |
| Simulation.ImageRun | packers/exepak-1.5/ucl-1.02/src/n2e_d.c:58-127 | a run with input and output in one memory gives the status, positions and bytes of the run on separate buffers, and changes nothing outside the output, when they lie apart or the overlap check keeps the output behind the input |
| Safety.SafeTotal | packers/exepak-1.5/ucl-1.02/src/n2e_d.c:62-127 | for any input bytes and any two pointers into one memory, the safe decoder ends with a status, produces at most oend + 1 bytes, and changes no byte outside dst[0..oend]; it never faults when the memory holds one control word more than the input and one byte more than the output |
| Safety.SafeSplit | packers/exepak-1.5/ucl-1.02/src/n2e_d.c:112-123 | with a separate output it never looks behind the first output byte |
| Safety.SafeTotalIsSharp | packers/exepak-1.5/ucl-1.02/src/getbit.h:33-58 | the room that SafeTotal and SafeSplit ask for is the least: for every width and for separate and shared memory, an input of one control word of ones and a byte for each of its bits, with less than a control word behind it, makes the safe decoder read past the end of the memory |
| Safety.InRangeNoWrap | packers/exepak-1.5/ucl-1.02/src/n2e_d.c:73-111 | with the checks of SAFE and oend < 2^31 - 4, no offset or length computation wraps around 32 bits |
| Safety.EndMarkerIsUnique | packers/exepak-1.5/ucl-1.02/src/n2e_d.c:89-92 | 0xffffffff arises from code value 0x1000002 followed by byte 0xff, and from nothing else |
| Safety.SafeStep | packers/exepak-1.5/ucl-1.02/src/n2e_d.c:62-124 | every step keeps the ranges of all variables and the distance that the input position may be ahead |
| PrefixCode.CodeIsBijective | packers/exepak-1.5/ucl-1.02/src/n2e_d.c:73-81 | the offset and length codes are bijections: the decoder reads m and leaves rest exactly when the input is the codeword of m followed by rest, for every m >= 2 |
| PrefixCode.LevelSize | packers/exepak-1.5/ucl-1.02/src/n2_99.ch:113-132 | level k of the wide code has 2*4^k values |
| PrefixCode.NarrowLevelSize | packers/exepak-1.5/ucl-1.02/src/n2_99.ch:91-109 | level k of the narrow code has 2^(k+1) values |
| PrefixCode.CodeLength | packers/exepak-1.5/ucl-1.02/src/n2_99.ch:91-132 | a codeword of level k has 2 + 2k bits in the narrow code and 2 + 3k in the wide code |
| Tokens.ExpandLength | packers/exepak-1.5/ucl-1.02/src/n2e_d.c:114-124 | a token list yields the sum of its sizes in bytes, after what was there before |
| Tokens.ExtendIsPeriodic | packers/exepak-1.5/ucl-1.02/src/n2e_d.c:118-123 | a copy that overlaps its own output repeats the last m_off bytes periodically |
| Tokens.SplitMeans | packers/exepak-1.5/ucl-1.02/src/n2_99.ch:141-145 | cutting matches that are longer than max_match into several leaves the block a token list stands for, and the list valid |
| Tokens.SplitShortens | packers/exepak-1.5/ucl-1.02/src/n2_99.ch:141-145 | afterwards no match is longer than max_match, and a list that had none is as it was |
| Layout.WordRoundTrip | packers/exepak-1.5/ucl-1.02/src/getbit.h:49-58 | a control word written low byte first reads back |
| Layout.HoldsRun | packers/exepak-1.5/ucl-1.02/src/getbit.h:33-58 | decoding a byte stream does what decoding the bare list of bits and bytes does, with control words standing where their first bit is needed |
| Layout.LayLength | packers/exepak-1.5/ucl-1.02/src/ucl_mchw.ch:254-306 | control words cost at most one word more than the bits they carry |
| Layout.LayIsUnread | packers/exepak-1.5/ucl-1.02/src/getbit.h:33-58 | how many bytes of a stream have not been read, exactly, when a given list of bits and bytes is still to come: the input position behind every bit |
| RoundTrip.DecodeInvertsEncode | packers/exepak-1.5/ucl-1.02/src/n2e_d.c:58-127 | round trip: every valid token list with less than 2^31 bytes, encoded in any format and width and followed by anything, decodes fast and safe to its expansion, with status OK and exactly the block consumed |
| RoundTrip.AcceptsExactly | packers/exepak-1.5/ucl-1.02/src/n2e_d.c:112-123 | SAFE accepts a compressed block exactly when its output fits, or is one byte longer and ends in a match: the output check is off by one for matches |
| RoundTrip.EncodeRun | packers/exepak-1.5/ucl-1.02/src/n2e_d.c:58-127 | decoding the bits and bytes of a token list gives its expansion, from any output produced so far and any last offset |
| RoundTrip.LastLiteralFails | packers/exepak-1.5/ucl-1.02/src/n2e_d.c:64-65 | a final literal beyond the limit is refused |
| RoundTrip.OkAtEnd | packers/exepak-1.5/ucl-1.02/src/n2e_d.c:126-127 | success means that exactly src_len bytes were read |
| Widths.WidthDoesNotMatter | packers/exepak-1.5/ucl-1.02/src/n2e_d.c:146-177 | a stream that decodes with one bit-buffer width decodes, laid out again from the bits and bytes it was read as, with any other width to the same output and status |
| BitBuffer.GetBit8Refines | packers/exepak-1.5/ucl-1.02/src/getbit.h:33-35 | getbit_8 takes the first bit of the queue that its sentinel buffer stands for, and fetches a byte exactly when the queue is empty |
| BitBuffer.GetBit16Refines | packers/exepak-1.5/ucl-1.02/src/getbit.h:45-46 | the same for getbit_le16 and a half word |
| BitBuffer.GetBit32Refines | packers/exepak-1.5/ucl-1.02/src/getbit.h:49-58 | the same for getbit_le32, whose buffer is counted in bc |
| BitBuffer.FormsAgree | packers/exepak-1.5/ucl-1.02/src/getbit.h:33-42 | the three forms of getbit_8 agree on every buffer a decoder can have |
| Decoder.Decompress | packers/exepak-1.5/ucl-1.02/src/n2e_d.c:58-127 | the loops over one memory with aliasing pointers give the status, length and memory of the small-step decoder, fast and safe, for all formats and widths |
| Decoder.DecodeOffset | packers/exepak-1.5/ucl-1.02/src/n2d_d.c:73-81 | the offset loop reads what the small-step decoder reads, or stops where it stops |
| Decoder.DecodeMatch | packers/exepak-1.5/ucl-1.02/src/n2b_d.c:79-91 | offset byte, end marker, repeated offset and first length bit |
| Decoder.DecodeLength | packers/exepak-1.5/ucl-1.02/src/n2b_d.c:91-102 | the length code of each format |
| Decoder.CopyBytes | packers/exepak-1.5/ucl-1.02/src/n2e_d.c:118-123 | the do-while copy writes m_len + 1 bytes upwards, for every 32-bit m_len including zero |
| Decoder.GetByteBit | packers/exepak-1.5/ucl-1.02/src/getbit.h:33-35 | one control bit from memory, 8-bit buffer |
| Decoder.GetHalfBit | packers/exepak-1.5/ucl-1.02/src/getbit.h:45-46 | one control bit from memory, 16-bit buffer |
| Decoder.GetWordBit | packers/exepak-1.5/ucl-1.02/src/getbit.h:49-58 | one control bit from memory, 32-bit buffer |
| Decoder.TestOverlap | packers/exepak-1.5/ucl-1.02/src/n2e_to.c:42-50 | test_overlap, which moves counters only, gives the status and length of the decoder that checks for overlap |
| InPlace.InPlaceIsCorrect | packers/exepak-1.5/ucl-1.02/src/n2e_to.c:38-50 | in-place decompression: if test_overlap accepts the block at buf[off..], decoding it to buf[0..] in the same memory, fast or safe, ends as on separate buffers, puts the same bytes at the front and leaves the bytes behind them alone |
| InPlace.OutputBehindInput | packers/exepak-1.5/ucl-1.02/src/n2e_d.c:66-68 | while the overlap check passes, the output never passes the input position |
| InPlace.OverheadSuffices | packers/exepak-1.5/ucl-1.02/examples/uclpack.c:185-190 | a block whose tokens cost at most nine bits a byte, at the top of a buffer of block_size + block_size/8 + 256 bytes, passes every overlap check |
| InPlace.CheapFits | packers/exepak-1.5/ucl-1.02/examples/uclpack.c:242-244 | such a block also fits the compressor's output buffer |
| NineBits.DearExactly | packers/exepak-1.5/ucl-1.02/src/n2_99.ch:137-230 | the exact boundary: a codable match within 8 MiB costs more than nine bits a byte if and only if its offset is not the last one and it is one of three bytes from more than 349312 back (NRV2D, NRV2E) or 130304 (NRV2B), or with NRV2B one of four bytes from more than 2096384 back |
| NineBits.CheapExactly | packers/exepak-1.5/ucl-1.02/src/n2_99.ch:137-245 | a valid token list of a block within 8 MiB costs at most nine bits a byte, token by token, if and only if none of its matches is such a match where it stands |
| NineBits.ShortIsCheap | packers/exepak-1.5/ucl-1.02/examples/uclpack.c:185-190 | so does every valid token list of a block of up to 349315 bytes (NRV2D, NRV2E) or 130307 (NRV2B) |
| NineBits.AlwaysCheapIsSharp | packers/exepak-1.5/ucl-1.02/examples/uclpack.c:185-190 | one byte more, and there is a valid token list that does not |
| NineBits.ShortFits | packers/exepak-1.5/ucl-1.02/examples/uclpack.c:242-244 | blocks up to that size fit the compressor's output buffer, whatever matches are taken |
| NineBits.NearIsCheap | packers/exepak-1.5/ucl-1.02/src/n2_99.ch:400-412 | in blocks of up to 8 MiB it is enough that no match comes from further back than those offsets |
| NineBits.WindowIsCheap | packers/exepak-1.5/ucl-1.02/src/n2_99.ch:400-412 | the window of a level is within them exactly up to level nine, and six for NRV2B |
| NineBits.DearBlockGrows | packers/exepak-1.5/ucl-1.02/examples/uclpack.c:281-287 | a valid token list, from 355461 bytes on (136453 for NRV2B), whose coding is longer than the block and its overhead |
| Overtaken.AcceptedExactly | packers/exepak-1.5/ucl-1.02/src/n2e_to.c:42-50 | test_overlap accepts a coded block, of any format and width, if and only if the limits of SAFE are met and, after every token, the output and the input that has not been read fit into the gap and the input |
| Overwritten.OverwrittenFails | packers/exepak-1.5/ucl-1.02/src/n2e_d.c:62-127 | decompression in place fails with the SAFE decoder when the output is all zeros up to a match that begins below the input and ends far enough above all of it that has been read |
| Overwritten.DoomedFails | packers/exepak-1.5/ucl-1.02/src/n2e_d.c:62-127 | a SAFE decoder that has nothing but zeros to read ends with an error, whatever bits it still holds |
| InPlace.EndCost | packers/exepak-1.5/ucl-1.02/src/n2_99.ch:612-623 | the end marker costs at most 57 bits |
| Compressor.Compress | packers/exepak-1.5/ucl-1.02/src/n2_99.ch:594-623 | the coding of the chosen runs and matches, long ones cut at conf.max_match, with bits interleaved into reserved words, gives the compressed block that the round trip is about; a limit below eight is refused |
| Compressor.Output.PutBit | packers/exepak-1.5/ucl-1.02/src/ucl_mchw.ch:254-284 | one bit more is put; whatever is put later, the finished stream will be the layout of all units in order |
| Compressor.Output.PutByte | packers/exepak-1.5/ucl-1.02/src/ucl_mchw.ch:287-292 | one data byte more is put behind the reserved word |
| Compressor.Output.WriteBits | packers/exepak-1.5/ucl-1.02/src/ucl_mchw.ch:236-251 | the control word goes low byte first to the place reserved for it |
| Compressor.Output.FlushBits | packers/exepak-1.5/ucl-1.02/src/ucl_mchw.ch:295-306 | flushing gives the layout of everything put |
| Compressor.Output.CodePrefix11 | packers/exepak-1.5/ucl-1.02/src/n2_99.ch:91-109 | the loops over powers of two emit the narrow codeword of i + 2 |
| Compressor.Output.CodePrefix12 | packers/exepak-1.5/ucl-1.02/src/n2_99.ch:113-132 | the loops emit the wide codeword of i + 2 |
| Compressor.Output.CodeMatch | packers/exepak-1.5/ucl-1.02/src/n2_99.ch:137-230 | a match is coded as the decoder expects it after the last offset, in parts of max_match - 3 bytes while it is longer than max_match |
| Compressor.Output.CodeToken | packers/exepak-1.5/ucl-1.02/src/n2_99.ch:234-245 | a literal or a match |
| Compressor.Output.CodeEnd | packers/exepak-1.5/ucl-1.02/src/n2_99.ch:612-622 | the end marker |
| Estimate.LenOfCodedMatch | packers/exepak-1.5/ucl-1.02/src/n2_99.ch:252-309 | the estimate exists exactly for matches that may be coded, and is never below the number of bits that coding takes |
| Estimate.MatchCost | packers/exepak-1.5/ucl-1.02/src/n2_99.ch:137-230 | the number of bits of a coded match |
| StubDecoder.Decompress | packers/exepak-1.5/stub/stub.s:208-352 | the assembler decoder gives the end status, output length and memory of the C decoder on every block that the safe one accepts with room for less than 2^30 bytes |
| StubDecoder.GetBit | packers/exepak-1.5/stub/stub.s:223-233 | doubling bl with the carry as sentinel reads the next control bit |
| StubDecoder.OffsetLoop | packers/exepak-1.5/stub/stub.s:235-267 | the offset loop in eax |
| StubDecoder.DecodeMatch | packers/exepak-1.5/stub/stub.s:267-329 | offset in negated form in ebp, and the length less two in ecx |
| StubDecoder.RepMovsb | packers/exepak-1.5/stub/stub.s:332-335 | rep movsb from edi + ebp is the overlapping copy |
| StubDecoder.MatchBlock | packers/exepak-1.5/stub/stub.s:329-336 | cmpl and adcl raise the length of far matches |
| Blocks.CompressBlock | packers/exepak-1.5/src/exepak.c:366-373 | one block is compressed to its packed form |
| Blocks.PackedDecodes | packers/exepak-1.5/ucl-1.02/examples/uclpack.c:481-504 | a packed block decodes to the block, whatever lies behind it |
| Blocks.PackedNotEmpty | packers/exepak-1.5/ucl-1.02/src/n2_99.ch:612-627 | a packed block is never empty |
| Blocks.LiteralsAreFound | packers/exepak-1.5/ucl-1.02/src/n2_99.ch:609-623 | a parsing without matches exists for every block |
| Exepak.CompressFile | packers/exepak-1.5/src/exepak.c:361-405 | the copy loop writes the frames of all blocks in order |
| Exepak.FrameBlock | packers/exepak-1.5/src/exepak.c:366-402 | two sizes and the packed block, or the block itself when packing does not shorten it |
| Exepak.AppendStubfile | packers/exepak-1.5/src/exepak.c:146-214 | the executable, as the system loads it, has the old segment, length, mode, tail, head and zeros behind the changed header; the function fails exactly when the part of the process memory that it writes is not there, or the compressed file is shorter than the part the stub moves; the header in the stub changes in either case |
| Exepak.PatchedIs | packers/exepak-1.5/src/exepak.c:173-186 | the change adds 8 + n and 12 + n to p_filesz and p_memsz, and leaves everything behind the headers alone |
| Exepak.FirstFileOnly | packers/exepak-1.5/src/exepak.c:108-115 | after any earlier files of the same process: the stub finds the first file; of a later one it reads as length the four bytes of process memory behind the built stub, and finds the file only if these happen to be its length |
| Exepak.CreateSfx | packers/exepak-1.5/src/exepak.c:314-438 | for any file of a process: an executable is made exactly when the user may change the file, its mode and kind are right, it gets smaller, and append_stubfile succeeds; the stub changes exactly when append_stubfile is called |
| Failures.ScriptTooShort | packers/exepak-1.5/src/exepak.c:204-209 | a script, with the matches that are found in it, that gets smaller and becomes too short for append_stubfile, for every stub whose bss has room for that many bytes |
| Exepak.MoveTail | packers/exepak-1.5/stub/stub.s:30-40 | the tail is copied behind the head |
| Exepak.ZeroIt | packers/exepak-1.5/stub/stub.s:45-50 | the bss before mapcompressed is cleared |
| Exepak.Relocate | packers/exepak-1.5/stub/stub.s:30-52 | the memory after relocation, and the saved mode |
| Exepak.RelocationRestores | packers/exepak-1.5/stub/stub.s:30-52 | relocation undoes the rotation: the compressed file is in order at mapcompressed, the bss before it is zero, everything else is untouched |
| Exepak.StubAccepts | packers/exepak-1.5/stub/stub.s:208-219 | every packed block is one that the stub's decoder accepts, within a buffer of the block's size |
| Exepak.UnpackBlock | packers/exepak-1.5/stub/stub.s:203-384 | a block comes out as it was, and nothing below the write buffer changes |
| Exepak.Unpack | packers/exepak-1.5/stub/stub.s:186-390 | the block loop writes the whole file, stops at the word of zero, and never needs more than the first block's size |
| Exepak.RunStub | packers/exepak-1.5/stub/stub.s:30-390 | end to end: the stub of a packed file writes the original file and restores its mode; the word that it raises the break by is the size of the first block, and nothing from the new break on changes |
| Uclpack.WordReadsBack | packers/exepak-1.5/ucl-1.02/examples/uclpack.c:156-178 | xread32 inverts xwrite32 |
| Uclpack.WordWritesBack | packers/exepak-1.5/ucl-1.02/examples/uclpack.c:156-178 | and xwrite32 inverts xread32 |
| Uclpack.DoCompress | packers/exepak-1.5/ucl-1.02/examples/uclpack.c:216-318 | the result is zero and the output is the container exactly when no packed block exceeds its overhead, and two otherwise |
| Uclpack.PackBlock | packers/exepak-1.5/ucl-1.02/examples/uclpack.c:281-303 | one block with its two sizes, packed only when that is shorter |
| Uclpack.ReadHeader | packers/exepak-1.5/ucl-1.02/examples/uclpack.c:396-421 | which header errors are reported when |
| Uclpack.ReadBlock | packers/exepak-1.5/ucl-1.02/examples/uclpack.c:460-528 | a sound block comes out; anything else ends with a size error, a data error or a premature end |
| Uclpack.ReadChecksum | packers/exepak-1.5/ucl-1.02/examples/uclpack.c:532-541 | zero needs a matching checksum |
| Uclpack.UnpackPacked | packers/exepak-1.5/ucl-1.02/examples/uclpack.c:472-515 | a packed block that settles is decompressed inside the buffer; other data never faults in the safe decoder |
| Uclpack.SettledDecodes | packers/exepak-1.5/ucl-1.02/examples/uclpack.c:472-504 | a block that test_overlap accepts at the top of the buffer decompresses to its front |
| Uclpack.DoDecompress | packers/exepak-1.5/ucl-1.02/examples/uclpack.c:378-547 | returns zero and the packed file for every container that was written and whose own blocks settle; a data error (six) when the first block is one that breaks; on any input at all it ends with one of the program's codes, and with zero only behind a valid header and a checksum of its own output |
| Uclpack.CheapRoundTrip | packers/exepak-1.5/ucl-1.02/examples/uclpack.c:427-474 | when no token of the file's own blocks costs more than nine bits a byte, packing succeeds and every block settles, so that unpacking undoes it |
| Uclpack.RoundTripUpTo | packers/exepak-1.5/ucl-1.02/examples/uclpack.c:641-740 | the round trip for every file, level and valid parsing, with block sizes up to 349315 (NRV2D, NRV2E) or 130307 (NRV2B): the default of 262144 with NRV2D is among them |
| Uclpack.RoundTripInWindow | packers/exepak-1.5/ucl-1.02/examples/uclpack.c:641-740 | the round trip for every file and block size, with matches from the window of the level, up to level nine (six for NRV2B): the default of seven with NRV2D is among them |
| Parsings.LevelsExactly | packers/exepak-1.5/ucl-1.02/src/n2_99.ch:400-412 | for every format and level: all files, block sizes and valid parsings within the window, whether or not match finding would choose them, are packed and unpacked if and only if the level is at most nine, or six for NRV2B |
| Parsings.SomeBlockGrows | packers/exepak-1.5/ucl-1.02/examples/uclpack.c:281-287 | at the other levels there are, for every block size from 355461 on (136453 for NRV2B), a file and a valid parsing of it that do_compress would give up on; the file is all zeros, and the parsing is not one that match finding chooses |
| Finding.FoundIsParsing | packers/exepak-1.5/ucl-1.02/src/n2_99.ch:492-606 | taking at every place the longest match of at most 2048 bytes in the window, the nearest of these, and a literal where there is none, gives a valid parsing of the block |
| Sparse.OnlyMatches | packers/exepak-1.5/ucl-1.02/src/ucl_swd.ch:491-563 | a file of zeros, quads and triples has no other codable match than those within the zeros, and one of three bytes for every triple |
| Sparse.TokensFound | packers/exepak-1.5/ucl-1.02/src/n2_99.ch:492-606 | so match finding has no choice in it, and nothing to put off |
| Failures.FoundBlockGrows | packers/exepak-1.5/ucl-1.02/examples/uclpack.c:281-287 | at level ten, and nine for NRV2B, do_compress gives up on such a file with its internal error, with the matches that match finding takes |
| Failures.FoundBlockBreaks | packers/exepak-1.5/ucl-1.02/examples/uclpack.c:372-376 | and with zeros in front and one block, packing succeeds, with the matches that match finding takes, and do_decompress ends with a data error |
| Failures.FindingLevels | packers/exepak-1.5/ucl-1.02/src/n2_99.ch:400-412 | with the matches that match finding takes, every file of every block size is packed and unpacked up to level nine of NRV2D and NRV2E, and not every file at level ten; for NRV2B, up to six, and not from nine on |
| Parsings.SomeRoundTrip | packers/exepak-1.5/ucl-1.02/examples/uclpack.c:216-318 | with a parsing that packs runs of one byte, every file of every block size is packed and unpacked |
| Parsings.RunsPack | packers/exepak-1.5/ucl-1.02/examples/uclpack.c:292-297 | and it does pack: any number of equal bytes up to 8 MiB becomes at most sixteen |
| Adler.Adler32 | packers/exepak-1.5/ucl-1.02/src/ucl_util.c:127-156 | the checksum with deferred reduction equals that with a reduction after every byte; its 32-bit types show that nothing overflows, for any seed |
| Adler.ReduceOnce | packers/exepak-1.5/ucl-1.02/src/ucl_util.c:152-153 | reducing once at the end of a chunk gives what reducing after every byte gives |
| Adler.ChecksumOfSums | packers/exepak-1.5/ucl-1.02/src/ucl_util.c:111-115 | the checksum is the one that section 2.2 of RFC 1950 words: the sum of the bytes and the sum of the sums, modulo 65521 |
| Adler.LimitIsTight | packers/exepak-1.5/ucl-1.02/src/ucl_util.c:117-119 | 5552 is the largest chunk length that cannot overflow from sums of 16 bits |
| Adler.Composes | packers/exepak-1.5/ucl-1.02/src/ucl_util.c:127-132 | the checksum of a whole is that of its second part seeded with that of the first |
| Adler.Chunk | packers/exepak-1.5/ucl-1.02/src/ucl_util.c:139-151 | the two inner loops compute the unreduced sums of a chunk |
| CrcTable.TableIs | packers/exepak-1.5/ucl-1.02/src/ucl_crc.c:38-91 | every entry of the table is eight steps of the division by the reflected polynomial |
| Crc.TableStep | packers/exepak-1.5/ucl-1.02/src/ucl_crc.c:102-103 | a table step is eight bit steps, by linearity |
| Crc.Do1Divides | packers/exepak-1.5/ucl-1.02/src/ucl_crc.c:102-103 | a table step divides the eight bits of a byte |
| Crc.Crc32 | packers/exepak-1.5/ucl-1.02/src/ucl_crc.c:114-144 | the loop unrolled by sixteen equals the bit-by-bit division of the message of section 8 of RFC 1952, for every seed |
| Crc.Composes | packers/exepak-1.5/ucl-1.02/src/ucl_crc.c:128-142 | calls on consecutive parts give the checksum of the whole |
| Crc.BurstIsDetected | packers/exepak-1.5/ucl-1.02/src/ucl_crc.c:114-144 | messages whose bits differ only within 32 consecutive places have different checksums |
| Sstrip.GetMemorySize | packers/exepak-1.5/sstrip/sstrip.c:121-148 | the least size that holds the headers and everything used entries refer to |
| Sstrip.ScanBack | packers/exepak-1.5/sstrip/sstrip.c:168-169 | the inner loop finds the last byte of the chunk that is not zero |
| Sstrip.TruncateZeros | packers/exepak-1.5/sstrip/sstrip.c:154-179 | the index after the last nonzero byte; fails exactly for a missing or blank part; ends unless only the first byte is not zero |
| Sstrip.EndsExactly | packers/exepak-1.5/sstrip/sstrip.c:158-171 | the outer loop comes to an end if and only if the first byte is not the only one that is not zero |
| Sstrip.StuckForever | packers/exepak-1.5/sstrip/sstrip.c:158-171 | if it is, every pass goes on, and the size comes down to one and stays there |
| Sstrip.SignatureUnsticks | packers/exepak-1.5/sstrip/sstrip.c:62-66 | the ELF signature rules that case out |
| Sstrip.ModifyHeaders | packers/exepak-1.5/sstrip/sstrip.c:185-218 | every entry keeps all but p_filesz, and the section header fields go when the table is cut off |
| Sstrip.CommitChanges | packers/exepak-1.5/sstrip/sstrip.c:223-265 | the headers stand where they are written, the size is the greater of the two, the rest of the file stays |
| Sstrip.Sstrip | packers/exepak-1.5/sstrip/sstrip.c:300-306 | an error leaves the file alone; success gives the stripped file, and is certain for a well-formed one |
| Sstrip.ImageKept | packers/exepak-1.5/sstrip/sstrip.c:205-215 | every used segment that does not wrap loads to the same bytes, zero-filled, except where it covers the two headers |
| Sstrip.KeptExactly | packers/exepak-1.5/sstrip/sstrip.c:205-215 | for every segment, also one that wraps around or is not used, and every byte outside the two headers: it loads as before if and only if it is not a nonzero byte of the file from the new size on |
| Sstrip.SegmentKept | packers/exepak-1.5/sstrip/sstrip.c:121-148 | which segments lose something, by what can be read before the call: a segment that begins behind the headers loads as before if and only if the file has only zeros in the part of it that lies behind the size that getmemorysize computes |
| Sstrip.WrappingLoses | packers/exepak-1.5/sstrip/sstrip.c:139-141 | a file of 85 bytes that is accepted, and whose one segment loses its first byte because its end wraps around 32 bits |
| Sstrip.EntryKept | packers/exepak-1.5/sstrip/sstrip.c:205-215 | type, offset, addresses, memory size, flags and alignment of every segment stay |
| Sstrip.OnlyUnusedGoes | packers/exepak-1.5/sstrip/sstrip.c:256-259 | a byte that goes and is not zero lies behind everything used entries refer to |
| Sstrip.MovedTable | packers/exepak-1.5/sstrip/sstrip.c:98-114 | when e_phoff points elsewhere, segments keep their place exactly if the bytes behind the ELF header agree with the table there |
| PfnList.Size | drivers/xen/malpage/malpage.c:675-688 | the number of nodes |
| PfnList.MkArray | drivers/xen/malpage/malpage.c:693-709 | the first `length` numbers in order, and zeros behind them |
| PfnList.FindParentOf | drivers/xen/malpage/malpage.c:741-756 | the node before the first later one with the number, or null when there is none |
| PfnList.MkUnique | drivers/xen/malpage/malpage.c:714-738 | what is left is the first occurrence of every number in the original order, in nodes of the old list; exactly the other nodes are freed, each once, and none is read after that; the result is their number |
| PfnList.ReportPfns | drivers/xen/malpage/malpage.c:1595-1606 | deduplication, size and array composed: the array has exactly the first occurrences, and its length is the list's |
| PfnList.FirstsIsSet | drivers/xen/malpage/malpage.c:724-735 | the first occurrences contain every number once, and nothing else |
| PfnList.FirstsSkips | drivers/xen/malpage/malpage.c:728-731 | unlinking a node whose number also stands further left keeps the first occurrences |
| XenMmu.VisitsExactly | linux-2.6-pvops.git/arch/x86/xen/mmu.c:724-813 | the walk calls back for exactly the non-empty entries up to the limit and outside the hole, at every level that is not folded, and for the directory |
| XenMmu.VisitsInOrder | linux-2.6-pvops.git/arch/x86/xen/mmu.c:761-810 | in the order of the indices, each table before what it holds, the directory last |
| XenMmu.Mmu.Walk | linux-2.6-pvops.git/arch/x86/xen/mmu.c:724-813 | the three nested loops with their jump out call back along that list; the results ORed together say whether a page of high memory was newly marked |
| XenMmu.FlushExactly | linux-2.6-pvops.git/arch/x86/xen/mmu.c:724-813 | a pinning walk asks for a flush if and only if it visits a page of high memory that was not marked |
| XenMmu.Mmu.XenPinPage | linux-2.6-pvops.git/arch/x86/xen/mmu.c:853-911 | flag, read-only mapping and single pin of a page that was not marked; a flush is asked for exactly for such a page in high memory |
| XenMmu.Mmu.XenUnpinPage | linux-2.6-pvops.git/arch/x86/xen/mmu.c:1002-1040 | the converse |
| XenMmu.Mmu.XenPgdPin | linux-2.6-pvops.git/arch/x86/xen/mmu.c:916-952 | the walk, the second page, and the directory's own pin; unused kernel mappings are flushed exactly for a page of the walk, the second page's result is dropped |
| XenMmu.Mmu.XenPgdUnpin | linux-2.6-pvops.git/arch/x86/xen/mmu.c:1043-1072 | the converse, in its order |
| XenMmu.Mmu.XenAllocPtpage | linux-2.6-pvops.git/arch/x86/xen/mmu.c:1539-1566 | a new table page is marked exactly if the directory is |
| XenMmu.Mmu.XenReleasePtpage | linux-2.6-pvops.git/arch/x86/xen/mmu.c:1579-1599 | a released page loses its marks |
| XenMmu.PinDirIs | linux-2.6-pvops.git/arch/x86/xen/mmu.c:916-952 | pinning marks everything that belongs to a directory, makes its lowmem pages read-only, and nothing else |
| XenMmu.PinThenUnpin | linux-2.6-pvops.git/arch/x86/xen/mmu.c:1043-1072 | pinning and unpinning a directory none of whose pages is marked, and whose second page is not in its tree, changes nothing |
| XenMmu.AttachReaches | linux-2.6-pvops.git/arch/x86/xen/mmu.c:1537-1566 | attaching a new page adds at most that page to what a walk reaches, and only for the directory that reaches its table |
| XenMmu.NextKeeps | linux-2.6-pvops.git/arch/x86/xen/mmu.c:1537-1599 | every operation keeps the invariant |
| XenMmu.RunKeeps | linux-2.6-pvops.git/arch/x86/xen/mmu.c:853-1072 | in every run of pin, unpin, alloc-and-attach and detach-and-release: a page in a tree is marked exactly if its directory is, read-only exactly if it is also in low memory, and singly pinned exactly if it is a lowmem page table of the lowest level and locks are split |

## Left out

- Files, processes, permissions, time stamps, temporary names, progress output and memory allocation: parameters or not modelled; writes always succeed.
- Match finding, lazy evaluation and statistics of the compressor: a parameter, any valid choice of tokens. `Finding.Found` says which tokens are taken where the bytes leave no choice; the hash chains, and the limits on how far they are followed, are not modelled.
- Failures.FindingLevels: says nothing of NRV2B at levels seven and eight; `Parsings.LevelsExactly` does, for all valid parsings.
- The capacity of the compressor's output buffer, which the code does not check: `NineBits.ShortFits` and `InPlace.CheapFits` say when a block fits.
- Input and output addresses: natural numbers, so that pointer sums do not wrap around.
- StubDecoder.Decompress: says nothing of blocks that the safe decoder rejects, or accepts only with room for 2^30 bytes or more, because the assembler has no checks and halves offsets with their sign.
- Decoder.Decompress: for the fast decoders, only runs that stay inside the memory are described; outside it C gives no meaning.
- Exepak.RunStub: the command line, the temporary directory, the second process and its execution; the stub's own variables are locals, since they lie in the part of the bss that is cleared.
- Exepak.CreateSfx: block sizes of 2^30 or more, and processes in which the sizes in the stub's header have come to 2^31 or more, are not described. The checks of the stub's own ELF header, which the stub as built passes, and the already-compressed marker are not modelled.
- Uclpack.DoDecompress: the benchmark mode and allocation failure (result four); with the fast decoders only sound files are described.
- Sstrip.KeptExactly: says nothing of the bytes of the two headers themselves, which are rewritten. Big-endian and 64-bit files are not modelled.
- Sstrip.ImageKept: leaves out segments whose end wraps around 32 bits; `Sstrip.KeptExactly` covers them.
- XenMmu.RunKeeps: guests with automatically translated memory, where nothing is marked page by page; locking and interrupts; lazy batches take effect when issued. `xen_mm_pin_all`, `xen_mm_unpin_all` and the marking of the initial page table are not modelled.
- PfnList.ReportPfns: list lengths fit C's int, and allocation succeeds; how the list is collected from the memory areas of a process is not modelled.
- The rest of the UCL library (initialisation, pointers, strings, allocation), the C version of the stub, the kernel code around the two files, ring buffers, grant tables and the Python daemons.
