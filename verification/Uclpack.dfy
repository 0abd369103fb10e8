/** uclpack: the container of checksummed blocks, each decompressed inside one buffer. */
module Uclpack {
  import opened Nrv
  import opened BitBuffer
  import opened Tokens
  import opened RoundTrip
  import opened InPlace
  import opened NineBits
  import opened Blocks
  import opened Regions
  import Adler
  import Decoder
  import Safety

  // --------------------------------------------------------------------- integers

  /** xwrite32. */
  function BigWord(v: uint32): (s: seq<byte>)
    ensures |s| == 4
  {
    [v / 0x100_0000, v / 0x1_0000 % 0x100, v / 0x100 % 0x100, v % 0x100]
  }

  /** xread32, on the four bytes read. */
  function BigEndian(s: seq<byte>): (v: uint32)
    requires |s| == 4
  {
    (s[3] as int) + (s[2] as int) * 0x100 + (s[1] as int) * 0x1_0000 + (s[0] as int) * 0x100_0000
  }

  lemma WordReadsBack(v: uint32)
    ensures BigEndian(BigWord(v)) == v
  {
    assert v / 0x100 == v / 0x1_0000 * 0x100 + v / 0x100 % 0x100;
    assert v / 0x1_0000 == v / 0x100_0000 * 0x100 + v / 0x1_0000 % 0x100;
  }

  lemma WordWritesBack(s: seq<byte>)
    requires |s| == 4
    ensures BigWord(BigEndian(s)) == s
  {
    var v := BigEndian(s);
    assert v / 0x100 == (s[2] as int) + (s[1] as int) * 0x100 + (s[0] as int) * 0x1_0000;
    assert v / 0x1_0000 == (s[1] as int) + (s[0] as int) * 0x100;
    assert v / 0x100_0000 == s[0];
  }

  // ---------------------------------------------------------------------- container

  const MAGIC: seq<byte> := [0x00, 0xe9, 0x55, 0x43, 0x4c, 0xff, 0x01, 0x1a]

  function Method(fmt: Format): byte
  {
    match fmt
    case Nrv2b => 0x2b
    case Nrv2d => 0x2d
    case Nrv2e => 0x2e
  }

  function FormatOf(code: byte): Option<Format>
  {
    if code == 0x2b then Some(Nrv2b) else if code == 0x2d then Some(Nrv2d)
    else if code == 0x2e then Some(Nrv2e) else None
  }

  /** What is packed, and how. */
  datatype Job = Job(fmt: Format, level: byte, fast: bool, blockSize: uint32, find: Finder, file: seq<byte>) {
    ghost predicate Sound() { blockSize > 0 && Finds(find, fmt, blockSize) }
    function Flags(): uint32 { if fast then 0 else 1 }
  }

  /** The packed block if it is shorter, and else the block. */
  function Kept(j: Job, block: seq<byte>): seq<byte>
    requires Chooses(j.find, j.fmt, block)
  {
    if |Packed(j.fmt, j.find, block)| < |block| then Packed(j.fmt, j.find, block) else block
  }

  /** The blocks of what is left of the file, from `at` on, and the end marker. */
  function Body(j: Job, at: nat): seq<byte>
    requires j.Sound() && at <= |j.file|
    decreases |j.file| - at
  {
    if at == |j.file| then BigWord(0)
    else
      var block := First(j.file[at..], j.blockSize);
      assert Chooses(j.find, j.fmt, block);
      BigWord(|block|) + BigWord(|Kept(j, block)|) + Kept(j, block) + Body(j, at + |block|)
  }

  function Head(j: Job): seq<byte>
  {
    MAGIC + BigWord(j.Flags()) + [Method(j.fmt), j.level] + BigWord(j.blockSize)
  }

  function Checksum(data: seq<byte>): uint32
  {
    Adler.ChecksumIsWord(1, data);
    Adler.Checksum(1, data)
  }

  function Tail(j: Job): seq<byte> { if j.fast then [] else BigWord(Checksum(j.file)) }

  function Container(j: Job): seq<byte>
    requires j.Sound()
  {
    Head(j) + Body(j, 0) + Tail(j)
  }

  // ----------------------------------------------------------------------- compress

  /** get_overhead keeps room: what is packed from `at` on is never longer than that allows. */
  predicate NoBlockGrows(j: Job, at: nat)
    requires j.Sound() && at <= |j.file|
    decreases |j.file| - at
  {
    at == |j.file| ||
    var block := First(j.file[at..], j.blockSize);
    assert Chooses(j.find, j.fmt, block);
    |Packed(j.fmt, j.find, block)| <= |block| + Overhead(|block|) && NoBlockGrows(j, at + |block|)
  }

  lemma BlockIsSlice(file: seq<byte>, at: nat, size: nat)
    requires at < |file| && size > 0
    ensures var block := First(file[at..], size);
            && 0 < |block| <= size && at + |block| <= |file|
            && block == file[at..at + |block|] && file[..at + |block|] == file[..at] + block
  {
  }

  lemma Chosen(j: Job, at: nat)
    requires j.Sound() && at < |j.file|
    ensures j.blockSize > 0 && Chooses(j.find, j.fmt, First(j.file[at..], j.blockSize))
  {
    assert Chooses(j.find, j.fmt, First(j.file[at..], j.blockSize));
  }

  lemma BodyUnfold(j: Job, at: nat)
    requires j.Sound() && at < |j.file|
    ensures var block := First(j.file[at..], j.blockSize);
            && Chooses(j.find, j.fmt, block) && at + |block| <= |j.file|
            && Body(j, at) == BigWord(|block|) + BigWord(|Kept(j, block)|) + Kept(j, block) + Body(j, at + |block|)
  {
    hide Chooses, Finds, Job.Sound, Kept, BigWord, Packed, First;
    Chosen(j, at);
    BlockIsSlice(j.file, at, j.blockSize);
  }

  lemma GrowsUnfold(j: Job, at: nat)
    requires j.Sound() && at < |j.file|
    ensures var block := First(j.file[at..], j.blockSize);
            && Chooses(j.find, j.fmt, block) && at + |block| <= |j.file|
            && NoBlockGrows(j, at) == (&& |Packed(j.fmt, j.find, block)| <= |block| + Overhead(|block|)
                                       && NoBlockGrows(j, at + |block|))
  {
    hide Chooses, Finds, Job.Sound, Packed, First;
    Chosen(j, at);
    BlockIsSlice(j.file, at, j.blockSize);
  }

  /** The checksum after one more block. */
  lemma NextChecksum(a: seq<byte>, b: seq<byte>)
    ensures Adler.Checksum(Checksum(a), b) == Checksum(a + b)
  {
    Adler.Composes(1, a, b);
  }

  /** What is written for one block, or nothing when packing fails its sanity check. */
  method PackBlock(j: Job, block: seq<byte>) returns (written: Option<seq<byte>>)
    requires Chooses(j.find, j.fmt, block) && |block| < 0x8000_0000
    ensures written.Some? <==> |Packed(j.fmt, j.find, block)| <= |block| + Overhead(|block|)
    ensures written.Some? ==> |Kept(j, block)| <= |block|
    ensures written.Some? ==> written.value == BigWord(|block|) + BigWord(|Kept(j, block)|) + Kept(j, block)
  {
    hide Packed, Chooses, BigWord;
    var out := CompressBlock(j.fmt, j.find, block);
    if |out| > |block| + Overhead(|block|) {
      return None;
    }
    var fo := BigWord(|block|);
    if |out| < |block| {
      fo := fo + BigWord(|out|) + out;
    } else {
      fo := fo + BigWord(|block|) + block;
    }
    return Some(fo);
  }

  /** do_compress: the result code, and the container when that is zero. */
  method DoCompress(j: Job) returns (r: nat, fo: seq<byte>)
    requires j.Sound() && j.blockSize < 0x8000_0000
    ensures r == if NoBlockGrows(j, 0) then 0 else 2
    ensures r == 0 ==> fo == Container(j)
  {
    hide Body, NoBlockGrows, BigWord, Kept, Packed, Chooses, Job.Sound, Adler.Checksum;
    var flags := j.Flags();
    fo := MAGIC + BigWord(flags) + [Method(j.fmt), j.level] + BigWord(j.blockSize);
    var checksum := Adler.Adler32(0, None);
    var at := 0;
    StartOfSums(j.file);
    assert fo == Head(j);
    while at < |j.file|
      invariant 0 <= at <= |j.file| && NoBlockGrows(j, 0) == NoBlockGrows(j, at)
      invariant fo + Body(j, at) == Head(j) + Body(j, 0)
      invariant flags == 1 ==> checksum == Checksum(j.file[..at])
    {
      BodyUnfold(j, at);
      GrowsUnfold(j, at);
      BlockIsSlice(j.file, at, j.blockSize);
      var block := First(j.file[at..], j.blockSize);
      NextChecksum(j.file[..at], block);
      if flags == 1 {
        checksum := Adler.Adler32(checksum, Some(block));
      }
      var written := PackBlock(j, block);
      if written.None? {
        return 2, fo;
      }
      fo := fo + written.value;
      at := at + |block|;
    }
    BodyEnds(j);
    fo := fo + BigWord(0);
    if flags == 1 {
      fo := fo + BigWord(checksum);
      assert j.file[..at] == j.file;
    }
    return 0, fo;
  }

  lemma StartOfSums(file: seq<byte>)
    ensures Checksum(file[..0]) == 1
  {
  }

  lemma BodyEnds(j: Job)
    requires j.Sound()
    ensures Body(j, |j.file|) == BigWord(0) && NoBlockGrows(j, |j.file|)
  {
  }

  // --------------------------------------------------------------------- decompress

  /** How a call ends: with a result code, or with exit(1) at a premature end of file. */
  datatype Ending = Return(r: nat) | Exit

  /** Whether the block z, placed at the top of the buffer, decompresses inside it: what
      test_overlap tells, whatever byte lies behind the buffer. */
  ghost predicate Settles(fmt: Format, z: seq<byte>, block: seq<byte>, blockSize: nat)
  {
    |z| <= blockSize && forall behind: byte :: SettlesBefore(fmt, z, block, blockSize, behind)
  }

  predicate SettlesBefore(fmt: Format, z: seq<byte>, block: seq<byte>, blockSize: nat, behind: byte)
    requires |z| <= blockSize
  {
    var o := Decode(Config(fmt, |z|, Overlap(|block|, blockSize + Overhead(blockSize) - |z|)), Input(W8, z + [behind]));
    o.Done? && o.status == Ok && o.store.view.Split? && o.store.view.out == block
  }

  /** Every block of the file, from `at` on, that is stored packed settles. */
  ghost predicate AllSettle(j: Job, at: nat)
    requires j.Sound() && at <= |j.file|
    decreases |j.file| - at
  {
    at == |j.file| ||
    var block := First(j.file[at..], j.blockSize);
    assert Chooses(j.find, j.fmt, block);
    KeptStands(j, block) && AllSettle(j, at + |block|)
  }

  /** What is stored for a block stands for it. */
  ghost predicate KeptStands(j: Job, block: seq<byte>)
    requires Chooses(j.find, j.fmt, block)
  {
    Stands(j.fmt, Kept(j, block), block, j.blockSize)
  }

  lemma SettleUnfold(j: Job, at: nat)
    requires j.Sound() && at < |j.file|
    ensures var block := First(j.file[at..], j.blockSize);
            && Chooses(j.find, j.fmt, block) && at + |block| <= |j.file|
            && AllSettle(j, at) == (KeptStands(j, block) && AllSettle(j, at + |block|))
  {
    hide Chooses, Finds, Job.Sound, KeptStands, First;
    Chosen(j, at);
    BlockIsSlice(j.file, at, j.blockSize);
  }

  /** Decoding a packed block that settles, in the buffer, with or without checks. */
  lemma SettledDecodes(fmt: Format, z: seq<byte>, block: seq<byte>, blockSize: nat, buf: seq<byte>)
    requires Settles(fmt, z, block, blockSize) && |buf| == blockSize + Overhead(blockSize) + 1
    requires var src := |buf| - 1 - |z|; buf[src..src + |z|] == z
    ensures |block| <= |buf|
    ensures forall mode | mode in {Fast, Safe(|block|)} ::
              var o := Decode(Config(fmt, |z|, mode), Store(W8, [], 0, Flat(buf, |buf| - 1 - |z|, 0, 0)));
              o.Done? && o.status == Ok
              && o.store.view == Flat(block + buf[|block|..], |buf| - 1 - |z|, 0, |block|)
  {
    var src := |buf| - 1 - |z|;
    assert buf[src..] == z + [buf[|buf| - 1]];
    assert SettlesBefore(fmt, z, block, blockSize, buf[|buf| - 1]);
    var o := Decode(Config(fmt, |z|, Overlap(|block|, src)), Input(W8, z + [buf[|buf| - 1]]));
    hide Decode;
    InPlaceIsCorrect(fmt, W8, buf, src, |z|, |block|, o.store);
  }

  predicate ValidHeader(fi: seq<byte>)
  {
    && |fi| >= 18 && fi[..8] == MAGIC && FormatOf(fi[12]).Some? && 1 <= fi[13] <= 10
    && 1024 <= BigEndian(fi[14..18]) <= 8 * 1024 * 1024
  }

  /** Step 1 of do_decompress. */
  method ReadHeader(fi: seq<byte>) returns (end: Option<Ending>, flags: uint32, fmt: Format, blockSize: uint32)
    ensures end.None? <==> ValidHeader(fi)
    ensures end.None? ==>
              flags == BigEndian(fi[8..12]) && Some(fmt) == FormatOf(fi[12]) && blockSize == BigEndian(fi[14..18])
    ensures end == Some(Return(1)) <==> |fi| < 8 || fi[..8] != MAGIC
    ensures end == Some(Exit) <==> 8 <= |fi| < 18 && fi[..8] == MAGIC
    ensures end == Some(Return(2)) <==>
              |fi| >= 18 && fi[..8] == MAGIC && (FormatOf(fi[12]).None? || !(1 <= fi[13] <= 10))
    ensures end.Some? ==> end.value in {Return(1), Exit, Return(2), Return(3)}
  {
    end, flags, fmt, blockSize := None, 0, Nrv2b, 0;
    if |fi| < 8 || fi[..8] != MAGIC {
      return Some(Return(1)), flags, fmt, blockSize;
    }
    if |fi| < 18 {
      return Some(Exit), flags, fmt, blockSize;
    }
    flags := BigEndian(fi[8..12]);
    var code, level := fi[12], fi[13];
    blockSize := BigEndian(fi[14..18]);
    if FormatOf(code).None? || level < 1 || level > 10 {
      return Some(Return(2)), flags, fmt, blockSize;
    }
    fmt := FormatOf(code).value;
    if blockSize < 1024 || blockSize > 8 * 1024 * 1024 {
      return Some(Return(3)), flags, fmt, blockSize;
    }
  }

  /** What the bytes of a block have to be for the block to come out. */
  ghost predicate Stands(fmt: Format, data: seq<byte>, block: seq<byte>, blockSize: nat)
  {
    if |data| == |block| then data == block else Settles(fmt, data, block, blockSize)
  }

  /** Whether decompressing the block z in the buffer is sure to end with an error, whatever else
      is in the buffer. */
  ghost predicate Breaks(fmt: Format, z: seq<byte>, outLen: nat, blockSize: nat)
  {
    |z| <= blockSize && forall buf: seq<byte> | |buf| == blockSize + Overhead(blockSize) + 1 ::
      BreaksIn(fmt, z, outLen, buf)
  }

  predicate BreaksIn(fmt: Format, z: seq<byte>, outLen: nat, buf: seq<byte>)
    requires |z| < |buf|
  {
    var src := |buf| - 1 - |z|;
    var o := Decode(Config(fmt, |z|, Safe(outLen)), Store(W8, [], 0, Flat(buf, src, 0, 0)));
    buf[src..src + |z|] == z ==> o.Done? && o.status != Ok
  }

  /** in = buf + buf_len - in_len, and xread to there. */
  method Place(buf: array<byte>, data: seq<byte>) returns (src: nat)
    requires |data| < buf.Length
    modifies buf
    ensures src == buf.Length - 1 - |data| && buf[src..src + |data|] == data
  {
    src := buf.Length - 1 - |data|;
    var i := 0;
    while i < |data|
      invariant 0 <= i <= |data| && buf[src..src + i] == data[..i]
    {
      buf[src + i] := data[i];
      i := i + 1;
    }
  }

  /** The decoder on a block that lies at the top of the buffer. */
  method UnpackPacked(buf: array<byte>, fmt: Format, fast: bool, src: nat, ghost data: seq<byte>,
                      inLen: nat, outLen: nat, ghost blockSize: nat, ghost block: seq<byte>)
      returns (written: Option<seq<byte>>)
    requires inLen == |data| < outLen <= blockSize <= 8 * 1024 * 1024
    requires buf.Length == blockSize + Overhead(blockSize) + 1
    requires src == buf.Length - 1 - inLen && buf[src..src + inLen] == data
    requires fast ==> |block| == outLen && Settles(fmt, data, block, blockSize)
    modifies buf
    ensures |block| == outLen && Settles(fmt, data, block, blockSize) ==> written == Some(block)
    ensures !fast && Breaks(fmt, data, outLen, blockSize) ==> written.None?
    ensures written.Some? ==> |written.value| == outLen
  {
    hide Decode, Settles;
    var mode := if fast then Fast else Safe(outLen);
    ghost var m := buf[..];
    assert m[src..src + inLen] == buf[src..src + inLen];
    if |block| == outLen && Settles(fmt, data, block, blockSize) {
      SettledDecodes(fmt, data, block, blockSize, m);
    }
    if !fast {
      Safety.SafeTotal(fmt, W8, m, src, inLen, 0, outLen);
      assert Breaks(fmt, data, outLen, blockSize) ==> BreaksIn(fmt, data, outLen, m);
    }
    var status, newLen := Decoder.Decompress(Decoder.Job(fmt, W8, mode, src, inLen, 0), buf);
    if status != Ok || newLen != outLen {
      return None;
    }
    assert buf[..outLen] == buf[..][..outLen];
    return Some(buf[..outLen]);
  }

  /** The body of the block loop behind the sanity check of the sizes. */
  method UnpackBlock(buf: array<byte>, fmt: Format, fast: bool, data: seq<byte>, outLen: nat,
                     ghost blockSize: nat, ghost block: seq<byte>)
      returns (written: Option<seq<byte>>)
    requires 0 < |data| <= outLen <= blockSize <= 8 * 1024 * 1024 && buf.Length == blockSize + Overhead(blockSize) + 1
    requires fast ==> |block| == outLen && Stands(fmt, data, block, blockSize)
    modifies buf
    ensures |block| == outLen && Stands(fmt, data, block, blockSize) ==> written == Some(block)
    ensures !fast && |data| < outLen && Breaks(fmt, data, outLen, blockSize) ==> written.None?
    ensures written.Some? ==> |written.value| == outLen
  {
    hide Settles, Breaks;
    var src := Place(buf, data);
    if |data| < outLen {
      written := UnpackPacked(buf, fmt, fast, src, data, |data|, outLen, blockSize, block);
    } else {
      return Some(buf[src..src + |data|]);
    }
  }

  /** The file is what do_compress wrote for p, perhaps with more behind it. */
  ghost predicate Written(fi: seq<byte>, p: Option<Job>)
  {
    p.Some? &&
    var j := p.value;
    && j.Sound() && AllSettle(j, 0)
    && 1 <= j.level <= 10 && 1024 <= j.blockSize <= 8 * 1024 * 1024
    && HoldsAt(fi, 0, Container(j))
  }

  /** The same, except that the first block of the file is stored packed and cannot come out. */
  ghost predicate Spoilt(fi: seq<byte>, p: Option<Job>)
  {
    p.Some? &&
    var j := p.value;
    && j.Sound() && j.file != [] && FirstBreaks(j)
    && 1 <= j.level <= 10 && 1024 <= j.blockSize <= 8 * 1024 * 1024
    && HoldsAt(fi, 0, Container(j))
  }

  ghost predicate FirstBreaks(j: Job)
    requires j.Sound() && j.file != []
  {
    var block := First(j.file, j.blockSize);
    assert Chooses(j.find, j.fmt, block);
    |Kept(j, block)| < |block| && Breaks(j.fmt, Kept(j, block), |block|, j.blockSize)
  }

  /** What is still to be read of such a file. */
  ghost predicate Remains(fi: seq<byte>, at: nat, j: Job, done: nat)
  {
    j.Sound() && done <= |j.file| && AllSettle(j, done) && HoldsAt(fi, at, Body(j, done) + Tail(j))
  }

  lemma HeadFields(fi: seq<byte>, flags: uint32, code: byte, level: byte, size: uint32, rest: seq<byte>)
    requires HoldsAt(fi, 0, MAGIC + BigWord(flags) + [code, level] + BigWord(size) + rest)
    ensures |fi| >= 18 && fi[..8] == MAGIC && BigEndian(fi[8..12]) == flags
    ensures fi[12] == code && fi[13] == level && BigEndian(fi[14..18]) == size
    ensures HoldsAt(fi, 18, rest)
  {
    WordReadsBack(flags);
    WordReadsBack(size);
    hide BigWord, BigEndian, HoldsAt;
    FrameHeld(fi, 0, MAGIC, BigWord(flags), [code, level], BigWord(size), rest);
    HoldsParts(fi, 14, BigWord(size), rest);
    HoldsWithin(fi, 18, rest);
    HeldSlice(fi, 0, MAGIC);
    HeldSlice(fi, 8, BigWord(flags));
    HeldSlice(fi, 12, [code, level]);
    HeldSlice(fi, 14, BigWord(size));
    assert fi[12] == fi[12..14][0] && fi[13] == fi[12..14][1];
  }

  lemma FormatOfMethod(fmt: Format)
    ensures FormatOf(Method(fmt)) == Some(fmt)
  {
  }

  lemma HeaderOf(fi: seq<byte>, j: Job)
    requires Written(fi, Some(j))
    ensures |fi| >= 18 && ValidHeader(fi) && Remains(fi, 18, j, 0)
    ensures BigEndian(fi[8..12]) == j.Flags() && FormatOf(fi[12]) == Some(j.fmt) && BigEndian(fi[14..18]) == j.blockSize
  {
    hide Body, BigWord, BigEndian, Job.Sound, AllSettle, HoldsAt, Tail, FormatOf, Method;
    FormatOfMethod(j.fmt);
    Associate(Head(j), Body(j, 0), Tail(j));
    HeadFields(fi, j.Flags(), Method(j.fmt), j.level, j.blockSize, Body(j, 0) + Tail(j));
  }

  ghost predicate BeginsBadly(fi: seq<byte>, j: Job, data: seq<byte>, block: seq<byte>)
  {
    && |fi| >= 22 && ValidHeader(fi) && FormatOf(fi[12]) == Some(j.fmt) && BigEndian(fi[14..18]) == j.blockSize
    && BigEndian(fi[18..22]) == |block| > 0 && Bad(fi, 22, j.fmt, j.blockSize, data, |block|)
  }

  /** A block that settles does not break. */
  lemma NotBoth(fmt: Format, z: seq<byte>, block: seq<byte>, blockSize: nat)
    requires Settles(fmt, z, block, blockSize)
    ensures !Breaks(fmt, z, |block|, blockSize)
  {
    hide Decode, Settles;
    SettledFits(fmt, z, block, blockSize);
    var n := blockSize + Overhead(blockSize) - |z|;
    var buf := seq(n, _ => 0 as byte) + z + [0];
    assert buf[n..n + |z|] == z;
    SettledDecodes(fmt, z, block, blockSize, buf);
    assert !BreaksIn(fmt, z, |block|, buf);
  }

  lemma SettledFits(fmt: Format, z: seq<byte>, block: seq<byte>, blockSize: nat)
    requires Settles(fmt, z, block, blockSize)
    ensures |z| <= blockSize
  {
  }

  lemma NeverBoth(fi: seq<byte>, j: Job)
    requires Written(fi, Some(j))
    ensures !Spoilt(fi, Some(j))
  {
    hide HoldsAt, Container, Kept, Settles, Breaks, Chooses;
    if Spoilt(fi, Some(j)) {
      SettleUnfold(j, 0);
      assert j.file[0..] == j.file;
      var block := First(j.file, j.blockSize);
      NotBoth(j.fmt, Kept(j, block), block, j.blockSize);
    }
  }

  /** The start of a spoilt file. */
  lemma SpoiltStart(fi: seq<byte>, j: Job) returns (data: seq<byte>, block: seq<byte>)
    requires Spoilt(fi, Some(j))
    ensures BeginsBadly(fi, j, data, block)
  {
    hide Body, BigWord, BigEndian, Job.Sound, HoldsAt, Tail, FormatOf, Method, Kept, Breaks, Chooses, First;
    FormatOfMethod(j.fmt);
    Associate(Head(j), Body(j, 0), Tail(j));
    HeadFields(fi, j.Flags(), Method(j.fmt), j.level, j.blockSize, Body(j, 0) + Tail(j));
    BodyUnfold(j, 0);
    assert j.file[0..] == j.file;
    block := First(j.file, j.blockSize);
    data := Kept(j, block);
    BlockIsSlice(j.file, 0, j.blockSize);
    KeptSize(j, block);
    FrameHeld(fi, 18, BigWord(|block|), BigWord(|data|), data, Body(j, |block|), Tail(j));
    HeldSlice(fi, 18, BigWord(|block|));
    WordReadsBack(|block|);
  }

  lemma Associate(a: seq<byte>, b: seq<byte>, c: seq<byte>)
    ensures a + b + c == a + (b + c)
  {
  }

  lemma KeptSize(j: Job, block: seq<byte>)
    requires Chooses(j.find, j.fmt, block) && block != []
    ensures 0 < |Kept(j, block)| <= |block|
  {
    PackedNotEmpty(j.fmt, j.find, block);
  }

  /** The next block of such a file, or its end. */
  lemma NextBlock(fi: seq<byte>, at: nat, j: Job, done: nat)
    requires Remains(fi, at, j, done)
    ensures at + 4 <= |fi| && j.Sound() && done <= |j.file|
    ensures done == |j.file| ==> BigEndian(fi[at..at + 4]) == 0 && HoldsAt(fi, at + 4, Tail(j))
    ensures done < |j.file| ==>
              var block := First(j.file[done..], j.blockSize);
              && Chooses(j.find, j.fmt, block) && block != []
              && BigEndian(fi[at..at + 4]) == |block|
              && 0 < |Kept(j, block)| <= |block| <= j.blockSize
              && HoldsAt(fi, at + 4, BigWord(|Kept(j, block)|))
              && HoldsAt(fi, at + 8, Kept(j, block)) && KeptStands(j, block)
              && Remains(fi, at + 8 + |Kept(j, block)|, j, done + |block|)
  {
    hide Kept, BigWord, Job.Sound, AllSettle, HoldsAt, Tail, Body, Chooses, KeptStands;
    if done == |j.file| {
      BodyEnds(j);
      HoldsParts(fi, at, BigWord(0), Tail(j));
      HeldSlice(fi, at, BigWord(0));
      WordReadsBack(0);
    } else {
      var block := First(j.file[done..], j.blockSize);
      BodyUnfold(j, done);
      SettleUnfold(j, done);
      BlockIsSlice(j.file, done, j.blockSize);
      KeptSize(j, block);
      FrameHeld(fi, at, BigWord(|block|), BigWord(|Kept(j, block)|), Kept(j, block), Body(j, done + |block|), Tail(j));
      HeldSlice(fi, at, BigWord(|block|));
      WordReadsBack(|block|);
    }
  }

  /** At `at` there is a block that will come out as `block`. */
  ghost predicate Ready(fi: seq<byte>, at: nat, fmt: Format, blockSize: nat, data: seq<byte>, block: seq<byte>)
  {
    && 0 < |data| <= |block| <= blockSize < 0x8000_0000
    && HoldsAt(fi, at, BigWord(|data|)) && HoldsAt(fi, at + 4, data)
    && Stands(fmt, data, block, blockSize)
  }

  /** At `at` there is a packed block that cannot come out. */
  ghost predicate Bad(fi: seq<byte>, at: nat, fmt: Format, blockSize: nat, data: seq<byte>, outLen: nat)
  {
    && 0 < |data| < outLen <= blockSize <= LARGEST_BLOCK
    && HoldsAt(fi, at, BigWord(|data|)) && HoldsAt(fi, at + 4, data)
    && Breaks(fmt, data, outLen, blockSize)
  }

  /** One turn of the block loop, behind the uncompressed size. */
  method ReadBlock(fi: seq<byte>, at0: nat, outLen: nat, buf: array<byte>, fmt: Format, fast: bool, blockSize: uint32,
                   ghost good: bool, ghost data: seq<byte>, ghost block: seq<byte>)
      returns (end: Option<Ending>, at: nat, written: seq<byte>)
    requires at0 <= |fi| && outLen > 0 && blockSize <= 8 * 1024 * 1024
    requires buf.Length == blockSize + Overhead(blockSize) + 1
    requires good ==> |block| == outLen && Ready(fi, at0, fmt, blockSize, data, block)
    requires fast ==> good
    modifies buf
    ensures good ==> end.None? && written == block && at == at0 + 4 + |data|
    ensures !fast && Bad(fi, at0, fmt, blockSize, data, outLen) ==> end == Some(Return(6))
    ensures end.None? ==> at0 < at <= |fi| && |written| == outLen
    ensures end.Some? ==> end.value in {Exit, Return(5), Return(6)}
  {
    hide Stands, HoldsAt, BigWord, BigEndian, Breaks;
    at, written := at0, [];
    if good || Bad(fi, at0, fmt, blockSize, data, outLen) {
      HeldSlice(fi, at0, BigWord(|data|));
      HeldSlice(fi, at0 + 4, data);
      WordReadsBack(|data|);
    }
    if at + 4 > |fi| {
      return Some(Exit), at, written;
    }
    var inLen := BigEndian(fi[at..at + 4]);
    at := at + 4;
    if inLen > blockSize || outLen > blockSize || inLen == 0 || inLen > outLen {
      return Some(Return(5)), at, written;
    }
    if at + inLen > |fi| {
      return Some(Exit), at, written;
    }
    var got := UnpackBlock(buf, fmt, fast, fi[at..at + inLen], outLen, blockSize, block);
    if got.None? {
      return Some(Return(6)), at, written;
    }
    return None, at + inLen, got.value;
  }

  /** The checksum step: a word that has to match. */
  method ReadChecksum(fi: seq<byte>, at: nat, fast: bool, checksum: uint32) returns (end: Ending)
    ensures end == Return(0) && !fast ==> HoldsAt(fi, at, BigWord(checksum))
    ensures HoldsAt(fi, at, BigWord(checksum)) ==> end == Return(0)
    ensures fast && at + 4 <= |fi| ==> end == Return(0)
    ensures end in {Return(0), Exit, Return(7)}
  {
    hide BigWord, BigEndian;
    if at + 4 > |fi| {
      return Exit;
    }
    var c := BigEndian(fi[at..at + 4]);
    WordWritesBack(fi[at..at + 4]);
    WordReadsBack(checksum);
    if !fast && c != checksum {
      return Return(7);
    }
    return Return(0);
  }

  /** What is known between two blocks. */
  ghost predicate Between(fi: seq<byte>, at: nat, fo: seq<byte>, p: Option<Job>)
  {
    p.Some? && Written(fi, p) ==>
      Remains(fi, at, p.value, |fo|) && fo == p.value.file[..|fo|]
  }

  /** The block loop. */
  method ReadBlocks(fi: seq<byte>, fast: bool, flags: uint32, fmt: Format, blockSize: uint32, ghost p: Option<Job>)
      returns (end: Option<Ending>, at: nat, fo: seq<byte>, checksum: uint32)
    requires |fi| >= 18 && 1024 <= blockSize <= 8 * 1024 * 1024 && Between(fi, 18, [], p)
    requires Written(fi, p) ==> fmt == p.value.fmt && blockSize == p.value.blockSize
    requires Spoilt(fi, p) ==> fmt == p.value.fmt && blockSize == p.value.blockSize
    requires fast ==> Written(fi, p)
    ensures Written(fi, p) ==> end.None? && fo == p.value.file && HoldsAt(fi, at, Tail(p.value))
    ensures !fast && Spoilt(fi, p) ==> end == Some(Return(6))
    ensures end.None? ==> at <= |fi| && (flags % 2 == 1 && !fast ==> checksum == Checksum(fo))
    ensures end.Some? ==> end.value in {Exit, Return(5), Return(6)}
  {
    hide Remains, HoldsAt, Written, Tail, Kept, Ready, BigEndian, BigWord, Job.Sound, AllSettle, Chooses;
    hide Spoilt, Bad;
    var buf := new byte[blockSize + Overhead(blockSize) + 1];
    at, fo, end := 18, [], None;
    checksum := Adler.Adler32(0, None);
    StartOfSums([]);
    WrittenIsSome(fi, p);
    if p.Some? && Written(fi, p) {
      NeverBoth(fi, p.value);
    }
    while true
      invariant end.None? && 18 <= at <= |fi| && Between(fi, at, fo, p)
      invariant !fast && Spoilt(fi, p) ==> at == 18
      invariant flags % 2 == 1 && !fast ==> checksum == Checksum(fo)
      decreases |fi| - at
    {
      ghost var good, data, block := false, [], [];
      if p.Some? && Written(fi, p) {
        good, data, block := Expects(fi, at, |fo|, p.value);
      } else if !fast && p.Some? && Spoilt(fi, p) {
        data, block := SpoiltStart(fi, p.value);
      }
      if at + 4 > |fi| {
        return Some(Exit), at, fo, checksum;
      }
      var outLen := BigEndian(fi[at..at + 4]);
      at := at + 4;
      if outLen == 0 {
        return None, at, fo, checksum;
      }
      ghost var start := at;
      var written;
      end, at, written := ReadBlock(fi, at, outLen, buf, fmt, fast, blockSize, good, data, block);
      if end.Some? {
        return end, at, fo, checksum;
      }
      NextChecksum(fo, written);
      if flags % 2 == 1 && !fast {
        checksum := Adler.Adler32(checksum, Some(written));
      }
      fo := fo + written;
    }
  }

  /** What the next turn will read from a file that do_compress wrote. */
  lemma Expects(fi: seq<byte>, at: nat, done: nat, j: Job) returns (good: bool, data: seq<byte>, block: seq<byte>)
    requires Written(fi, Some(j)) && Remains(fi, at, j, done)
    ensures Expected(fi, at, done, j, good, data, block)
  {
    hide Remains, HoldsAt, Tail, Kept, Stands, BigEndian, BigWord, Chooses, AllSettle, Job.Sound;
    RemainsWithin(fi, at, j, done);
    NextBlock(fi, at, j, done);
    good, data, block := done < |j.file|, [], [];
    if good {
      block := First(j.file[done..], j.blockSize);
      BlockIsSlice(j.file, done, j.blockSize);
      data := Kept(j, block);
    }
  }

  ghost predicate Expected(fi: seq<byte>, at: nat, done: nat, j: Job, good: bool, data: seq<byte>, block: seq<byte>)
  {
    && at + 4 <= |fi| && done <= |j.file| && (good <==> done < |j.file|)
    && (!good ==> BigEndian(fi[at..at + 4]) == 0 && HoldsAt(fi, at + 4, Tail(j)))
    && (good ==> BigEndian(fi[at..at + 4]) == |block| > 0 && Ready(fi, at + 4, j.fmt, j.blockSize, data, block))
    && (good ==> Remains(fi, at + 8 + |data|, j, done + |block|) && Follows(j.file, done, block))
  }

  predicate Follows(file: seq<byte>, done: nat, block: seq<byte>)
  {
    done + |block| <= |file| && file[..done + |block|] == file[..done] + block
  }

  lemma RemainsWithin(fi: seq<byte>, at: nat, j: Job, done: nat)
    requires Remains(fi, at, j, done)
    ensures j.Sound() && done <= |j.file|
  {
  }

  /** When the flags ask for it, the file has the checksum of fo. */
  ghost predicate Checked(fi: seq<byte>, fo: seq<byte>)
  {
    |fi| >= 12 && BigEndian(fi[8..12]) % 2 == 1 ==> exists at: nat :: HoldsAt(fi, at, BigWord(Checksum(fo)))
  }

  /** do_decompress on the file fi. On a file that do_compress wrote, it returns zero and the
      file that was packed. On any file at all it ends, without a fault, with one of the result
      codes of the program, and with zero only behind a valid header and a checksum that is
      that of its output. When the first block breaks, that is a data error. The fast decoders,
      which -F selects, need a sound file. */
  method DoDecompress(fi: seq<byte>, fast: bool, ghost p: Option<Job>) returns (end: Ending, fo: seq<byte>)
    requires fast ==> Written(fi, p)
    ensures Written(fi, p) ==> end == Return(0) && fo == p.value.file
    ensures |fi| < 8 || fi[..8] != MAGIC <==> end == Return(1)
    ensures !ValidHeader(fi) ==> end in {Return(1), Exit, Return(2), Return(3)} && fo == []
    ensures ValidHeader(fi) ==> end in {Return(0), Exit, Return(5), Return(6), Return(7)}
    ensures !fast && Spoilt(fi, p) ==> end == Return(6)
    ensures ValidHeader(fi) && end == Return(0) && !fast ==> Checked(fi, fo)
  {
    hide Written, HoldsAt, BigWord, BigEndian, Remains, Tail, Job.Sound, Spoilt, Bad;
    if p.Some? && Written(fi, p) {
      HeaderOf(fi, p.value);
    } else if p.Some? && Spoilt(fi, p) {
      ghost var data, block := SpoiltStart(fi, p.value);
    }
    WrittenIsSome(fi, p);
    var bad, flags, fmt, blockSize := ReadHeader(fi);
    if bad.Some? {
      return bad.value, [];
    }
    var stop, at, checksum;
    stop, at, fo, checksum := ReadBlocks(fi, fast, flags, fmt, blockSize, p);
    if stop.Some? {
      return stop.value, fo;
    }
    end := Return(0);
    if flags % 2 == 1 {
      if Written(fi, p) {
        TailIs(fi, at, p.value);
      }
      end := ReadChecksum(fi, at, fast, checksum);
    }
  }

  lemma WrittenIsSome(fi: seq<byte>, p: Option<Job>)
    ensures Written(fi, p) || Spoilt(fi, p) ==> p.Some?
  {
  }

  lemma TailIs(fi: seq<byte>, at: nat, j: Job)
    requires HoldsAt(fi, at, Tail(j)) && j.Flags() == 1
    ensures at + 4 <= |fi| && HoldsAt(fi, at, BigWord(Checksum(j.file)))
  {
  }

  // --------------------------------------------------------- when every block settles

  /** No token of any block of the file, from `at` on, costs more than nine bits for a byte. */
  predicate AllCheap(j: Job, at: nat)
    requires j.Sound() && at <= |j.file|
    decreases |j.file| - at
  {
    at == |j.file| ||
    var block := First(j.file[at..], j.blockSize);
    assert Chooses(j.find, j.fmt, block);
    Cheap(j.fmt, j.find(block), 1) && AllCheap(j, at + |block|)
  }

  lemma CheapUnfold(j: Job, at: nat)
    requires j.Sound() && at < |j.file|
    ensures var block := First(j.file[at..], j.blockSize);
            && Chooses(j.find, j.fmt, block) && at + |block| <= |j.file|
            && AllCheap(j, at) == (Cheap(j.fmt, j.find(block), 1) && AllCheap(j, at + |block|))
  {
    hide Finds, Job.Sound, Cheap, First, Expand;
    Chosen(j, at);
    BlockIsSlice(j.file, at, j.blockSize);
  }

  lemma CheapSettlesBefore(fmt: Format, ts: seq<Token>, block: seq<byte>, blockSize: nat, behind: byte)
    requires Valid(fmt, ts, 0) && Cheap(fmt, ts, 1) && block == Expand(ts, [])
    requires |block| <= blockSize < 0x8000_0000 && |Compressed(fmt, W8, ts)| <= blockSize
    ensures SettlesBefore(fmt, Compressed(fmt, W8, ts), block, blockSize, behind)
  {
    hide Decode, Cheap, Compressed, Expand, Reachable, AllCodable, Total;
    var z := Compressed(fmt, W8, ts);
    ExpandLength(ts, []);
    OverheadSuffices(fmt, W8, ts, blockSize, z, blockSize + Overhead(blockSize) - |z|, [behind]);
  }

  /** A block of cheap tokens passes the check of do_compress, and what is stored stands for it. */
  lemma CheapBlock(j: Job, block: seq<byte>)
    requires Chooses(j.find, j.fmt, block) && Cheap(j.fmt, j.find(block), 1)
    requires |block| <= j.blockSize < 0x8000_0000
    ensures |Packed(j.fmt, j.find, block)| <= |block| + Overhead(|block|)
    ensures KeptStands(j, block)
  {
    var ts := j.find(block);
    ExpandLength(ts, []);
    CheapFits(j.fmt, W8, ts);
    hide SettlesBefore, Valid, Cheap, Compressed;
    if |Packed(j.fmt, j.find, block)| < |block| {
      forall behind: byte
        ensures SettlesBefore(j.fmt, Packed(j.fmt, j.find, block), block, j.blockSize, behind)
      {
        CheapSettlesBefore(j.fmt, ts, block, j.blockSize, behind);
      }
    }
  }

  lemma SettleEnds(j: Job)
    requires j.Sound()
    ensures AllSettle(j, |j.file|) && AllCheap(j, |j.file|)
  {
  }

  lemma {:induction false} CheapSettles(j: Job, at: nat)
    requires j.Sound() && at <= |j.file| && AllCheap(j, at) && j.blockSize < 0x8000_0000
    ensures NoBlockGrows(j, at) && AllSettle(j, at)
    decreases |j.file| - at
  {
    hide Job.Sound, Packed, Chooses, Cheap, KeptStands, AllCheap, AllSettle, NoBlockGrows;
    if at == |j.file| {
      BodyEnds(j);
      SettleEnds(j);
    } else {
      CheapUnfold(j, at);
      GrowsUnfold(j, at);
      SettleUnfold(j, at);
      Chosen(j, at);
      BlockIsSlice(j.file, at, j.blockSize);
      CheapBlock(j, First(j.file[at..], j.blockSize));
      CheapSettles(j, at + |First(j.file[at..], j.blockSize)|);
    }
  }

  /** When no block of the file costs more than nine bits for a byte, packing succeeds, and
      what is written, with anything behind it, is what do_decompress undoes. */
  lemma CheapRoundTrip(j: Job, trailing: seq<byte>)
    requires j.Sound() && AllCheap(j, 0) && 1 <= j.level <= 10 && 1024 <= j.blockSize <= LARGEST_BLOCK
    ensures NoBlockGrows(j, 0) && Written(Container(j) + trailing, Some(j))
  {
    hide AllSettle, AllCheap, Job.Sound, Container, NoBlockGrows;
    CheapSettles(j, 0);
  }

  /** So is every block that the parser can be given. */
  ghost predicate NeverDear(find: Finder, fmt: Format, size: nat)
  {
    forall block: seq<byte> | 0 < |block| <= size && Chooses(find, fmt, block) :: Cheap(fmt, find(block), 1)
  }

  lemma {:induction false} NeverDearIsCheap(j: Job, at: nat)
    requires j.Sound() && at <= |j.file| && NeverDear(j.find, j.fmt, j.blockSize)
    ensures AllCheap(j, at)
    decreases |j.file| - at
  {
    hide Job.Sound, Cheap, AllCheap, Expand, Valid, First;
    if at == |j.file| {
      SettleEnds(j);
    } else {
      CheapUnfold(j, at);
      Chosen(j, at);
      BlockIsSlice(j.file, at, j.blockSize);
      NeverDearIsCheap(j, at + |First(j.file[at..], j.blockSize)|);
    }
  }

  /** The round trip, for every file, every parsing of its blocks and every level: up to that
      block size, packing succeeds, and do_decompress undoes what was written. The block size
      that uclpack has of its own is 0x4_0000, and its method NRV2D. */
  lemma RoundTripUpTo(j: Job, trailing: seq<byte>)
    requires j.Sound() && 1 <= j.level <= 10 && 1024 <= j.blockSize <= AlwaysCheap(j.fmt)
    ensures NoBlockGrows(j, 0) && Written(Container(j) + trailing, Some(j))
  {
    hide AllCheap, Job.Sound, Container, NoBlockGrows, Written, Cheap, Expand, Total;
    forall block: seq<byte> | 0 < |block| <= j.blockSize && Chooses(j.find, j.fmt, block)
      ensures Cheap(j.fmt, j.find(block), 1)
    {
      ExpandLength(j.find(block), []);
      ShortIsCheap(j.fmt, j.find(block));
    }
    NeverDearIsCheap(j, 0);
    CheapRoundTrip(j, trailing);
  }

  /** A match finder that looks no further back than n bytes. */
  ghost predicate LooksBack(find: Finder, size: nat, n: nat)
  {
    forall block: seq<byte> | 0 < |block| <= size :: OffsetsUpTo(find(block), n)
  }

  /** And for every block size, when the matches come from the window of the level, up to level
      nine of NRV2D and NRV2E, and six of NRV2B. The level that uclpack has of its own is seven. */
  lemma RoundTripInWindow(j: Job, trailing: seq<byte>)
    requires j.Sound() && 1024 <= j.blockSize <= LARGEST_BLOCK
    requires 1 <= j.level <= if j.fmt.Nrv2b? then 6 else 9
    requires LooksBack(j.find, j.blockSize, Window(j.level))
    ensures NoBlockGrows(j, 0) && Written(Container(j) + trailing, Some(j))
  {
    hide AllCheap, Job.Sound, Container, NoBlockGrows, Written, Cheap, Expand, Total;
    WindowIsCheap(j.fmt, j.level);
    forall block: seq<byte> | 0 < |block| <= j.blockSize && Chooses(j.find, j.fmt, block)
      ensures Cheap(j.fmt, j.find(block), 1)
    {
      ExpandLength(j.find(block), []);
      assert OffsetsUpTo(j.find(block), Window(j.level));
      NearIsCheap(j.fmt, j.find(block));
    }
    NeverDearIsCheap(j, 0);
    CheapRoundTrip(j, trailing);
  }
}
