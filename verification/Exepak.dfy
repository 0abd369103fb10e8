/** exepak: a self-extracting executable, and the stub that unpacks it. The program bytes that
    the stub writes are the bytes that were packed. */
module Exepak {
  import opened Nrv
  import opened BitBuffer
  import opened Layout
  import opened RoundTrip
  import opened Blocks
  import opened Regions
  import opened Simulation
  import opened Elf
  import Decoder
  import StubDecoder

  function Word(v: nat): (s: seq<byte>)
    ensures |s| == 4
  {
    WordBytes(v, 4)
  }

  // ------------------------------------------------------------- the compressed file

  /** What is written for a block: the packed block, or the block when packing does not make
      it shorter. */
  function Kept(find: Finder, block: seq<byte>): seq<byte>
    requires Chooses(find, Nrv2e, block)
  {
    if |Packed(Nrv2e, find, block)| >= |block| then block else Packed(Nrv2e, find, block)
  }

  function Framed(find: Finder, block: seq<byte>): seq<byte>
    requires Chooses(find, Nrv2e, block)
  {
    Word(|Kept(find, block)|) + Word(|block|) + Kept(find, block)
  }

  function Frames(find: Finder, size: nat, file: seq<byte>): seq<byte>
    requires size > 0 && Finds(find, Nrv2e, size)
    decreases |file|
  {
    if file == [] then []
    else
      var block := First(file, size);
      assert Chooses(find, Nrv2e, block);
      Framed(find, block) + Frames(find, size, file[|block|..])
  }

  lemma Chosen(find: Finder, size: nat, block: seq<byte>)
    requires Finds(find, Nrv2e, size) && 0 < |block| <= size
    ensures Chooses(find, Nrv2e, block)
  {
  }

  lemma FramesUnfold(find: Finder, size: nat, file: seq<byte>)
    requires size > 0 && Finds(find, Nrv2e, size) && file != []
    ensures var block := First(file, size);
            && Chooses(find, Nrv2e, block)
            && Frames(find, size, file) == Framed(find, block) + Frames(find, size, file[|block|..])
  {
    Chosen(find, size, First(file, size));
    hide Framed, Chooses, Finds;
  }

  lemma FramesTurn(find: Finder, size: nat, file: seq<byte>, at: nat, of: seq<byte>)
    requires size > 0 && Finds(find, Nrv2e, size) && at < |file|
    ensures var block := First(file[at..], size);
            && Chooses(find, Nrv2e, block)
            && of + Frames(find, size, file[at..])
               == (of + Framed(find, block)) + Frames(find, size, file[at + |block|..])
  {
    hide Frames, Framed, Chooses, Finds;
    var block := First(file[at..], size);
    assert file[at..][|block|..] == file[at + |block|..];
    FramesUnfold(find, size, file[at..]);
  }

  /** One block: packed, or as it is, with the two sizes before it. */
  method FrameBlock(find: Finder, inbuf: seq<byte>) returns (written: seq<byte>)
    requires Chooses(find, Nrv2e, inbuf) && |inbuf| < 0x8000_0000
    ensures written == Framed(find, inbuf)
  {
    hide Chooses, Word;
    var outbuf := CompressBlock(Nrv2e, find, inbuf);
    var frombuf := outbuf;
    if |outbuf| >= |inbuf| {
      frombuf := inbuf;
    }
    return Word(|frombuf|) + Word(|inbuf|) + frombuf;
  }

  /** The copy loop of create_sfx_binary. */
  method CompressFile(find: Finder, size: nat, file: seq<byte>) returns (of: seq<byte>)
    requires 0 < size < 0x4000_0000 && Finds(find, Nrv2e, size)
    ensures of == Frames(find, size, file)
  {
    hide Frames, Chooses, Framed, Finds;
    var at := 0;
    of := [];
    assert file[0..] == file;
    while at < |file|
      invariant at <= |file| && of + Frames(find, size, file[at..]) == Frames(find, size, file)
    {
      FramesTurn(find, size, file, at, of);
      var inbuf := First(file[at..], size);
      var written := FrameBlock(find, inbuf);
      of := of + written;
      at := at + |inbuf|;
    }
    FramesEnd(find, size);
    assert file[at..] == [];
  }

  lemma FramesEnd(find: Finder, size: nat)
    requires size > 0 && Finds(find, Nrv2e, size)
    ensures Frames(find, size, []) == []
  {
  }

  // --------------------------------------------------------------- the executable file

  /** The part of the data segment's program header that matters here. */
  datatype Segment = Segment(offset: nat, filesz: nat, memsz: nat) {
    /** stub_wsize: where its bytes in the file end. */
    function End(): nat { offset + filesz }
  }

  function ZeroBytes(n: nat): (s: seq<byte>)
    ensures |s| == n
  {
    seq(n, _ => 0)
  }

  /** The segment in memory: the bytes of the file, then zeros. */
  function Loaded(exe: seq<byte>, seg: Segment): seq<byte>
    requires seg.offset + seg.filesz <= |exe| && seg.filesz <= seg.memsz
  {
    exe[seg.offset..seg.offset + seg.filesz] + ZeroBytes(seg.memsz - seg.filesz)
  }

  /** The last n bytes first. */
  function Rotated(s: seq<byte>, n: nat): seq<byte>
    requires n <= |s|
  {
    s[|s| - n..] + s[..|s| - n]
  }

  /** What the header of the stub says: its data segment is the last thing in the written part,
      and its bss is no smaller than the two words before the compressed file. */
  predicate StubSegment(seg: Segment)
  {
    seg.filesz + 8 <= seg.memsz < 0x8000_0000 && seg.End() < 0x8000_0000
  }

  /** Number of bytes that the stub has to move. */
  function Zbufsz(seg: Segment): nat
    requires seg.filesz + 8 <= seg.memsz
  {
    seg.memsz - seg.filesz - 8
  }

  /** The header of the data segment after n bytes were appended. It is changed in place, in
      the only copy of the stub that the program has. */
  function Appending(seg: Segment, n: nat): Segment
  {
    seg.(filesz := seg.filesz + (8 + n), memsz := seg.memsz + (8 + n + 4))
  }

  /** Where entry one of the program header table is, that of the data segment. */
  function DataEntry(stub: seq<byte>): nat
    requires |stub| >= EHSIZE
  {
    Get32(stub, 28) + PHSIZE
  }

  function SegmentOf(stub: seq<byte>): Segment
    requires |stub| >= EHSIZE && DataEntry(stub) + PHSIZE <= |stub|
  {
    var d := DataEntry(stub);
    Segment(Get32(stub, d + 4), Get32(stub, d + 16), Get32(stub, d + 20))
  }

  /** The two headers are where the linker puts them, in front of the data segment. */
  predicate StubImage(stub: seq<byte>)
  {
    && |stub| >= EHSIZE && EHSIZE <= DataEntry(stub) && DataEntry(stub) + PHSIZE <= |stub|
    && StubSegment(SegmentOf(stub)) && DataEntry(stub) + PHSIZE <= SegmentOf(stub).offset
  }

  /** The stub without references to a section header table. */
  function NoSections(stub: seq<byte>): (r: seq<byte>)
    requires |stub| >= EHSIZE
    ensures |r| == |stub|
  {
    Write(Write(stub, 32, [0, 0, 0, 0]), 46, [0, 0, 0, 0, 0, 0])
  }

  /** The memory after the header was changed for n bytes that are appended. */
  function Patched(stub: seq<byte>, n: nat): (r: seq<byte>)
    requires StubImage(stub)
    ensures |r| == |stub|
  {
    var d, seg := DataEntry(stub), Appending(SegmentOf(stub), n);
    Put32(Put32(NoSections(stub), d + 16, U32(seg.filesz)), d + 20, U32(seg.memsz))
  }

  lemma NoSectionsKeeps(stub: seq<byte>, i: nat)
    requires |stub| >= EHSIZE && i + 4 <= |stub| && (i == 28 || i >= EHSIZE)
    ensures Get32(NoSections(stub), i) == Get32(stub, i)
  {
    hide Write, Get32;
    GetKept(stub, 32, [0, 0, 0, 0], i);
    GetKept(Write(stub, 32, [0, 0, 0, 0]), 46, [0, 0, 0, 0, 0, 0], i);
  }

  lemma PutKeeps(s: seq<byte>, at: nat, v: uint32, i: nat)
    requires at + 4 <= |s| && i + 4 <= |s| && (i + 4 <= at || at + 4 <= i)
    ensures Get32(Put32(s, at, v), i) == Get32(s, i)
  {
    hide Write, Get32, WordBytes;
    assert |WordBytes(v, 4)| == 4;
    GetKept(s, at, WordBytes(v, 4), i);
  }

  /** In the header, the change is that of the segment; behind it, nothing changes. */
  lemma PatchedIs(stub: seq<byte>, n: nat)
    requires StubImage(stub) && Appending(SegmentOf(stub), n).memsz < 0x1_0000_0000
    ensures DataEntry(Patched(stub, n)) == DataEntry(stub)
    ensures SegmentOf(Patched(stub, n)) == Appending(SegmentOf(stub), n)
    ensures SameBehind(Patched(stub, n), stub, SegmentOf(stub).offset)
  {
    hide Get32, Put32, NoSections;
    var d, seg := DataEntry(stub), Appending(SegmentOf(stub), n);
    var a := NoSections(stub);
    var b := Put32(a, d + 16, U32(seg.filesz));
    var c := Put32(b, d + 20, U32(seg.memsz));
    forall i | i in {28, d + 4}
      ensures Get32(c, i) == Get32(stub, i)
    {
      NoSectionsKeeps(stub, i);
      PutKeeps(a, d + 16, U32(seg.filesz), i);
      PutKeeps(b, d + 20, U32(seg.memsz), i);
    }
    GetPut(a, d + 16, U32(seg.filesz));
    PutKeeps(b, d + 20, U32(seg.memsz), d + 16);
    GetPut(b, d + 20, U32(seg.memsz));
    PatchedBehind(stub, n, SegmentOf(stub).offset);
  }

  predicate SameBehind(a: seq<byte>, b: seq<byte>, at: nat)
  {
    |a| == |b| && forall i | at <= i < |a| :: a[i] == b[i]
  }

  lemma WriteBehind(s: seq<byte>, p: nat, b: seq<byte>, at: nat)
    requires p + |b| <= |s| && p + |b| <= at
    ensures SameBehind(Write(s, p, b), s, at)
  {
  }

  lemma PatchedBehind(stub: seq<byte>, n: nat, at: nat)
    requires StubImage(stub) && DataEntry(stub) + PHSIZE <= at
    ensures SameBehind(Patched(stub, n), stub, at)
  {
    hide Get32, WordBytes, Write;
    var d, seg := DataEntry(stub), Appending(SegmentOf(stub), n);
    var a := Write(stub, 32, [0, 0, 0, 0]);
    var b := Write(a, 46, [0, 0, 0, 0, 0, 0]);
    var x, y := WordBytes(U32(seg.filesz), 4), WordBytes(U32(seg.memsz), 4);
    assert |x| == 4 && |y| == 4;
    WriteBehind(stub, 32, [0, 0, 0, 0], at);
    WriteBehind(a, 46, [0, 0, 0, 0, 0, 0], at);
    WriteBehind(b, d + 16, x, at);
    WriteBehind(Write(b, d + 16, x), d + 20, y, at);
  }

  method ClearOffset(stub: array<byte>)
    requires stub.Length >= EHSIZE
    modifies stub
    ensures stub[..] == Write(old(stub[..]), 32, [0, 0, 0, 0])
  {
    stub[32], stub[33], stub[34], stub[35] := 0, 0, 0, 0;
  }

  method ClearEntries(stub: array<byte>)
    requires stub.Length >= EHSIZE
    modifies stub
    ensures stub[..] == Write(old(stub[..]), 46, [0, 0, 0, 0, 0, 0])
  {
    stub[48], stub[49] := 0, 0;
    stub[46], stub[47] := 0, 0;
    stub[50], stub[51] := 0, 0;
  }

  /** The change of the header, in place. */
  method PatchHeader(stub: array<byte>, n: nat)
    requires StubImage(stub[..])
    modifies stub
    ensures stub[..] == Patched(old(stub[..]), n)
  {
    hide Get32, Put32, Write;
    var phdr := DataEntry(stub[..]);
    var seg := Appending(SegmentOf(stub[..]), n);
    ClearOffset(stub);
    ClearEntries(stub);
    Store32(stub, phdr + 16, U32(seg.filesz));
    Store32(stub, phdr + 20, U32(seg.memsz));
  }

  /** append_stubfile, where `stub` is the memory of the process from exepak_stub on, which may
      go on behind that array. In memory, what is written has the old segment followed by the
      length, the mode, the compressed file with its tail first, and zeros. It fails exactly
      when the part to be written runs out of the memory, or when the compressed file is
      shorter than the part that the stub moves: the size of its head wraps around, and no
      mapping has as many bytes. The header is changed in place before that. */
  method AppendStubfile(stub: array<byte>, compressed: seq<byte>, mode: uint32) returns (r: Option<seq<byte>>)
    requires StubImage(stub[..]) && |compressed| < 0x7fff_fff0
    modifies stub
    ensures stub[..] == Patched(old(stub[..]), |compressed|)
    ensures var seg := SegmentOf(old(stub[..]));
            && (r.Some? <==> seg.End() <= stub.Length && Zbufsz(seg) <= |compressed|)
            && (r.Some? ==> Executable(r.value, stub[..], seg, compressed, mode))
  {
    hide Get32, Put32, Patched, Executable;
    ghost var seg := SegmentOf(stub[..]);
    var zbufsz := Zbufsz(SegmentOf(stub[..]));
    var stub_wsize := SegmentOf(stub[..]).End();
    var n := |compressed|;
    PatchHeader(stub, n);
    if stub_wsize > stub.Length {
      return None;
    }
    var head := U32(n - zbufsz);
    if head > n {
      return None;
    }
    var exe := stub[..stub_wsize];
    exe := exe + Word(n);
    exe := exe + Word(mode);
    exe := exe + compressed[n - zbufsz..];
    exe := exe + compressed[..head];
    WrittenIs(stub[..], seg, compressed, mode, exe);
    return Some(exe);
  }

  lemma WrittenIs(stub: seq<byte>, seg: Segment, compressed: seq<byte>, mode: uint32, exe: seq<byte>)
    requires StubSegment(seg) && seg.End() <= |stub| && Zbufsz(seg) <= |compressed|
    requires var n, z := |compressed|, Zbufsz(seg);
             exe == stub[..seg.End()] + Word(n) + Word(mode) + compressed[n - z..] + compressed[..n - z]
    ensures Executable(exe, stub, seg, compressed, mode)
  {
    hide Word;
    var n := |compressed|;
    RotatedSize(compressed, Zbufsz(seg));
    assert |exe| == seg.End() + 8 + n && exe[..seg.End()] == stub[..seg.End()];
    assert exe[..seg.offset] == exe[..seg.End()][..seg.offset] == stub[..seg.offset];
    assert exe[seg.offset..]
        == stub[seg.offset..seg.End()] + (Word(|compressed|) + Word(mode) + Rotated(compressed, Zbufsz(seg)));
  }

  /** The file is the stub, with its header as changed, and the compressed file behind it; and the
      changed header describes all of it: that is what is loaded. */
  ghost predicate Executable(exe: seq<byte>, stub: seq<byte>, seg: Segment, compressed: seq<byte>, mode: uint32)
    requires StubSegment(seg) && seg.End() <= |stub| && Zbufsz(seg) <= |compressed|
  {
    var seg' := Appending(seg, |compressed|);
    && seg'.End() == |exe| && seg'.filesz <= seg'.memsz
    && exe[..seg.offset] == stub[..seg.offset]
    && Loaded(exe, seg') == LoadedStub(stub, seg, compressed, mode)
  }

  function LoadedStub(stub: seq<byte>, seg: Segment, compressed: seq<byte>, mode: uint32): seq<byte>
    requires StubSegment(seg) && seg.End() <= |stub| && Zbufsz(seg) <= |compressed|
  {
    var zbufsz := Zbufsz(seg);
    stub[seg.offset..seg.End()]
    + (Word(|compressed|) + Word(mode) + Rotated(compressed, zbufsz))
    + ZeroBytes(zbufsz + 12)
  }

  /** The header after that many bytes were appended for each of the earlier files. */
  function AfterFiles(seg: Segment, ns: seq<nat>): (r: Segment)
    ensures r.offset == seg.offset && r.filesz >= seg.filesz + 8 * |ns|
    ensures r.memsz - r.filesz == seg.memsz - seg.filesz + 4 * |ns|
    decreases |ns|
  {
    if ns == [] then seg else AfterFiles(Appending(seg, ns[0]), ns[1..])
  }

  /** Whether the stub, which knows the header it was built with only, finds the compressed file
      in the image. */
  predicate FindsFile(image: seq<byte>, seg: Segment, compressed: seq<byte>, mode: uint32)
    requires StubSegment(seg)
  {
    var end := seg.filesz + 8 + |compressed|;
    end <= |image| && Appended(image[seg.filesz..end], Zbufsz(seg), compressed, mode)
  }

  /** The memory after these files. */
  function AfterAll(stub: seq<byte>, ns: seq<nat>): seq<byte>
    requires StubImage(stub) && StubSegment(AfterFiles(SegmentOf(stub), ns))
    decreases |ns|
  {
    if ns == [] then stub
    else
      PatchedImage(stub, ns[0], ns[1..]);
      AfterAll(Patched(stub, ns[0]), ns[1..])
  }

  lemma PatchedImage(stub: seq<byte>, n: nat, ns: seq<nat>)
    requires StubImage(stub) && StubSegment(AfterFiles(Appending(SegmentOf(stub), n), ns))
    ensures StubImage(Patched(stub, n)) && SegmentOf(Patched(stub, n)) == Appending(SegmentOf(stub), n)
  {
    hide Get32, Patched;
    AfterGrows(Appending(SegmentOf(stub), n), ns);
    PatchedIs(stub, n);
  }

  lemma {:induction false} AfterGrows(seg: Segment, ns: seq<nat>)
    ensures AfterFiles(seg, ns).memsz >= seg.memsz && AfterFiles(seg, ns).filesz >= seg.filesz
    decreases |ns|
  {
    if ns != [] {
      AfterGrows(Appending(seg, ns[0]), ns[1..]);
    }
  }

  /** The header moves on with every file, and the memory from the data segment on stays. */
  lemma {:induction false} AfterAllIs(stub: seq<byte>, ns: seq<nat>)
    requires StubImage(stub) && StubSegment(AfterFiles(SegmentOf(stub), ns))
    ensures var r := AfterAll(stub, ns);
            && StubImage(r) && SegmentOf(r) == AfterFiles(SegmentOf(stub), ns)
            && SameBehind(r, stub, SegmentOf(stub).offset)
    decreases |ns|
  {
    hide Get32, Patched;
    if ns != [] {
      PatchedImage(stub, ns[0], ns[1..]);
      AfterGrows(Appending(SegmentOf(stub), ns[0]), ns[1..]);
      PatchedIs(stub, ns[0]);
      AfterAllIs(Patched(stub, ns[0]), ns[1..]);
    }
  }

  lemma SameLoaded(a: seq<byte>, b: seq<byte>, seg: Segment, compressed: seq<byte>, mode: uint32)
    requires StubSegment(seg) && seg.End() <= |a| == |b| && Zbufsz(seg) <= |compressed|
    requires SameBehind(a, b, seg.offset)
    ensures LoadedStub(a, seg, compressed, mode) == LoadedStub(b, seg, compressed, mode)
  {
    assert a[seg.offset..seg.End()] == b[seg.offset..seg.End()];
  }

  /** The first file that a process packs is found by its stub. Of any later one, the stub looks
      for the length in what the memory of the process held behind the written part of the
      stub, and it does not find the file unless that happens to be its length. */
  lemma FirstFileOnly(stub: seq<byte>, ns: seq<nat>, compressed: seq<byte>, mode: uint32)
    requires StubImage(stub) && StubSegment(AfterFiles(SegmentOf(stub), ns))
    requires var seg' := AfterFiles(SegmentOf(stub), ns); seg'.End() <= |stub| && Zbufsz(seg') <= |compressed|
    ensures var now, seg := AfterAll(stub, ns), SegmentOf(stub);
            && StubImage(now) && SegmentOf(now).End() <= |now| && Zbufsz(SegmentOf(now)) <= |compressed|
            && var image, wsize := LoadedStub(now, SegmentOf(now), compressed, mode), seg.End();
               if ns == [] then FindsFile(image, seg, compressed, mode)
               else
                 && |image| >= seg.filesz + 4 && image[seg.filesz..seg.filesz + 4] == stub[wsize..wsize + 4]
                 && (stub[wsize..wsize + 4] != Word(|compressed|) ==> !FindsFile(image, seg, compressed, mode))
  {
    hide Word, LoadedStub, FindsFile, Get32, AfterAll;
    var seg' := AfterFiles(SegmentOf(stub), ns);
    AfterAllIs(stub, ns);
    SameLoaded(AfterAll(stub, ns), stub, seg', compressed, mode);
    if ns == [] {
      FirstFile(stub, seg', compressed, mode);
    } else {
      LaterFile(stub, SegmentOf(stub), seg', compressed, mode);
    }
  }

  lemma FirstFile(stub: seq<byte>, seg: Segment, compressed: seq<byte>, mode: uint32)
    requires StubSegment(seg) && seg.End() <= |stub| && Zbufsz(seg) <= |compressed|
    ensures FindsFile(LoadedStub(stub, seg, compressed, mode), seg, compressed, mode)
  {
    hide Word, ZeroBytes, Rotated;
    RotatedSize(compressed, Zbufsz(seg));
    var image := LoadedStub(stub, seg, compressed, mode);
    assert image[seg.filesz..seg.filesz + 8 + |compressed|]
        == Word(|compressed|) + Word(mode) + Rotated(compressed, Zbufsz(seg));
  }

  lemma LaterFile(stub: seq<byte>, seg: Segment, seg': Segment, compressed: seq<byte>, mode: uint32)
    requires StubSegment(seg) && StubSegment(seg') && seg'.offset == seg.offset && seg'.filesz >= seg.filesz + 8
    requires seg'.End() <= |stub| && Zbufsz(seg') <= |compressed|
    ensures var image, wsize := LoadedStub(stub, seg', compressed, mode), seg.End();
            && |image| >= seg.filesz + 4 && image[seg.filesz..seg.filesz + 4] == stub[wsize..wsize + 4]
            && (stub[wsize..wsize + 4] != Word(|compressed|) ==> !FindsFile(image, seg, compressed, mode))
  {
    hide Word, ZeroBytes, Rotated, Appended;
    var image := LoadedStub(stub, seg', compressed, mode);
    var own := stub[seg'.offset..seg'.End()];
    assert own == image[..|own|];
    Inner(stub, seg.offset, seg'.End(), seg.filesz, seg.filesz + 4);
    Inner(image, 0, |own|, seg.filesz, seg.filesz + 4);
    if FindsFile(image, seg, compressed, mode) {
      var end := seg.filesz + 8 + |compressed|;
      Sections(image[seg.filesz..end], Zbufsz(seg), compressed, mode);
      Inner(image, seg.filesz, end, 0, 4);
    }
  }

  lemma RotatedSize(s: seq<byte>, n: nat)
    requires n <= |s|
    ensures |Rotated(s, n)| == |s|
  {
  }

  // ------------------------------------------------------------------ one file of a run

  /** What read_headers and is_script let through: a 32-bit ELF file of type ET_EXEC, or a
      file that begins with #!. */
  predicate Packable(file: seq<byte>)
  {
    || (|file| >= 52 && file[..4] == [0x7f, 0x45, 0x4c, 0x46] && file[16..18] == [2, 0] && file[40..42] == [52, 0])
    || (|file| >= 2 && file[..2] == [0x23, 0x21])
  }

  /** The checks of the mode: someone may execute the file, and it is no directory. */
  predicate Permitted(mode: uint32)
  {
    (mode / 0x40 % 2 == 1 || mode / 8 % 2 == 1 || mode % 2 == 1) && mode / 0x1000 % 0x10 != 4
  }

  /** create_sfx_binary, with the stub as the earlier files of the process left it: the
      executable, or nothing when the user has no right to the file, when its mode or its kind
      is wrong, when the executable would not be smaller, or when append_stubfile fails. Only a
      call of append_stubfile changes the stub. */
  method CreateSfx(find: Finder, size: nat, file: seq<byte>, stub: array<byte>, mode: uint32, owned: bool)
      returns (r: Option<seq<byte>>)
    requires 0 < size < 0x4000_0000 && Finds(find, Nrv2e, size) && |file| < 0x7fff_fff0 && StubImage(stub[..])
    modifies stub
    ensures var compressed, seg := Frames(find, size, file), SegmentOf(old(stub[..]));
            var smaller := owned && Permitted(mode) && Packable(file) && |compressed| + seg.End() < |file|;
            && (r.Some? <==> smaller && seg.End() <= stub.Length && Zbufsz(seg) <= |compressed|)
            && (r.Some? ==> Executable(r.value, stub[..], seg, compressed, mode))
            && stub[..] == if smaller then Patched(old(stub[..]), |compressed|) else old(stub[..])
  {
    hide Frames, Executable, Finds, Patched, Get32;
    if !owned || !Permitted(mode) || !Packable(file) {
      return None;
    }
    var of := CompressFile(find, size, file);
    if |of| + SegmentOf(stub[..]).End() >= |file| {
      return None;
    }
    r := AppendStubfile(stub, of, mode);
  }

  // ------------------------------------------------------------------------- the stub

  function WordAt(mem: array<byte>, p: nat): (v: uint32)
    requires p + 4 <= mem.Length
    reads mem
  {
    Decoder.FullWord(mem[p], mem[p + 1], mem[p + 2], mem[p + 3])
  }

  lemma WordIs(mem: array<byte>, p: nat, v: nat)
    requires p + 4 <= mem.Length && v < 0x1_0000_0000 && mem[p..p + 4] == Word(v)
    ensures WordAt(mem, p) == v
  {
    Pow32();
    WordRoundTrip(v, 4);
    Decoder.LittleEndianOf(mem[p..p + 4]);
  }

  /** The rep movsb at _start: the tail goes behind the head. */
  method MoveTail(mem: array<byte>, from: nat, to: nat, n: nat)
    requires from + n <= to && to + n <= mem.Length
    modifies mem
    ensures mem[..] == Write(old(mem[..]), to, old(mem[from..from + n]))
  {
    var esi, edi, ecx := from, to, n;
    while ecx > 0
      invariant 0 <= ecx <= n && esi == from + (n - ecx) && edi == to + (n - ecx)
      invariant forall i | 0 <= i < mem.Length ::
                  mem[i] == if to <= i < edi then old(mem[i - to + from]) else old(mem[i])
    {
      mem[edi] := mem[esi];
      esi, edi, ecx := esi + 1, edi + 1, ecx - 1;
    }
  }

  /** zero_it. */
  method ZeroIt(mem: array<byte>, at: nat, n: nat)
    requires n > 0 && at + n <= mem.Length
    modifies mem
    ensures mem[..] == Write(old(mem[..]), at, ZeroBytes(n))
  {
    var eax, ebx := at, n;
    while true
      invariant 0 < ebx <= n && eax == at + (n - ebx)
      invariant forall i | 0 <= i < mem.Length :: mem[i] == if at <= i < eax then 0 else old(mem[i])
      decreases ebx
    {
      mem[eax] := 0;
      eax, ebx := eax + 1, ebx - 1;
      if ebx == 0 {
        return;
      }
    }
  }

  /** What the bss holds when the stub starts. */
  predicate Appended(s: seq<byte>, z: nat, compressed: seq<byte>, mode: uint32)
  {
    z <= |compressed| && s == Word(|compressed|) + Word(mode) + Rotated(compressed, z)
  }

  lemma Sections(s: seq<byte>, z: nat, compressed: seq<byte>, mode: uint32)
    requires Appended(s, z, compressed, mode)
    ensures z <= |compressed| && |s| == 8 + |compressed| && s[..4] == Word(|compressed|) && s[4..8] == Word(mode)
    ensures s[8..8 + z] == compressed[|compressed| - z..] && s[8 + z..] == compressed[..|compressed| - z]
  {
    hide Word;
  }

  /** The memory with the tail behind the head. */
  function Moved(mem: seq<byte>, bss: nat, n: nat, z: nat): (r: seq<byte>)
    requires z <= n && bss + 8 + n + z <= |mem|
    ensures |r| == |mem|
  {
    Write(mem, bss + 8 + n, mem[bss + 8..bss + 8 + z])
  }

  lemma SectionsAt(mem: seq<byte>, bss: nat, z: nat, compressed: seq<byte>, mode: uint32)
    requires bss + 8 + |compressed| <= |mem|
    requires Appended(mem[bss..bss + 8 + |compressed|], z, compressed, mode)
    ensures var n, start := |compressed|, bss + 8;
            && z <= n
            && mem[bss..bss + 4] == Word(n) && mem[bss + 4..start] == Word(mode)
            && mem[start..start + z] == compressed[n - z..] && mem[start + z..start + n] == compressed[..n - z]
  {
    var n, start := |compressed|, bss + 8;
    Sections(mem[bss..start + n], z, compressed, mode);
    hide Appended, Word;
    Cut(mem, bss, bss + 4, start + n);
    Inner(mem, bss, start + n, 4, 8);
    Inner(mem, bss, start + n, 8, 8 + z);
    Cut(mem, bss, start + z, start + n);
  }

  lemma Reassembled(mem: seq<byte>, bss: nat, z: nat, compressed: seq<byte>, mode: uint32)
    requires bss + 8 + |compressed| + z <= |mem|
    requires Appended(mem[bss..bss + 8 + |compressed|], z, compressed, mode)
    ensures z <= |compressed| && mem[bss..bss + 4] == Word(|compressed|)
    ensures var moved := Moved(mem, bss, |compressed|, z);
            && moved[bss + 4..bss + 8] == Word(mode)
            && moved[bss + 8 + z..bss + 8 + z + |compressed|] == compressed
  {
    hide Appended, Word, Moved;
    var n, start := |compressed|, bss + 8;
    SectionsAt(mem, bss, z, compressed, mode);
    MovedSections(mem, bss, n, z);
    Cut(Moved(mem, bss, n, z), start + z, start + n, start + n + z);
    Joined(compressed, n - z);
  }

  lemma MovedSections(mem: seq<byte>, bss: nat, n: nat, z: nat)
    requires z <= n && bss + 8 + n + z <= |mem|
    ensures var moved, start := Moved(mem, bss, n, z), bss + 8;
            && moved[bss + 4..start] == mem[bss + 4..start] && moved[start + z..start + n] == mem[start + z..start + n]
            && moved[start + n..start + n + z] == mem[start..start + z]
  {
    hide Write;
    var start := bss + 8;
    WriteKeeps(mem, start + n, mem[start..start + z], bss + 4, start);
    WriteKeeps(mem, start + n, mem[start..start + z], start + z, start + n);
    WriteGives(mem, start + n, mem[start..start + z]);
  }

  lemma Joined<T>(s: seq<T>, k: nat)
    requires k <= |s|
    ensures s[..k] + s[k..] == s
  {
  }

  /** The memory when the stub has finished relocating. */
  function Relocated(mem: seq<byte>, bss: nat, n: nat, z: nat): (r: seq<byte>)
    requires z <= n && bss + 8 + n + z <= |mem|
    ensures |r| == |mem|
  {
    Write(Moved(mem, bss, n, z), bss, ZeroBytes(z + 8))
  }

  /** The compressed file is in order at mapcompressed, and what is behind it is untouched. */
  lemma RelocationRestores(mem: seq<byte>, bss: nat, z: nat, compressed: seq<byte>, mode: uint32)
    requires bss + 8 + |compressed| + z <= |mem|
    requires Appended(mem[bss..bss + 8 + |compressed|], z, compressed, mode)
    ensures var r := Relocated(mem, bss, |compressed|, z);
            var mapcompressed := bss + 8 + z;
            && r[..bss] == mem[..bss]
            && r[bss..mapcompressed] == ZeroBytes(z + 8)
            && r[mapcompressed..mapcompressed + |compressed|] == compressed
            && r[mapcompressed + |compressed|..] == mem[mapcompressed + |compressed|..]
  {
    var n, start := |compressed|, bss + 8;
    Reassembled(mem, bss, z, compressed, mode);
    var moved := Moved(mem, bss, n, z);
    hide Appended, Word, Write;
    WriteGives(moved, bss, ZeroBytes(z + 8));
    WriteKeeps(moved, bss, ZeroBytes(z + 8), start + z, start + z + n);
    WriteKeeps(moved, bss, ZeroBytes(z + 8), start + z + n, |mem|);
    WriteKeeps(mem, start + n, mem[start..start + z], start + z + n, |mem|);
    WriteKeeps(moved, bss, ZeroBytes(z + 8), 0, bss);
    WriteKeeps(mem, start + n, mem[start..start + z], 0, bss);
  }

  /** From _start to save_mode. */
  method MoveAndSaveMode(mem: array<byte>, bss: nat, n: nat, ghost compressed: seq<byte>, ghost mode0: uint32)
      returns (mode: uint32)
    requires |compressed| < 0x8000_0000 && bss + 8 + |compressed| + n <= mem.Length
    requires Appended(mem[bss..bss + 8 + |compressed|], n, compressed, mode0)
    modifies mem
    ensures mode == mode0 && n <= |compressed|
    ensures mem[..] == Moved(old(mem[..]), bss, |compressed|, n)
  {
    hide Appended, Word, Write;
    ghost var m := mem[..];
    assert mem[bss..bss + 8 + |compressed|] == m[bss..bss + 8 + |compressed|];
    Reassembled(m, bss, n, compressed, mode0);
    assert mem[bss..bss + 4] == m[bss..bss + 4];
    WordIs(mem, bss, |compressed|);
    var esi := bss + 8;
    var edi := esi + WordAt(mem, bss);
    assert mem[esi..esi + n] == m[esi..esi + n];
    MoveTail(mem, esi, edi, n);
    assert mem[bss + 4..esi] == mem[..][bss + 4..esi];
    WordIs(mem, bss + 4, mode0);
    mode := WordAt(mem, bss + 4);
  }

  /** From _start to the end of zero_it. */
  method Relocate(mem: array<byte>, bss: nat, mapcompressed: nat, ghost compressed: seq<byte>, ghost mode0: uint32)
      returns (mode: uint32)
    requires bss + 8 <= mapcompressed && |compressed| < 0x8000_0000
    requires mapcompressed + |compressed| <= mem.Length && bss + 8 + |compressed| <= mem.Length
    requires Appended(mem[bss..bss + 8 + |compressed|], mapcompressed - bss - 8, compressed, mode0)
    modifies mem
    ensures mode == mode0 && mapcompressed - bss - 8 <= |compressed|
    ensures mem[..] == Relocated(old(mem[..]), bss, |compressed|, mapcompressed - bss - 8)
  {
    hide Appended, Word, Write, Moved;
    var ecx := mapcompressed - bss;
    var ebx := ecx;
    ecx := ecx - 8;
    mode := MoveAndSaveMode(mem, bss, ecx, compressed, mode0);
    ZeroIt(mem, bss, ebx);
  }

  // ------------------------------------------------------------------- the block loop

  /** What the stub's decompressor does with a packed block. */
  lemma StubAccepts(mem: seq<byte>, find: Finder, block: seq<byte>, readbuf: nat, writebuf: nat)
    requires Chooses(find, Nrv2e, block) && |block| < 0x4000_0000
    requires readbuf + |Packed(Nrv2e, find, block)| <= writebuf && writebuf + |block| <= |mem|
    requires mem[readbuf..readbuf + |Packed(Nrv2e, find, block)|] == Packed(Nrv2e, find, block)
    ensures var o := Decode(Config(Nrv2e, |Packed(Nrv2e, find, block)|, Safe(|block|)),
                            Store(W8, [], 0, Flat(mem, readbuf, writebuf, 0)));
            && o.Done? && o.status == Ok
            && o.store.view == Flat(Write(mem, writebuf, block), readbuf, writebuf, |block|)
  {
    var z := Packed(Nrv2e, find, block);
    var tail := mem[readbuf + |z|..writebuf];
    var c := Config(Nrv2e, |z|, Safe(|block|));
    PackedDecodes(Nrv2e, find, block, tail);
    Cut(mem, readbuf, readbuf + |z|, writebuf);
    var st := Input(W8, z + tail);
    assert Write(mem, writebuf, []) == mem;
    hide Run, Packed, Write;
    ImageRun(c, mem, readbuf, writebuf, State(Top, 1, st), Ok, Decode(c, st).store);
  }

  lemma KeptSize(find: Finder, block: seq<byte>)
    requires Chooses(find, Nrv2e, block) && block != []
    ensures 0 < |Kept(find, block)| <= |block|
    ensures |Kept(find, block)| == |block| ==> Kept(find, block) == block
    ensures |Kept(find, block)| != |block| ==> Kept(find, block) == Packed(Nrv2e, find, block)
  {
    PackedNotEmpty(Nrv2e, find, block);
  }

  /** One turn of decompress_loop behind the sizes: a block is written as it is, or
      decompressed to writebuf and written from there. */
  method UnpackBlock(mem: array<byte>, p: nat, sizes0: uint32, sizes1: uint32, writebuf: nat,
                     ghost find: Finder, ghost block: seq<byte>)
      returns (ok: bool, written: seq<byte>)
    requires Chooses(find, Nrv2e, block) && 0 < |block| < 0x4000_0000
    requires sizes0 == |Kept(find, block)| && sizes1 == |block|
    requires HoldsAt(mem[..], p, Kept(find, block)) && p + sizes0 <= writebuf && writebuf + sizes1 <= mem.Length
    modifies mem
    ensures ok && written == block
    ensures mem[..writebuf] == old(mem[..writebuf])
    ensures mem[writebuf + |block|..] == old(mem[writebuf + |block|..])
  {
    KeptSize(find, block);
    if sizes1 == sizes0 {
      return true, mem[p..p + sizes1];
    }
    ghost var m := mem[..];
    StubAccepts(m, find, block, p, writebuf);
    hide Packed, Kept, Chooses, Write;
    var eax, destLen := StubDecoder.Decompress(mem, p, sizes0, writebuf, |block|);
    if eax != 0 || sizes1 != destLen {
      return false, [];
    }
    WriteGives(m, writebuf, block);
    WriteKeeps(m, writebuf, block, 0, writebuf);
    WriteKeeps(m, writebuf, block, writebuf + |block|, |m|);
    assert mem[writebuf + |block|..] == mem[..][writebuf + |block|..];
    assert mem[..writebuf] == mem[..][..writebuf];
    assert mem[writebuf..writebuf + sizes1] == mem[..][writebuf..writebuf + sizes1];
    return true, mem[writebuf..writebuf + sizes1];
  }

  lemma FramesStep(find: Finder, size: nat, file: seq<byte>)
    requires size > 0 && Finds(find, Nrv2e, size) && file != []
    ensures var block := First(file, size);
            && Chooses(find, Nrv2e, block)
            && Frames(find, size, file)
               == Word(|Kept(find, block)|) + Word(|block|) + Kept(find, block) + Frames(find, size, file[|block|..])
  {
    hide Word, Kept, Chooses, Frames, Finds;
    FramesUnfold(find, size, file);
  }

  /** What is at p when a block is still to come. */
  lemma NextFrame(mem: seq<byte>, p: nat, find: Finder, size: nat, file: seq<byte>)
    requires 0 < size && Finds(find, Nrv2e, size) && file != []
    requires HoldsAt(mem, p, Frames(find, size, file) + Word(0))
    ensures var block := First(file, size);
            && Chooses(find, Nrv2e, block)
            && 0 < |Kept(find, block)| <= |block|
            && HoldsAt(mem, p, Word(|Kept(find, block)|))
            && HoldsAt(mem, p + 4, Word(|block|))
            && HoldsAt(mem, p + 8, Kept(find, block))
            && HoldsAt(mem, p + 8 + |Kept(find, block)|, Frames(find, size, file[|block|..]) + Word(0))
            && |Frames(find, size, file)| == 8 + |Kept(find, block)| + |Frames(find, size, file[|block|..])|
  {
    hide Kept, Word, HoldsAt, Frames, Finds, Chooses;
    var block := First(file, size);
    FramesStep(find, size, file);
    KeptSize(find, block);
    FrameHeld(mem, p, Word(|Kept(find, block)|), Word(|block|), Kept(find, block),
              Frames(find, size, file[|block|..]), Word(0));
  }

  /** The words that the stub reads at the start of a turn, and what follows them. */
  lemma AtBlock(mem: array<byte>, p: nat, find: Finder, size: nat, rest: seq<byte>)
    requires 0 < size < 0x4000_0000 && Finds(find, Nrv2e, size)
    requires HoldsAt(mem[..], p, Frames(find, size, rest) + Word(0))
    ensures p + 4 <= mem.Length
    ensures rest == [] ==> WordAt(mem, p) == 0
    ensures rest != [] ==>
              var block := First(rest, size);
              && Chooses(find, Nrv2e, block) && p + 8 <= mem.Length
              && 0 < WordAt(mem, p) == |Kept(find, block)| && WordAt(mem, p + 4) == |block|
              && HoldsAt(mem[..], p + 8, Kept(find, block))
              && HoldsAt(mem[..], p + 8 + |Kept(find, block)|, Frames(find, size, rest[|block|..]) + Word(0))
              && |Frames(find, size, rest)| == 8 + |Kept(find, block)| + |Frames(find, size, rest[|block|..])|
  {
    hide Frames, Kept, Word, Chooses, HoldsAt, Finds, Decoder.FullWord;
    if rest == [] {
      FramesEnd(find, size);
      assert Frames(find, size, rest) + Word(0) == Word(0);
      WordHeld(mem, p, 0);
    } else {
      var block := First(rest, size);
      NextFrame(mem[..], p, find, size, rest);
      WordHeld(mem, p, |Kept(find, block)|);
      WordHeld(mem, p + 4, |block|);
    }
  }

  /** No block is larger than the first. */
  lemma FirstIsLargest(rest: seq<byte>, file: seq<byte>, size: nat)
    requires |rest| <= |file|
    ensures |First(rest, size)| <= |First(file, size)|
  {
  }

  /** decompress_loop, up to the word of zero. */
  method Unpack(mem: array<byte>, mapcompressed: nat, writebuf: nat,
                ghost find: Finder, ghost size: nat, ghost file: seq<byte>)
      returns (ok: bool, written: seq<byte>)
    requires 0 < size < 0x4000_0000 && Finds(find, Nrv2e, size)
    requires HoldsAt(mem[..], mapcompressed, Frames(find, size, file) + Word(0))
    requires mapcompressed + |Frames(find, size, file)| + 4 <= writebuf
    requires writebuf + |First(file, size)| <= mem.Length
    modifies mem
    ensures ok && written == file
    ensures mem[writebuf + |First(file, size)|..] == old(mem[writebuf + |First(file, size)|..])
  {
    hide Frames, Kept, Word, Chooses, HoldsAt, Finds, WordAt, First;
    var p: nat := mapcompressed;
    written := [];
    ghost var rest := file;
    ghost var end := writebuf + |First(file, size)|;
    while true
      invariant written + rest == file
      invariant HoldsAt(mem[..], p, Frames(find, size, rest) + Word(0))
      invariant p + |Frames(find, size, rest)| + 4 <= writebuf
      invariant mem[end..] == old(mem[end..])
      decreases |rest|
    {
      ghost var block := First(rest, size);
      FirstIsLargest(rest, file, size);
      AtBlock(mem, p, find, size, rest);
      var sizes0 := WordAt(mem, p);
      if sizes0 == 0 {
        return true, written;
      }
      var sizes1 := WordAt(mem, p + 4);
      p := p + 8;
      ghost var m := mem[..];
      var done;
      ok, done := UnpackBlock(mem, p, sizes0, sizes1, writebuf, find, block);
      if !ok {
        return false, written;
      }
      written := written + done;
      p := p + sizes0;
      SameFrom(m, mem[..], writebuf + |block|, end);
      HoldsBelow(m, mem[..], p, Frames(find, size, rest[|block|..]) + Word(0), writebuf);
      rest := rest[|block|..];
    }
  }

  lemma SameFrom(a: seq<byte>, b: seq<byte>, i: nat, j: nat)
    requires |a| == |b| && i <= j <= |a| && a[i..] == b[i..]
    ensures a[j..] == b[j..]
  {
    assert a[j..] == a[i..][j - i..];
  }

  lemma WordHeld(mem: array<byte>, p: nat, v: nat)
    requires v < 0x1_0000_0000 && HoldsAt(mem[..], p, Word(v))
    ensures p + 4 <= mem.Length && WordAt(mem, p) == v
  {
    hide Word;
    assert mem[..][p..p + 4] == mem[p..p + 4];
    WordIs(mem, p, v);
  }

  // ----------------------------------------------------------------------- end to end

  /** The stub, from its first instruction to the last block. The memory holds the data
      segment as the system loads it. The break is raised by a word that the stub finds there,
      the size of the first block, and nothing from the new break on is touched. */
  method RunStub(mem: array<byte>, stub: seq<byte>, seg: Segment, ghost mode0: uint32, brk: nat,
                 ghost find: Finder, ghost size: nat, ghost file: seq<byte>)
      returns (ok: bool, mode: uint32, newBrk: nat, written: seq<byte>)
    requires 0 < size < 0x4000_0000 && Finds(find, Nrv2e, size) && file != []
    requires StubSegment(seg) && seg.End() <= |stub| && Zbufsz(seg) <= |Frames(find, size, file)| < 0x8000_0000
    requires HoldsAt(mem[..], 0, LoadedStub(stub, seg, Frames(find, size, file), mode0))
    requires |LoadedStub(stub, seg, Frames(find, size, file), mode0)| <= brk
    requires mem.Length >= brk + 1 + |First(file, size)|
    modifies mem
    ensures ok && mode == mode0 && written == file
    ensures newBrk == brk + 1 + |First(file, size)| && mem[newBrk..] == old(mem[newBrk..])
  {
    hide Frames, Word, LoadedStub, Appended, Relocated, HoldsAt, Finds, ZeroBytes, Rotated;
    hide WordAt, Chooses, Kept, First;
    var bss_begin, mapcompressed := seg.filesz, seg.memsz;
    ghost var compressed := Frames(find, size, file);
    ghost var m := mem[..];
    LoadedParts(m, stub, seg, compressed, mode0);
    assert mem[bss_begin..bss_begin + 8 + |compressed|] == m[bss_begin..bss_begin + 8 + |compressed|];
    mode := Relocate(mem, bss_begin, mapcompressed, compressed, mode0);
    RelocationRestores(m, bss_begin, mapcompressed - bss_begin - 8, compressed, mode0);
    ghost var m1 := mem[..];
    StubFinds(m, m1, mapcompressed, compressed);
    AtBlock(mem, mapcompressed, find, size, file);
    var writebuf := brk + 1;
    newBrk := writebuf + WordAt(mem, mapcompressed + 4);
    SameFrom(m, m1, mapcompressed + |compressed|, newBrk);
    ok, written := Unpack(mem, mapcompressed, writebuf, find, size, file);
    assert mem[newBrk..] == m1[newBrk..] == m[newBrk..];
  }

  lemma LoadedParts(mem: seq<byte>, stub: seq<byte>, seg: Segment, compressed: seq<byte>, mode: uint32)
    requires StubSegment(seg) && seg.End() <= |stub| && Zbufsz(seg) <= |compressed|
    requires HoldsAt(mem, 0, LoadedStub(stub, seg, compressed, mode))
    ensures |LoadedStub(stub, seg, compressed, mode)| == seg.memsz + |compressed| + 12 <= |mem|
    ensures Appended(mem[seg.filesz..seg.filesz + 8 + |compressed|], Zbufsz(seg), compressed, mode)
    ensures HoldsAt(mem, seg.memsz + |compressed|, Word(0))
  {
    var zbufsz := Zbufsz(seg);
    var a := stub[seg.offset..seg.End()];
    var b := Word(|compressed|) + Word(mode) + Rotated(compressed, zbufsz);
    ZeroEnd(zbufsz);
    hide HoldsAt, Word, ZeroBytes;
    FrameHeld(mem, 0, a, b, ZeroBytes(zbufsz), Word(0), ZeroBytes(8));
    assert a + b + ZeroBytes(zbufsz + 12) == a + b + ZeroBytes(zbufsz) + Word(0) + ZeroBytes(8);
    HoldsWithin(mem, 0, a + b + ZeroBytes(zbufsz + 12));
    HoldsParts(mem, seg.memsz + |compressed|, Word(0), ZeroBytes(8));
    HeldSlice(mem, seg.filesz, b);
  }

  lemma ZeroEnd(n: nat)
    ensures ZeroBytes(n + 12) == ZeroBytes(n) + Word(0) + ZeroBytes(8)
  {
    assert Word(0) == [0, 0, 0, 0];
  }

  lemma StubFinds(mem: seq<byte>, r: seq<byte>, p: nat, compressed: seq<byte>)
    requires |r| == |mem| && p + |compressed| + 4 <= |mem|
    requires r[p..p + |compressed|] == compressed && r[p + |compressed|..] == mem[p + |compressed|..]
    requires HoldsAt(mem, p + |compressed|, Word(0))
    ensures HoldsAt(r, p, compressed + Word(0))
  {
    var q := p + |compressed|;
    assert r[q..q + 4] == r[q..][..4] == mem[q..][..4] == mem[q..q + 4];
    HoldsParts(r, p, compressed, Word(0));
  }
}
