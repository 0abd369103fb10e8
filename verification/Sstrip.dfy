/** sstrip: cuts everything off an ELF file that its program headers do not refer to, and keeps
    the loaded program as it is. */
module Sstrip {
  import opened Nrv
  import opened BitBuffer
  import opened Layout
  import opened Simulation
  import opened Regions
  import opened Elf

  // -------------------------------------------------------------- fields of the headers

  /** e_phoff, e_shoff, e_phnum. */
  function Phoff(e: seq<byte>): uint32 requires |e| >= EHSIZE { Get32(e, 28) }
  function Shoff(e: seq<byte>): uint32 requires |e| >= EHSIZE { Get32(e, 32) }
  function Phnum(e: seq<byte>): nat requires |e| >= EHSIZE { Get16(e, 44) }

  /** The program header table in t, from byte `at` on, has m entries. */
  predicate Table(t: seq<byte>, at: nat, m: nat) { at + PHSIZE * m <= |t| }

  /** Fields of entry i of a table that starts at byte `at`. */
  function Type(t: seq<byte>, at: nat, i: nat): uint32 requires Table(t, at, i + 1) { Get32(t, at + 32 * i) }
  function Offset(t: seq<byte>, at: nat, i: nat): uint32 requires Table(t, at, i + 1) { Get32(t, at + 32 * i + 4) }
  function Filesz(t: seq<byte>, at: nat, i: nat): uint32 requires Table(t, at, i + 1) { Get32(t, at + 32 * i + 16) }
  function Memsz(t: seq<byte>, at: nat, i: nat): uint32 requires Table(t, at, i + 1) { Get32(t, at + 32 * i + 20) }

  // -------------------------------------------------------------------- getmemorysize

  /** The end of what entry i refers to, in 32-bit arithmetic. */
  function End(t: seq<byte>, i: nat): nat
    requires Table(t, 0, i + 1)
  {
    U32(Offset(t, 0, i) + Filesz(t, 0, i))
  }

  /** The ELF header and the whole table. */
  function HeaderEnd(e: seq<byte>): nat
    requires |e| >= EHSIZE
  {
    if U32(Phoff(e) + PHSIZE * Phnum(e)) < EHSIZE then EHSIZE else U32(Phoff(e) + PHSIZE * Phnum(e))
  }

  /** getmemorysize: the least size that holds the headers and everything that a used entry
      refers to. */
  method GetMemorySize(e: seq<byte>, t: seq<byte>) returns (size: nat)
    requires |e| >= EHSIZE && Table(t, 0, Phnum(e))
    ensures size >= HeaderEnd(e)
    ensures forall i | 0 <= i < Phnum(e) :: Type(t, 0, i) != 0 ==> End(t, i) <= size
    ensures size == HeaderEnd(e) || exists i :: 0 <= i < Phnum(e) && Type(t, 0, i) != 0 && End(t, i) == size
  {
    hide Get32, Get16, U32;
    size := HeaderEnd(e);
    var i := 0;
    while i < Phnum(e)
      invariant 0 <= i <= Phnum(e) && size >= HeaderEnd(e)
      invariant forall k | 0 <= k < i :: Type(t, 0, k) != 0 ==> End(t, k) <= size
      invariant size == HeaderEnd(e) || exists k :: 0 <= k < i && Type(t, 0, k) != 0 && End(t, k) == size
    {
      if Type(t, 0, i) != 0 {
        var n := End(t, i);
        if n > size {
          size := n;
        }
      }
      i := i + 1;
    }
  }

  // -------------------------------------------------------------------- truncatezeros

  /** One more than the index of the last byte below `size` that is not zero. */
  function Trimmed(file: seq<byte>, size: nat): (n: nat)
    requires size <= |file|
    ensures n <= size
    ensures n > 0 ==> file[n - 1] != 0
    ensures forall i | n <= i < size :: file[i] == 0
  {
    if size == 0 then 0 else if file[size - 1] != 0 then size else Trimmed(file, size - 1)
  }

  lemma {:induction false} TrimmedSkips(file: seq<byte>, m: nat, size: nat)
    requires m <= size <= |file| && forall i | m <= i < size :: file[i] == 0
    ensures Trimmed(file, size) == Trimmed(file, m)
    decreases size - m
  {
    if m < size {
      TrimmedSkips(file, m, size - 1);
    }
  }

  predicate Scanned(contents: seq<byte>, size0: nat, size: nat, n: nat)
  {
    && (n < |contents| || (n == 0 && contents == []))
    && (forall i | n < i < |contents| :: contents[i] == 0)
    && (contents != [] && contents[n] != 0 ==> size == size0 - |contents| + n + 1)
    && (contents == [] || contents[n] == 0 ==> n == 0 && size == size0 - |contents|)
  }

  /** The inner loop: from the end of the chunk back to a byte that is not zero. */
  method ScanBack(contents: seq<byte>, size0: nat) returns (size: nat, n: nat)
    requires |contents| <= size0
    ensures Scanned(contents, size0, size, n)
  {
    size, n := size0, |contents|;
    while n > 0
      invariant n <= |contents| && size == size0 - |contents| + n
      invariant forall i | n <= i < |contents| :: contents[i] == 0
    {
      n := n - 1;
      if contents[n] != 0 {
        return;
      }
      size := size - 1;
    }
  }

  /** When the first byte is the only one that is not zero, the outer loop does not end. */
  predicate Stuck(file: seq<byte>, size: nat)
    requires size <= |file|
  {
    Trimmed(file, size) == 1
  }

  /** One turn of the outer loop: the size and n behind the inner loop. */
  function Pass(file: seq<byte>, size: nat): (r: (nat, nat))
    requires size <= |file|
  {
    var n := if 1024 > size then size else 1024;
    var kept := Trimmed(file[size - n..size], n);
    (size - n + kept, if kept == 0 then 0 else kept - 1)
  }

  lemma PassIsScan(file: seq<byte>, size0: nat, size: nat, n: nat)
    requires size0 <= |file|
    requires Scanned(file[size0 - (if 1024 > size0 then size0 else 1024)..size0], size0, size, n)
    ensures Pass(file, size0) == (size, n)
  {
  }

  predicate GoesOn(file: seq<byte>, size: nat)
    requires size <= |file|
  {
    Pass(file, size).0 != 0 && Pass(file, size).1 == 0
  }

  lemma PassTrims(file: seq<byte>, size: nat)
    requires size <= |file|
    ensures Pass(file, size).0 <= size && Trimmed(file, Pass(file, size).0) == Trimmed(file, size)
    ensures GoesOn(file, size) && !Stuck(file, size) ==> Pass(file, size).0 < size
    ensures Stuck(file, size) ==> GoesOn(file, size) && (size > 1 ==> Pass(file, size).0 < size)
  {
    var n := if 1024 > size then size else 1024;
    var chunk := file[size - n..size];
    var next := Pass(file, size).0;
    forall i | next <= i < size
      ensures file[i] == 0
    {
      assert file[i] == chunk[i - (size - n)];
    }
    TrimmedSkips(file, next, size);
    if Trimmed(chunk, n) > 0 {
      assert file[next - 1] == chunk[Trimmed(chunk, n) - 1] != 0;
      assert Trimmed(file, next) == next;
    }
  }

  /** The size after k turns, if the loop has not ended before. */
  function SizeAfter(file: seq<byte>, size: nat, k: nat): (r: nat)
    requires size <= |file|
    ensures r <= |file|
    decreases k
  {
    PassTrims(file, size);
    if k == 0 then size else SizeAfter(file, Pass(file, size).0, k - 1)
  }

  lemma {:induction false} StuckForever(file: seq<byte>, size: nat, k: nat)
    requires size <= |file| && Stuck(file, size)
    ensures Stuck(file, SizeAfter(file, size, k)) && GoesOn(file, SizeAfter(file, size, k))
    ensures k >= size ==> SizeAfter(file, size, k) == 1
    decreases k
  {
    hide Pass, GoesOn;
    PassTrims(file, size);
    if k > 0 {
      if size == 1 {
        PassTrims(file, 1);
        assert Pass(file, 1).0 == 1;
      }
      StuckForever(file, Pass(file, size).0, k - 1);
    }
  }

  lemma {:induction false} UnstuckEnds(file: seq<byte>, size: nat) returns (k: nat)
    requires size <= |file| && !Stuck(file, size)
    ensures !GoesOn(file, SizeAfter(file, size, k))
    decreases size
  {
    hide Pass, GoesOn;
    PassTrims(file, size);
    if GoesOn(file, size) {
      var j := UnstuckEnds(file, Pass(file, size).0);
      k := j + 1;
    } else {
      k := 0;
    }
  }

  /** The loop ends exactly when it does not get stuck. */
  lemma EndsExactly(file: seq<byte>, size: nat)
    requires size <= |file|
    ensures (exists k: nat :: !GoesOn(file, SizeAfter(file, size, k))) <==> !Stuck(file, size)
  {
    hide Pass, GoesOn, Stuck, SizeAfter;
    if Stuck(file, size) {
      forall k: nat
        ensures GoesOn(file, SizeAfter(file, size, k))
      {
        StuckForever(file, size, k);
      }
    } else {
      var k := UnstuckEnds(file, size);
    }
  }

  /** truncatezeros: the size without the zeros at its end. It fails for a size that the file
      does not have, and for a part that is blank. */
  method TruncateZeros(file: seq<byte>, newsize: nat) returns (r: Option<nat>)
    requires newsize <= |file| ==> !Stuck(file, newsize)
    ensures r.None? <==> newsize > |file| || Trimmed(file, newsize) == 0
    ensures r.Some? ==> r.value == Trimmed(file, newsize)
  {
    var size: nat := newsize;
    while true
      invariant size <= newsize && (size < newsize ==> newsize <= |file|)
      invariant newsize <= |file| ==> Trimmed(file, size) == Trimmed(file, newsize)
      decreases size
    {
      var n := if 1024 > size then size else 1024;
      if size > |file| {
        return None;
      }
      var chunk := file[size - n..size];
      ghost var before := size;
      size, n := ScanBack(chunk, size);
      PassIsScan(file, before, size, n);
      PassTrims(file, before);
      if size == 0 || n != 0 {
        break;
      }
    }
    if size == 0 {
      return None;
    }
    return Some(size);
  }

  /** The signature keeps the loop from getting stuck. */
  lemma SignatureUnsticks(file: seq<byte>, newsize: nat)
    requires 2 <= newsize <= |file| && file[1] != 0
    ensures !Stuck(file, newsize)
  {
  }

  // -------------------------------------------------------------------- modifyheaders

  /** What becomes of p_filesz. */
  function NewFilesz(offset: uint32, filesz: uint32, newsize: nat): uint32
  {
    if offset >= newsize then 0
    else if U32(offset + filesz) > newsize then U32(newsize - offset)
    else filesz
  }

  /** Entry i of the new table u is that of t with another p_filesz. */
  predicate Adjusted(t: seq<byte>, at: nat, u: seq<byte>, to: nat, i: nat, newsize: nat)
  {
    && Table(t, at, i + 1) && Table(u, to, i + 1)
    && u[to + 32 * i..to + 32 * i + 16] == t[at + 32 * i..at + 32 * i + 16]
    && u[to + 32 * i + 20..to + 32 * i + 32] == t[at + 32 * i + 20..at + 32 * i + 32]
    && Filesz(u, to, i) == NewFilesz(Offset(t, at, i), Filesz(t, at, i), newsize)
  }

  predicate SameEntry(t: seq<byte>, u: seq<byte>, i: nat)
  {
    Table(t, 0, i + 1) && Table(u, 0, i + 1) && u[32 * i..32 * i + 32] == t[32 * i..32 * i + 32]
  }

  /** Storing p_filesz of entry i leaves entry k alone. */
  lemma StoreElsewhere(t: seq<byte>, u: seq<byte>, i: nat, v: uint32, k: nat, newsize: nat)
    requires Table(u, 0, i + 1) && Table(u, 0, k + 1) && k != i
    ensures var r := Put32(u, 32 * i + 16, v);
            && (Adjusted(t, 0, u, 0, k, newsize) ==> Adjusted(t, 0, r, 0, k, newsize))
            && (SameEntry(t, u, k) ==> SameEntry(t, r, k))
  {
    hide Write, WordBytes, Get32, NewFilesz;
    var r, b := Put32(u, 32 * i + 16, v), WordBytes(v, 4);
    assert |b| == 4;
    WriteKeeps(u, 32 * i + 16, b, 32 * k, 32 * k + 32);
    WriteKeeps(u, 32 * i + 16, b, 32 * k, 32 * k + 16);
    WriteKeeps(u, 32 * i + 16, b, 32 * k + 20, 32 * k + 32);
    WriteKeeps(u, 32 * i + 16, b, 32 * k + 16, 32 * k + 20);
    GetSame(r, 32 * k + 16, u, 32 * k + 16);
  }

  lemma StoreHere(t: seq<byte>, u: seq<byte>, i: nat, v: uint32, newsize: nat)
    requires Table(u, 0, i + 1) && SameEntry(t, u, i)
    requires v == NewFilesz(Offset(t, 0, i), Filesz(t, 0, i), newsize)
    ensures Adjusted(t, 0, Put32(u, 32 * i + 16, v), 0, i, newsize)
  {
    hide Write, WordBytes, Get32, NewFilesz;
    var b := WordBytes(v, 4);
    GetPut(u, 32 * i + 16, v);
    assert |b| == 4;
    WriteKeeps(u, 32 * i + 16, b, 32 * i, 32 * i + 16);
    WriteKeeps(u, 32 * i + 16, b, 32 * i + 20, 32 * i + 32);
    Inner(u, 32 * i, 32 * i + 32, 0, 16);
    Inner(t, 32 * i, 32 * i + 32, 0, 16);
    Inner(u, 32 * i, 32 * i + 32, 20, 32);
    Inner(t, 32 * i, 32 * i + 32, 20, 32);
  }

  /** An entry whose p_filesz stays as it is. */
  lemma SameIsAdjusted(t: seq<byte>, u: seq<byte>, i: nat, newsize: nat)
    requires SameEntry(t, u, i) && Filesz(t, 0, i) == NewFilesz(Offset(t, 0, i), Filesz(t, 0, i), newsize)
    ensures Adjusted(t, 0, u, 0, i, newsize)
  {
    hide Get32, NewFilesz;
    Inner(u, 32 * i, 32 * i + 32, 0, 16);
    Inner(t, 32 * i, 32 * i + 32, 0, 16);
    Inner(u, 32 * i, 32 * i + 32, 16, 20);
    Inner(t, 32 * i, 32 * i + 32, 16, 20);
    Inner(u, 32 * i, 32 * i + 32, 20, 32);
    Inner(t, 32 * i, 32 * i + 32, 20, 32);
    GetSame(u, 32 * i + 16, t, 32 * i + 16);
  }

  lemma SameFields(t: seq<byte>, u: seq<byte>, i: nat)
    requires SameEntry(t, u, i)
    ensures Offset(u, 0, i) == Offset(t, 0, i) && Filesz(u, 0, i) == Filesz(t, 0, i)
  {
    hide Get32;
    Inner(u, 32 * i, 32 * i + 32, 4, 8);
    Inner(t, 32 * i, 32 * i + 32, 4, 8);
    Inner(u, 32 * i, 32 * i + 32, 16, 20);
    Inner(t, 32 * i, 32 * i + 32, 16, 20);
    GetSame(u, 32 * i + 4, t, 32 * i + 4);
    GetSame(u, 32 * i + 16, t, 32 * i + 16);
  }

  /** The body of the loop over the entries. */
  method AdjustEntry(phdrs: array<byte>, i: nat, newsize: nat, ghost t: seq<byte>, ghost m: nat)
    requires i < m && phdrs.Length == |t| == PHSIZE * m
    requires forall k | 0 <= k < i :: Adjusted(t, 0, phdrs[..], 0, k, newsize)
    requires forall k | i <= k < m :: SameEntry(t, phdrs[..], k)
    modifies phdrs
    ensures forall k | 0 <= k <= i :: Adjusted(t, 0, phdrs[..], 0, k, newsize)
    ensures forall k | i < k < m :: SameEntry(t, phdrs[..], k)
  {
    hide Adjusted, SameEntry, Get32, Put32, U32;
    ghost var u := phdrs[..];
    SameFields(t, u, i);
    var offset, filesz := Offset(phdrs[..], 0, i), Filesz(phdrs[..], 0, i);
    ghost var size := NewFilesz(offset, filesz, newsize);
    if offset >= newsize {
      Store32(phdrs, 32 * i + 16, 0);
    } else if U32(offset + filesz) > newsize {
      Shorter(offset, filesz, newsize);
      Store32(phdrs, 32 * i + 16, newsize - offset);
    } else {
      SameIsAdjusted(t, u, i, newsize);
      return;
    }
    hide NewFilesz;
    StoreHere(t, u, i, size, newsize);
    forall k | 0 <= k < m && k != i
      ensures k < i ==> Adjusted(t, 0, phdrs[..], 0, k, newsize)
      ensures k > i ==> SameEntry(t, phdrs[..], k)
    {
      StoreElsewhere(t, u, i, size, k, newsize);
    }
  }

  lemma Shorter(offset: uint32, filesz: uint32, newsize: nat)
    requires offset < newsize < U32(offset + filesz)
    ensures 0 <= newsize - offset < 0x1_0000_0000 && U32(newsize - offset) == newsize - offset
  {
  }

  /** The ELF header without its references to a section header table that is cut off. */
  function NewHeader(e: seq<byte>, newsize: nat): (r: seq<byte>)
    requires |e| == EHSIZE
    ensures |r| == EHSIZE
  {
    if Shoff(e) >= newsize then e[..32] + [0, 0, 0, 0] + e[36..46] + [0, 0, 0, 0, 0, 0] else e
  }

  /** modifyheaders. */
  method ModifyHeaders(ehdr: array<byte>, phdrs: array<byte>, newsize: nat)
    requires ehdr.Length == EHSIZE && phdrs.Length == PHSIZE * Phnum(ehdr[..]) && ehdr != phdrs
    modifies ehdr, phdrs
    ensures ehdr[..] == NewHeader(old(ehdr[..]), newsize)
    ensures forall k | 0 <= k < Phnum(old(ehdr[..])) :: Adjusted(old(phdrs[..]), 0, phdrs[..], 0, k, newsize)
  {
    hide Get32, Get16, Adjusted;
    ghost var t := phdrs[..];
    var m := Phnum(ehdr[..]);
    if Shoff(ehdr[..]) >= newsize {
      ehdr[32], ehdr[33], ehdr[34], ehdr[35] := 0, 0, 0, 0;
      ehdr[48], ehdr[49] := 0, 0;
      ehdr[46], ehdr[47] := 0, 0;
      ehdr[50], ehdr[51] := 0, 0;
    }
    assert ehdr[..] == NewHeader(old(ehdr[..]), newsize);
    var i := 0;
    while i < m
      invariant 0 <= i <= m && ehdr[..] == NewHeader(old(ehdr[..]), newsize)
      invariant forall k | 0 <= k < i :: Adjusted(t, 0, phdrs[..], 0, k, newsize)
      invariant forall k | i <= k < m :: SameEntry(t, phdrs[..], k)
    {
      AdjustEntry(phdrs, i, newsize, t, m);
      i := i + 1;
    }
  }

  // -------------------------------------------------------------------- commitchanges

  /** A write at position `at`; behind the end of the file it leaves a gap of zeros. */
  function WriteAt(file: seq<byte>, at: nat, s: seq<byte>): (r: seq<byte>)
    ensures |r| == if at + |s| > |file| then at + |s| else |file|
    ensures r[at..at + |s|] == s
    ensures forall j | 0 <= j < |file| && !(at <= j < at + |s|) :: r[j] == file[j]
  {
    if at <= |file| then
      file[..at] + s + if at + |s| <= |file| then file[at + |s|..] else []
    else file + seq(at - |file|, _ => 0) + s
  }

  /** ftruncate. */
  function Resize(file: seq<byte>, n: nat): (r: seq<byte>)
    ensures |r| == n
    ensures forall j | 0 <= j < n && j < |file| :: r[j] == file[j]
  {
    if n <= |file| then file[..n] else file + seq(n - |file|, _ => 0)
  }

  /** commitchanges. */
  method CommitChanges(file: seq<byte>, ehdr: seq<byte>, phdrs: seq<byte>, newsize: nat) returns (r: seq<byte>)
    requires |ehdr| == EHSIZE
    ensures |r| == if newsize < Phoff(ehdr) + |phdrs| then Phoff(ehdr) + |phdrs| else newsize
    ensures Phoff(ehdr) >= EHSIZE ==> r[..EHSIZE] == ehdr
    ensures r[Phoff(ehdr)..Phoff(ehdr) + |phdrs|] == phdrs
    ensures forall j | EHSIZE <= j < |r| && j < |file| && !(Phoff(ehdr) <= j < Phoff(ehdr) + |phdrs|) :: r[j] == file[j]
  {
    var phoff := Phoff(ehdr);
    hide Get32;
    var first := WriteAt(file, 0, ehdr);
    var second := WriteAt(first, phoff, phdrs);
    var size := newsize;
    if size < phoff + |phdrs| {
      size := phoff + |phdrs|;
    }
    r := Resize(second, size);
    hide WriteAt, Resize;
    assert r[phoff..phoff + |phdrs|] == second[phoff..phoff + |phdrs|];
    if phoff >= EHSIZE {
      assert r[..EHSIZE] == second[..EHSIZE] == first[0..EHSIZE];
    }
  }

  // ------------------------------------------------------------------------------ main

  /** The checks of readelfheader for a 32-bit i386 executable or shared object. */
  predicate Accepted(file: seq<byte>)
  {
    && |file| >= EHSIZE
    && file[0] == 0x7f && file[1] == 0x45 && file[2] == 0x4c && file[3] == 0x46
    && file[5] == 1 && file[4] == 1
    && Get16(file, 18) == 3
    && Get16(file, 40) == EHSIZE && Get16(file, 42) == PHSIZE
    && (Get16(file, 16) == 2 || Get16(file, 16) == 3)
  }

  /** The new file: the headers are the old ones, cut down for the size n, and the rest is the
      old file up to that size. The table is read from behind the ELF header, and written to
      where e_phoff says. */
  ghost predicate Stripped(file: seq<byte>, r: seq<byte>, n: nat)
  {
    && |file| >= EHSIZE && n <= |file|
    && var m, phoff := Phnum(file), Phoff(file);
       && Table(file, EHSIZE, m) && Table(r, phoff, m)
       && |r| == (if n < phoff + PHSIZE * m then phoff + PHSIZE * m else n)
       && (phoff >= EHSIZE ==> r[..EHSIZE] == NewHeader(file[..EHSIZE], n))
       && (forall i | 0 <= i < m :: Adjusted(file, EHSIZE, r, phoff, i, n))
       && (forall j | EHSIZE <= j < |r| && j < |file| && !(phoff <= j < phoff + PHSIZE * m) :: r[j] == file[j])
  }

  /** Up to `size` the file holds everything that used entries refer to, and from n on that
      is zero. */
  ghost predicate Covers(file: seq<byte>, n: nat, size: nat)
    requires |file| >= EHSIZE && Table(file, EHSIZE, Phnum(file))
  {
    && n <= size <= |file|
    && (forall j | n <= j < size :: file[j] == 0)
    && forall i | 0 <= i < Phnum(file) :: Type(file, EHSIZE, i) != 0 ==> EndAt(file, EHSIZE, i) <= size
  }

  function EndAt(t: seq<byte>, at: nat, i: nat): nat
    requires Table(t, at, i + 1)
  {
    U32(Offset(t, at, i) + Filesz(t, at, i))
  }

  /** The table that readphdrtable reads is the part of the file behind the ELF header. */
  lemma TableRead(file: seq<byte>, m: nat, i: nat)
    requires Table(file, EHSIZE, m) && i < m
    ensures var t := file[EHSIZE..EHSIZE + PHSIZE * m];
            && Table(t, 0, m)
            && Type(t, 0, i) == Type(file, EHSIZE, i)
            && Offset(t, 0, i) == Offset(file, EHSIZE, i)
            && Filesz(t, 0, i) == Filesz(file, EHSIZE, i)
            && End(t, i) == EndAt(file, EHSIZE, i)
  {
    hide Get32;
    var t, at := file[EHSIZE..EHSIZE + PHSIZE * m], EHSIZE + 32 * i;
    Inner(file, EHSIZE, EHSIZE + PHSIZE * m, 32 * i, 32 * i + 4);
    Inner(file, EHSIZE, EHSIZE + PHSIZE * m, 32 * i + 4, 32 * i + 8);
    Inner(file, EHSIZE, EHSIZE + PHSIZE * m, 32 * i + 16, 32 * i + 20);
    GetSame(t, 32 * i, file, at);
    GetSame(t, 32 * i + 4, file, at + 4);
    GetSame(t, 32 * i + 16, file, at + 16);
  }

  /** And the table that is written is that of the new file. */
  lemma TableWritten(file: seq<byte>, r: seq<byte>, m: nat, u: seq<byte>, to: nat, i: nat, n: nat)
    requires Table(file, EHSIZE, m) && Table(r, to, m) && i < m && |u| == PHSIZE * m
    requires r[to..to + PHSIZE * m] == u
    requires Adjusted(file[EHSIZE..EHSIZE + PHSIZE * m], 0, u, 0, i, n)
    ensures Adjusted(file, EHSIZE, r, to, i, n)
  {
    hide Get32, NewFilesz;
    TableRead(file, m, i);
    Inner(file, EHSIZE, EHSIZE + PHSIZE * m, 32 * i, 32 * i + 16);
    Inner(file, EHSIZE, EHSIZE + PHSIZE * m, 32 * i + 20, 32 * i + 32);
    Inner(r, to, to + PHSIZE * m, 32 * i, 32 * i + 16);
    Inner(r, to, to + PHSIZE * m, 32 * i + 16, 32 * i + 20);
    Inner(r, to, to + PHSIZE * m, 32 * i + 20, 32 * i + 32);
    GetSame(u, 32 * i + 16, r, to + 32 * i + 16);
  }

  lemma HeaderRead(file: seq<byte>)
    requires |file| >= EHSIZE
    ensures Phoff(file[..EHSIZE]) == Phoff(file) && Phnum(file[..EHSIZE]) == Phnum(file)
  {
  }

  lemma HeaderKeeps(e: seq<byte>, n: nat)
    requires |e| == EHSIZE
    ensures Phoff(NewHeader(e, n)) == Phoff(e) && Phnum(NewHeader(e, n)) == Phnum(e)
  {
  }

  /** The size that getmemorysize gives: the end of the headers or of a used entry, whichever
      is last, in 32-bit arithmetic. */
  ghost predicate Measured(file: seq<byte>, size: nat)
    requires |file| >= EHSIZE && Table(file, EHSIZE, Phnum(file))
  {
    && size >= HeaderEnd(file)
    && (size == HeaderEnd(file)
        || exists i :: 0 <= i < Phnum(file) && Type(file, EHSIZE, i) != 0 && EndAt(file, EHSIZE, i) == size)
  }

  lemma HasSignature(file: seq<byte>)
    requires Accepted(file)
    ensures |file| >= EHSIZE && file[1] != 0
  {
  }

  /** The file that sstrip leaves, of n bytes or as many as the headers need, when the size
      that it measured is `size`. */
  ghost predicate Done(file: seq<byte>, r: seq<byte>, n: nat, size: nat)
  {
    Stripped(file, r, n) && Covers(file, n, size) && n == Trimmed(file, size) > 0 && Measured(file, size)
  }

  /** sstrip on one file. An error leaves the file alone. */
  method Sstrip(file: seq<byte>) returns (ok: bool, r: seq<byte>, ghost n: nat, ghost size: nat)
    ensures !ok ==> r == file
    ensures ok ==> Done(file, r, n, size)
    ensures ok ==> Accepted(file) && Phoff(file) != 0 && Phnum(file) != 0
    ensures Accepted(file) && Phoff(file) != 0 && Phnum(file) != 0 && Table(file, EHSIZE, Phnum(file))
            && HeaderEnd(file) <= |file|
            && (forall i | 0 <= i < Phnum(file) ::
                  Type(file, EHSIZE, i) != 0 ==> EndAt(file, EHSIZE, i) <= |file|)
            ==> ok
  {
    hide Get32, Get16, Adjusted, NewHeader, U32, Stripped, Accepted;
    ok, r, n, size := false, file, 0, 0;
    if !Accepted(file) {
      return;
    }
    HasSignature(file);
    if Phoff(file) == 0 || Phnum(file) == 0 || EHSIZE + PHSIZE * Phnum(file) > |file| {
      return;
    }
    var m, phoff := Phnum(file), Phoff(file);
    HeaderRead(file);
    var e, t := file[..EHSIZE], file[EHSIZE..EHSIZE + PHSIZE * m];
    forall i | 0 <= i < m
      ensures Type(t, 0, i) == Type(file, EHSIZE, i) && End(t, i) == EndAt(file, EHSIZE, i)
    {
      TableRead(file, m, i);
    }
    var newsize := GetMemorySize(e, t);
    if newsize <= |file| {
      SignatureUnsticks(file, newsize);
    }
    var trimmed := TruncateZeros(file, newsize);
    if trimmed.None? {
      return;
    }
    n, size := trimmed.value, newsize;
    r := Commit(file, trimmed.value);
    ok := true;
  }

  /** modifyheaders and commitchanges. */
  method Commit(file: seq<byte>, n: nat) returns (r: seq<byte>)
    requires |file| >= EHSIZE && Table(file, EHSIZE, Phnum(file)) && n <= |file|
    ensures Stripped(file, r, n)
  {
    hide Get32, Get16, Adjusted, NewHeader, U32;
    var m, phoff := Phnum(file), Phoff(file);
    HeaderRead(file);
    var ehdr := new byte[EHSIZE](i requires 0 <= i < EHSIZE => file[i]);
    var phdrs := new byte[PHSIZE * m](i requires 0 <= i < PHSIZE * m => file[EHSIZE + i]);
    ghost var e, t := file[..EHSIZE], file[EHSIZE..EHSIZE + PHSIZE * m];
    assert ehdr[..] == e && phdrs[..] == t;
    ModifyHeaders(ehdr, phdrs, n);
    HeaderKeeps(e, n);
    r := CommitChanges(file, ehdr[..], phdrs[..], n);
    forall i | 0 <= i < m
      ensures Adjusted(file, EHSIZE, r, phoff, i, n)
    {
      TableWritten(file, r, m, phdrs[..], phoff, i, n);
    }
  }

  // --------------------------------------------------------------- the loaded program

  /** Byte k of segment i in memory: a byte of the file, or zero behind p_filesz. */
  function LoadByte(file: seq<byte>, i: nat, k: nat): byte
    requires Table(file, EHSIZE, i + 1)
  {
    var p := Offset(file, EHSIZE, i) + k;
    if k < Filesz(file, EHSIZE, i) && p < |file| then file[p] else 0
  }

  /** What the system reads of a segment besides its bytes stays: type, offset, addresses,
      memory size, flags and alignment. */
  lemma EntryKept(file: seq<byte>, r: seq<byte>, n: nat, i: nat)
    requires Stripped(file, r, n) && i < Phnum(file)
    ensures var to := Phoff(file);
            && Type(r, to, i) == Type(file, EHSIZE, i) && Offset(r, to, i) == Offset(file, EHSIZE, i)
            && Memsz(r, to, i) == Memsz(file, EHSIZE, i)
            && r[to + 32 * i + 8..to + 32 * i + 16] == file[EHSIZE + 32 * i + 8..EHSIZE + 32 * i + 16]
            && r[to + 32 * i + 24..to + 32 * i + 32] == file[EHSIZE + 32 * i + 24..EHSIZE + 32 * i + 32]
  {
    var to, a := Phoff(file), EHSIZE + 32 * i;
    var b := to + 32 * i;
    assert Adjusted(file, EHSIZE, r, to, i, n);
    hide Get32, NewFilesz;
    Inner(r, b, b + 16, 0, 4);
    Inner(file, a, a + 16, 0, 4);
    GetSame(r, b, file, a);
    Inner(r, b, b + 16, 4, 8);
    Inner(file, a, a + 16, 4, 8);
    GetSame(r, b + 4, file, a + 4);
    Inner(r, b, b + 16, 8, 16);
    Inner(file, a, a + 16, 8, 16);
    Inner(r, b + 20, b + 32, 0, 4);
    Inner(file, a + 20, a + 32, 0, 4);
    GetSame(r, b + 20, file, a + 20);
    Inner(r, b + 20, b + 32, 4, 12);
    Inner(file, a + 20, a + 32, 4, 12);
  }

  /** The numbers behind KeptExactly, for one byte of one segment; `at` is the end of the headers. */
  lemma ByteKept(file: seq<byte>, r: seq<byte>, offset: uint32, filesz: uint32, n: nat, at: nat, k: nat)
    requires n <= |file| && n <= |r| && (|r| > n ==> |r| == at)
    requires k < filesz ==> at <= offset + k && (offset + k < n ==> r[offset + k] == file[offset + k])
    ensures var filesz' := NewFilesz(offset, filesz, n);
            (if k < filesz' && offset + k < |r| then r[offset + k] else 0)
            == (if k < filesz && offset + k < n then file[offset + k] else 0)
  {
  }

  /** What is loaded afterwards, for any segment, also one whose end wraps around 32 bits, and
      used or not: of the bytes outside the two headers, those below the new size are as they
      were, and the others are zero. So exactly the bytes from there on that were not zero
      change. */
  lemma KeptExactly(file: seq<byte>, r: seq<byte>, n: nat, i: nat, k: nat)
    requires Stripped(file, r, n) && Phoff(file) == EHSIZE && i < Phnum(file)
    requires k < Filesz(file, EHSIZE, i) ==> Offset(file, EHSIZE, i) + k >= EHSIZE + PHSIZE * Phnum(file)
    ensures Offset(r, EHSIZE, i) == Offset(file, EHSIZE, i)
    ensures var p := Offset(file, EHSIZE, i) + k;
            LoadByte(r, i, k) == LoadByte(file, i, k)
            <==> (k < Filesz(file, EHSIZE, i) && n <= p < |file| ==> file[p] == 0)
  {
    hide Get32, NewFilesz, Adjusted;
    TablesIn(file, r, n);
    hide Stripped;
    var offset, filesz := Offset(file, EHSIZE, i), Filesz(file, EHSIZE, i);
    EntryKept(file, r, n, i);
    FileszIs(file, r, n, i);
    PlainKept(file, r, n, offset + k);
    ByteKept(file, r, offset, filesz, n, EHSIZE + PHSIZE * Phnum(file), k);
  }

  /** sstrip keeps the program: when the table stands behind the ELF header, every used segment
      that does not wrap around loads to the same bytes as before, except where it covers the
      two headers themselves. */
  lemma ImageKept(file: seq<byte>, r: seq<byte>, n: nat, size: nat, i: nat, k: nat)
    requires Stripped(file, r, n) && Covers(file, n, size) && Phoff(file) == EHSIZE
    requires i < Phnum(file) && Type(file, EHSIZE, i) != 0
    requires Offset(file, EHSIZE, i) + Filesz(file, EHSIZE, i) < 0x1_0000_0000
    requires k < Filesz(file, EHSIZE, i) ==> Offset(file, EHSIZE, i) + k >= EHSIZE + PHSIZE * Phnum(file)
    ensures Offset(r, EHSIZE, i) == Offset(file, EHSIZE, i)
    ensures LoadByte(r, i, k) == LoadByte(file, i, k)
  {
    hide Get32, NewFilesz, Adjusted;
    TablesIn(file, r, n);
    KeptExactly(file, r, n, i, k);
    hide Stripped, Covers, LoadByte;
    Covered(file, n, size, i);
  }

  /** Which segments lose something, as the headers and the file tell before the call: `size`
      is what getmemorysize computes of them. A segment that begins behind the two headers
      loads as before, all of it, if and only if the file has nothing but zeros in that part of
      the segment that lies behind `size`. */
  lemma SegmentKept(file: seq<byte>, r: seq<byte>, n: nat, size: nat, i: nat)
    requires Done(file, r, n, size) && Phoff(file) == EHSIZE && i < Phnum(file)
    requires Offset(file, EHSIZE, i) >= EHSIZE + PHSIZE * Phnum(file)
    ensures var begin, end := Offset(file, EHSIZE, i), Offset(file, EHSIZE, i) + Filesz(file, EHSIZE, i);
            (forall k: nat :: LoadByte(r, i, k) == LoadByte(file, i, k))
            <==> forall p | size <= p < |file| && begin <= p < end :: file[p] == 0
  {
    hide Get32, Get16, Adjusted, Stripped, Measured, Trimmed, LoadByte;
    TablesIn(file, r, n);
    var offset, filesz := Offset(file, EHSIZE, i), Filesz(file, EHSIZE, i);
    forall k: nat
      ensures LoadByte(r, i, k) == LoadByte(file, i, k)
              <==> (k < filesz && n <= offset + k < |file| ==> file[offset + k] == 0)
    {
      KeptExactly(file, r, n, i, k);
    }
    if forall k: nat :: LoadByte(r, i, k) == LoadByte(file, i, k) {
      forall p | size <= p < |file| && offset <= p < offset + filesz
        ensures file[p] == 0
      {
        assert LoadByte(r, i, p - offset) == LoadByte(file, i, p - offset);
      }
    }
  }

  // ------------------------------------------------------------ a segment that wraps around

  /** The bytes that are not zero in a file with one segment of type PT_LOAD, which begins at
      byte 84, the last one, and has a p_filesz of 0xffffffad, so that it ends at byte one in
      32-bit arithmetic. */
  function WrappingByte(i: nat): byte
  {
    if i == 0 then 0x7f else if i == 1 then 0x45 else if i == 2 then 0x4c else if i == 3 then 0x46
    else if i == 4 || i == 5 || i == 44 || i == 52 || i == 84 then 1
    else if i == 16 then 2
    else if i == 18 then 3
    else if i == 28 || i == 40 then 52
    else if i == 42 then 32
    else if i == 56 then 84
    else if i == 68 then 0xad
    else if 69 <= i < 72 then 0xff
    else 0
  }

  function Wrapping(): (s: seq<byte>)
    ensures |s| == 85
  {
    seq(85, i requires 0 <= i => WrappingByte(i))
  }

  lemma WrappingAt(i: nat)
    requires i + 4 <= 85
    ensures Wrapping()[i] == WrappingByte(i)
    ensures Get16(Wrapping(), i) == WrappingByte(i) + 0x100 * WrappingByte(i + 1)
    ensures Get32(Wrapping(), i) == WrappingByte(i) + 0x100 * WrappingByte(i + 1)
                                    + 0x1_0000 * WrappingByte(i + 2) + 0x100_0000 * WrappingByte(i + 3)
  {
    hide WrappingByte;
  }

  lemma WrappingIsAccepted()
    ensures Accepted(Wrapping()) && Phoff(Wrapping()) == 52 && Phnum(Wrapping()) == 1
  {
    hide Wrapping, Get16, Get32;
    WrappingAt(0);
    WrappingAt(1);
    WrappingAt(2);
    WrappingAt(3);
    WrappingAt(4);
    WrappingAt(5);
    WrappingAt(16);
    WrappingAt(18);
    WrappingAt(28);
    WrappingAt(40);
    WrappingAt(42);
    WrappingAt(44);
  }

  lemma WrappingFields()
    ensures var f := Wrapping();
            && f[84] == 1 && Type(f, EHSIZE, 0) == 1 && Offset(f, EHSIZE, 0) == 84
            && Filesz(f, EHSIZE, 0) == 0xffff_ffad
  {
    hide Get16, Get32;
    assert Wrapping()[84] == 1;
    hide Wrapping;
    WrappingAt(52);
    WrappingAt(56);
    WrappingAt(68);
  }

  /** getmemorysize takes the end of such a segment for small: sstrip accepts the file, and cuts
      the byte off that the segment begins with. */
  lemma WrappingLoses(r: seq<byte>, n: nat, size: nat)
    requires Done(Wrapping(), r, n, size)
    ensures Accepted(Wrapping()) && HeaderEnd(Wrapping()) == size == 84 && EndAt(Wrapping(), EHSIZE, 0) == 1
    ensures LoadByte(Wrapping(), 0, 0) == 1
    ensures |r| >= 84 && LoadByte(r, 0, 0) == 0
  {
    hide Wrapping, WrappingByte, Get32, Get16, Stripped, Covers, Measured, Trimmed, Accepted;
    WrappingIsAccepted();
    WrappingFields();
    OnlySegment(Wrapping(), r, n, size);
    FileszIs(Wrapping(), r, n, 0);
    KeptExactly(Wrapping(), r, n, 0, 0);
  }

  lemma OnlySegment(file: seq<byte>, r: seq<byte>, n: nat, size: nat)
    requires Done(file, r, n, size) && |file| > EHSIZE + PHSIZE && Phnum(file) == 1
    requires EndAt(file, EHSIZE, 0) <= HeaderEnd(file)
    ensures n <= size == HeaderEnd(file) && Stripped(file, r, n)
    ensures Table(file, EHSIZE, 1) && Table(r, Phoff(file), 1)
  {
    hide Get32, Get16, U32;
  }

  lemma FileszIs(file: seq<byte>, r: seq<byte>, n: nat, i: nat)
    requires Stripped(file, r, n) && i < Phnum(file)
    ensures Filesz(r, Phoff(file), i) == NewFilesz(Offset(file, EHSIZE, i), Filesz(file, EHSIZE, i), n)
  {
    assert Adjusted(file, EHSIZE, r, Phoff(file), i, n);
    hide Get32, NewFilesz;
  }

  lemma Covered(file: seq<byte>, n: nat, size: nat, i: nat)
    requires |file| >= EHSIZE && Table(file, EHSIZE, Phnum(file)) && Covers(file, n, size)
    requires i < Phnum(file) && Type(file, EHSIZE, i) != 0
    ensures n <= size <= |file| && forall j | n <= j < size :: file[j] == 0
    ensures U32(Offset(file, EHSIZE, i) + Filesz(file, EHSIZE, i)) <= size
  {
    hide Get32, Get16, U32;
    assert EndAt(file, EHSIZE, i) <= size;
  }

  lemma TablesIn(file: seq<byte>, r: seq<byte>, n: nat)
    requires Stripped(file, r, n)
    ensures |file| >= EHSIZE && Table(file, EHSIZE, Phnum(file)) && Table(r, Phoff(file), Phnum(file))
  {
  }

  lemma PlainKept(file: seq<byte>, r: seq<byte>, n: nat, p: nat)
    requires Stripped(file, r, n) && Phoff(file) == EHSIZE
    ensures n <= |r| && n <= |file|
    ensures EHSIZE + PHSIZE * Phnum(file) <= p < n ==> r[p] == file[p]
  {
    hide Get32, Get16;
  }

  /** Everything else in the file up to the new size stays, and what goes is either zero or
      behind everything that a used entry refers to. */
  lemma OnlyUnusedGoes(file: seq<byte>, r: seq<byte>, n: nat, size: nat, j: nat)
    requires Stripped(file, r, n) && Covers(file, n, size) && Phoff(file) == EHSIZE
    requires |r| <= j < |file| && file[j] != 0
    ensures j >= size
    ensures forall i | 0 <= i < Phnum(file) :: Type(file, EHSIZE, i) != 0 ==> EndAt(file, EHSIZE, i) <= j
  {
    hide Get32;
  }

  /** Elsewhere, the entries at e_phoff are replaced by what stands behind the ELF header: a
      segment keeps its place exactly when both had put it there. */
  lemma MovedTable(file: seq<byte>, r: seq<byte>, n: nat, i: nat)
    requires Stripped(file, r, n) && i < Phnum(file) && Table(file, Phoff(file), Phnum(file))
    ensures Offset(r, Phoff(file), i) == Offset(file, Phoff(file), i)
            <==> Offset(file, EHSIZE, i) == Offset(file, Phoff(file), i)
    ensures Memsz(r, Phoff(file), i) == Memsz(file, Phoff(file), i)
            <==> Memsz(file, EHSIZE, i) == Memsz(file, Phoff(file), i)
  {
    EntryKept(file, r, n, i);
    hide Get32;
  }
}
