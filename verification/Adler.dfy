/** ucl_adler32: the Adler-32 checksum of section 2.2 of RFC 1950, with the two reductions
    deferred to the end of a chunk. */
module Adler {
  import opened Nrv
  import opened BitBuffer

  const BASE: nat := 65521
  const NMAX: nat := 5552

  /** The two sums, reduced after every byte. */
  function Update(s1: nat, s2: nat, data: seq<byte>): (nat, nat)
    decreases |data|
  {
    if data == [] then (s1, s2)
    else
      var s1' := (s1 + data[0]) % BASE;
      Update(s1', (s2 + s1') % BASE, data[1..])
  }

  function Pack(s: (nat, nat)): nat { s.1 * 0x1_0000 + s.0 }

  function Checksum(adler: uint32, data: seq<byte>): nat
  {
    Pack(Update(adler % 0x1_0000, adler / 0x1_0000, data))
  }

  /** The two sums without any reduction. */
  function Raw(s1: nat, s2: nat, data: seq<byte>): (nat, nat)
    decreases |data|
  {
    if data == [] then (s1, s2) else Raw(s1 + data[0], s2 + s1 + data[0], data[1..])
  }

  lemma {:induction false} RawConcat(s1: nat, s2: nat, a: seq<byte>, b: seq<byte>)
    decreases |a|
    ensures Raw(s1, s2, a + b) == Raw(Raw(s1, s2, a).0, Raw(s1, s2, a).1, b)
  {
    if a == [] {
      assert a + b == b;
    } else {
      assert (a + b)[1..] == a[1..] + b;
      RawConcat(s1 + a[0], s2 + s1 + a[0], a[1..], b);
    }
  }

  lemma {:induction false} UpdateConcat(s1: nat, s2: nat, a: seq<byte>, b: seq<byte>)
    decreases |a|
    ensures Update(s1, s2, a + b) == Update(Update(s1, s2, a).0, Update(s1, s2, a).1, b)
  {
    if a == [] {
      assert a + b == b;
    } else {
      assert (a + b)[1..] == a[1..] + b;
      var s1' := (s1 + a[0]) % BASE;
      UpdateConcat(s1', (s2 + s1') % BASE, a[1..], b);
    }
  }

  lemma ModStep(r: nat, s: nat, x: nat, y: nat)
    requires r % BASE == s % BASE && x % BASE == y % BASE
    ensures (r + x) % BASE == (s + y) % BASE == (s + y) % BASE % BASE
  {
  }

  /** Sums that are congruent stay congruent. */
  lemma {:induction false} Deferred(r1: nat, r2: nat, s1: nat, s2: nat, data: seq<byte>)
    requires r1 % BASE == s1 % BASE && r2 % BASE == s2 % BASE
    ensures Raw(r1, r2, data).0 % BASE == Update(s1, s2, data).0 % BASE
    ensures Raw(r1, r2, data).1 % BASE == Update(s1, s2, data).1 % BASE
    decreases data
  {
    if data != [] {
      var s1' := (s1 + data[0]) % BASE;
      ModStep(r1, s1, data[0], data[0]);
      ModStep(r2, s2, r1 + data[0], s1');
      Deferred(r1 + data[0], r2 + (r1 + data[0]), s1', (s2 + s1') % BASE, data[1..]);
    }
  }

  lemma {:induction false} Reduced(s1: nat, s2: nat, data: seq<byte>)
    requires s1 < 0x1_0000 && s2 < 0x1_0000
    ensures Update(s1, s2, data).0 < 0x1_0000 && Update(s1, s2, data).1 < 0x1_0000
    ensures data != [] ==> Update(s1, s2, data).0 < BASE && Update(s1, s2, data).1 < BASE
    decreases |data|
  {
    if data != [] {
      var s1' := (s1 + data[0]) % BASE;
      Reduced(s1', (s2 + s1') % BASE, data[1..]);
    }
  }

  /** Reducing once at the end gives what reducing after every byte gives. */
  lemma ReduceOnce(s1: nat, s2: nat, data: seq<byte>)
    requires data != [] && s1 < 0x1_0000 && s2 < 0x1_0000
    ensures Update(s1, s2, data) == (Raw(s1, s2, data).0 % BASE, Raw(s1, s2, data).1 % BASE)
  {
    Deferred(s1, s2, s1, s2, data);
    Reduced(s1, s2, data);
    hide Raw, Update;
  }

  /** The checksum as the standard words it: s1 is one more than the sum of all bytes, s2 the
      sum of all values that s1 takes. */
  function ByteSum(data: seq<byte>): nat
  {
    if data == [] then 1 else ByteSum(data[..|data| - 1]) + data[|data| - 1]
  }

  function SumOfSums(data: seq<byte>): nat
  {
    if data == [] then 0 else SumOfSums(data[..|data| - 1]) + ByteSum(data)
  }

  lemma {:induction false} RawIsSums(data: seq<byte>)
    ensures Raw(1, 0, data) == (ByteSum(data), SumOfSums(data))
  {
    if data != [] {
      var n := |data| - 1;
      RawIsSums(data[..n]);
      assert data == data[..n] + [data[n]];
      RawConcat(1, 0, data[..n], [data[n]]);
    }
  }

  lemma ChecksumOfSums(data: seq<byte>)
    ensures Checksum(1, data) == SumOfSums(data) % BASE * 0x1_0000 + ByteSum(data) % BASE
  {
    RawIsSums(data);
    if data != [] {
      ReduceOnce(1, 0, data);
    }
  }

  lemma Halves(s: (nat, nat))
    requires s.0 < 0x1_0000 && s.1 < 0x1_0000
    ensures Pack(s) < 0x1_0000_0000 && Pack(s) % 0x1_0000 == s.0 && Pack(s) / 0x1_0000 == s.1
  {
  }

  lemma ChecksumIsWord(adler: uint32, data: seq<byte>)
    ensures Checksum(adler, data) < 0x1_0000_0000
  {
    Reduced(adler % 0x1_0000, adler / 0x1_0000, data);
  }

  /** The checksum of a whole is the checksum of its second part, seeded with that of the first. */
  lemma Composes(adler: uint32, a: seq<byte>, b: seq<byte>)
    ensures Checksum(adler, a) < 0x1_0000_0000
    ensures Checksum(adler, a + b) == Checksum(Checksum(adler, a), b)
  {
    UpdateConcat(adler % 0x1_0000, adler / 0x1_0000, a, b);
    Reduced(adler % 0x1_0000, adler / 0x1_0000, a);
    Halves(Update(adler % 0x1_0000, adler / 0x1_0000, a));
    hide Update, Pack;
  }

  // ----------------------------------------------------------------- no overflow

  /** The largest s2 can be after i bytes of a chunk. */
  function Peak(i: nat): nat
  {
    if i == 0 then 0xffff else Peak(i - 1) + 0xffff + 255 * i
  }

  lemma {:induction false} PeakIs(i: nat)
    ensures 2 * Peak(i) == 2 * 0xffff * (i + 1) + 255 * (i * (i + 1))
  {
    if i > 0 {
      PeakIs(i - 1);
      assert i * (i + 1) == (i - 1) * i + 2 * i;
    }
  }

  lemma {:induction false} PeakGrows(i: nat, j: nat)
    requires i <= j
    ensures Peak(i) <= Peak(j)
    decreases j - i
  {
    if i < j {
      PeakGrows(i, j - 1);
    }
  }

  /** The sums i bytes into a chunk. Both start below 2^16. */
  predicate Bounded(s1: nat, s2: nat, i: nat) { s1 <= 0xffff + 255 * i && s2 <= Peak(i) && i <= NMAX }

  lemma PeakIsWord(i: nat)
    requires i <= NMAX
    ensures Peak(i) < 0x1_0000_0000
  {
    PeakIs(NMAX);
    PeakGrows(i, NMAX);
  }

  /** One byte more would not be enough: the limit is the largest that is safe. */
  lemma LimitIsTight()
    ensures Peak(NMAX) < 0x1_0000_0000 <= Peak(NMAX + 1)
  {
    PeakIs(NMAX);
    PeakIs(NMAX + 1);
  }

  // -------------------------------------------------------------------- the function

  /** UCL_DO1. The types of the results say that nothing overflows. */
  method Do1(s1: uint32, s2: uint32, x: byte, ghost i: nat) returns (r1: uint32, r2: uint32)
    requires i < NMAX && Bounded(s1, s2, i)
    ensures (r1, r2) == Raw(s1, s2, [x]) && Bounded(r1, r2, i + 1)
  {
    PeakIsWord(i + 1);
    r1 := s1 + x;
    r2 := s2 + r1;
    assert Raw(s1 + x, s2 + s1 + x, [x][1..]) == (r1, r2);
  }

  method Do2(s1: uint32, s2: uint32, d: seq<byte>, ghost i: nat) returns (r1: uint32, r2: uint32)
    requires |d| == 2 && i + 2 <= NMAX && Bounded(s1, s2, i)
    ensures (r1, r2) == Raw(s1, s2, d) && Bounded(r1, r2, i + 2)
  {
    r1, r2 := Do1(s1, s2, d[0], i);
    r1, r2 := Do1(r1, r2, d[1], i + 1);
    assert d == [d[0]] + [d[1]];
    RawConcat(s1, s2, [d[0]], [d[1]]);
  }

  method Do4(s1: uint32, s2: uint32, d: seq<byte>, ghost i: nat) returns (r1: uint32, r2: uint32)
    requires |d| == 4 && i + 4 <= NMAX && Bounded(s1, s2, i)
    ensures (r1, r2) == Raw(s1, s2, d) && Bounded(r1, r2, i + 4)
  {
    hide Raw;
    r1, r2 := Do2(s1, s2, d[..2], i);
    r1, r2 := Do2(r1, r2, d[2..], i + 2);
    assert d == d[..2] + d[2..];
    RawConcat(s1, s2, d[..2], d[2..]);
  }

  method Do8(s1: uint32, s2: uint32, d: seq<byte>, ghost i: nat) returns (r1: uint32, r2: uint32)
    requires |d| == 8 && i + 8 <= NMAX && Bounded(s1, s2, i)
    ensures (r1, r2) == Raw(s1, s2, d) && Bounded(r1, r2, i + 8)
  {
    hide Raw;
    r1, r2 := Do4(s1, s2, d[..4], i);
    r1, r2 := Do4(r1, r2, d[4..], i + 4);
    assert d == d[..4] + d[4..];
    RawConcat(s1, s2, d[..4], d[4..]);
  }

  method Do16(s1: uint32, s2: uint32, d: seq<byte>, ghost i: nat) returns (r1: uint32, r2: uint32)
    requires |d| == 16 && i + 16 <= NMAX && Bounded(s1, s2, i)
    ensures (r1, r2) == Raw(s1, s2, d) && Bounded(r1, r2, i + 16)
  {
    hide Raw;
    r1, r2 := Do8(s1, s2, d[..8], i);
    r1, r2 := Do8(r1, r2, d[8..], i + 8);
    assert d == d[..8] + d[8..];
    RawConcat(s1, s2, d[..8], d[8..]);
  }

  /** The two inner loops, on a chunk of at most NMAX bytes. */
  method Chunk(s1: uint32, s2: uint32, d: seq<byte>) returns (r1: uint32, r2: uint32)
    requires |d| <= NMAX && s1 <= 0xffff && s2 <= 0xffff
    ensures (r1, r2) == Raw(s1, s2, d)
  {
    hide Raw;
    r1, r2 := s1, s2;
    var at := 0;
    assert d[0..] == d;
    while |d| - at >= 16
      invariant 0 <= at <= |d| && Bounded(r1, r2, at) && Raw(r1, r2, d[at..]) == Raw(s1, s2, d)
    {
      assert d[at..] == d[at..at + 16] + d[at + 16..];
      RawConcat(r1, r2, d[at..at + 16], d[at + 16..]);
      r1, r2 := Do16(r1, r2, d[at..at + 16], at);
      at := at + 16;
    }
    while at < |d|
      invariant 0 <= at <= |d| && Bounded(r1, r2, at) && Raw(r1, r2, d[at..]) == Raw(s1, s2, d)
    {
      assert d[at..] == [d[at]] + d[at + 1..];
      RawConcat(r1, r2, [d[at]], d[at + 1..]);
      r1, r2 := Do1(r1, r2, d[at], at);
      at := at + 1;
    }
    RawNothing(r1, r2);
    assert d[at..] == [];
  }

  lemma RawNothing(s1: nat, s2: nat)
    ensures Raw(s1, s2, []) == (s1, s2)
  {
  }

  /** ucl_adler32; None is the null pointer. */
  method Adler32(adler: uint32, buf: Option<seq<byte>>) returns (r: uint32)
    ensures r == if buf.None? then 1 else Checksum(adler, buf.value)
  {
    hide Raw, Update;
    if buf.None? {
      return 1;
    }
    var s1: uint32, s2: uint32 := adler % 0x1_0000, adler / 0x1_0000;
    var rest := buf.value;
    while |rest| > 0
      invariant s1 <= 0xffff && s2 <= 0xffff
      invariant Update(s1, s2, rest) == Update(adler % 0x1_0000, adler / 0x1_0000, buf.value)
      decreases |rest|
    {
      var k := if |rest| < NMAX then |rest| else NMAX;
      assert rest == rest[..k] + rest[k..];
      UpdateConcat(s1, s2, rest[..k], rest[k..]);
      ReduceOnce(s1, s2, rest[..k]);
      s1, s2 := Chunk(s1, s2, rest[..k]);
      s1, s2 := s1 % BASE, s2 % BASE;
      rest := rest[k..];
    }
    UpdateNothing(s1, s2);
    return s2 * 0x1_0000 + s1;
  }

  lemma UpdateNothing(s1: nat, s2: nat)
    ensures Update(s1, s2, []) == (s1, s2)
  {
  }
}
