/** Little-endian fields of the headers of an ELF file. */
module Elf {
  import opened Nrv
  import opened BitBuffer
  import opened Layout
  import opened Simulation
  import opened Regions
  import Decoder

  const EHSIZE: nat := 52
  const PHSIZE: nat := 32

  function Get16(s: seq<byte>, at: nat): nat
    requires at + 2 <= |s|
  {
    Decoder.HalfWord(s[at], s[at + 1])
  }

  function Get32(s: seq<byte>, at: nat): uint32
    requires at + 4 <= |s|
  {
    Decoder.FullWord(s[at], s[at + 1], s[at + 2], s[at + 3])
  }

  function Put32(s: seq<byte>, at: nat, v: uint32): (r: seq<byte>)
    requires at + 4 <= |s|
    ensures |r| == |s|
  {
    Write(s, at, WordBytes(v, 4))
  }

  lemma GetPut(s: seq<byte>, at: nat, v: uint32)
    requires at + 4 <= |s|
    ensures Get32(Put32(s, at, v), at) == v
  {
    var b := WordBytes(v, 4);
    WriteGives(s, at, b);
    var r := Put32(s, at, v);
    assert r[at..at + 4] == b;
    assert r[at] == b[0] && r[at + 1] == b[1] && r[at + 2] == b[2] && r[at + 3] == b[3];
    hide WordBytes, Write, Put32;
    Pow32();
    WordRoundTrip(v, 4);
    Decoder.LittleEndianOf(b);
  }

  lemma GetSame(s: seq<byte>, at: nat, t: seq<byte>, from: nat)
    requires at + 4 <= |s| && from + 4 <= |t| && s[at..at + 4] == t[from..from + 4]
    ensures Get32(s, at) == Get32(t, from)
  {
    assert s[at] == s[at..at + 4][0] && s[at + 1] == s[at..at + 4][1];
    assert s[at + 2] == s[at..at + 4][2] && s[at + 3] == s[at..at + 4][3];
    assert t[from] == t[from..from + 4][0] && t[from + 1] == t[from..from + 4][1];
    assert t[from + 2] == t[from..from + 4][2] && t[from + 3] == t[from..from + 4][3];
  }

  /** A field is not changed by a write elsewhere. */
  lemma GetKept(s: seq<byte>, at: nat, b: seq<byte>, i: nat)
    requires at + |b| <= |s| && i + 4 <= |s| && (i + 4 <= at || at + |b| <= i)
    ensures Get32(Write(s, at, b), i) == Get32(s, i)
  {
    hide Write, Get32;
    WriteKeeps(s, at, b, i, i + 4);
    GetSame(Write(s, at, b), i, s, i);
  }

  /** A field is stored. */
  method Store32(a: array<byte>, at: nat, v: uint32)
    requires at + 4 <= a.Length
    modifies a
    ensures a[..] == Put32(old(a[..]), at, v)
  {
    a[at], a[at + 1], a[at + 2], a[at + 3] := v % 0x100, v / 0x100 % 0x100, v / 0x1_0000 % 0x100, v / 0x100_0000;
    BytesOf(v);
  }

  lemma BytesOf(v: uint32)
    ensures WordBytes(v, 4) == [v % 0x100, v / 0x100 % 0x100, v / 0x1_0000 % 0x100, v / 0x100_0000]
  {
    var a, b, c := v / 0x100, v / 0x1_0000, v / 0x100_0000;
    assert a / 0x100 == b && b / 0x100 == c && c % 0x100 == c && c / 0x100 == 0;
    assert WordBytes(v, 4) == [v % 0x100] + WordBytes(a, 3);
    assert WordBytes(a, 3) == [a % 0x100] + WordBytes(b, 2);
    assert WordBytes(b, 2) == [b % 0x100] + WordBytes(c, 1);
    assert WordBytes(c, 1) == [c % 0x100] + WordBytes(0, 0);
  }
}
