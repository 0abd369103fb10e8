/** What a compressed block means, and how the compressor codes it. */
module Tokens {
  import opened Nrv
  import opened PrefixCode

  /** One literal byte, or len bytes copied from off places back. */
  datatype Token = Lit(b: byte) | Match(off: nat, len: nat) {
    /** Number of bytes produced. */
    function Size(): nat { if Lit? then 1 else len }
  }

  /** `out` extended by n bytes, each equal to the byte `off` places before it. */
  function Extend(out: seq<byte>, off: nat, n: nat): (r: seq<byte>)
    requires 1 <= off <= |out|
    ensures |r| == |out| + n
    decreases n
  {
    if n == 0 then out else Extend(out + [out[|out| - off]], off, n - 1)
  }

  /** `out` extended by what one token produces. */
  function Apply(t: Token, out: seq<byte>): (r: seq<byte>)
    requires Within(t, |out|)
    ensures |r| == |out| + t.Size()
  {
    match t
    case Lit(b) => out + [b]
    case Match(off, len) => Extend(out, off, len)
  }

  /** The bytes that a list of tokens produces after `out`. */
  function Expand(ts: seq<Token>, out: seq<byte>): seq<byte>
    requires Reachable(ts, |out|)
  {
    if ts == [] then out else Expand(ts[1..], Apply(ts[0], out))
  }

  /** Number of bytes after a list of tokens. */
  function Total(ts: seq<Token>, olen: nat): (n: nat)
    ensures n >= olen
  {
    if ts == [] then olen else Total(ts[1..], olen + ts[0].Size())
  }

  predicate Within(t: Token, olen: nat) { t.Match? ==> 1 <= t.off <= olen }

  /** No match reaches back before the first byte. */
  predicate Reachable(ts: seq<Token>, olen: nat)
  {
    ts == [] || (Within(ts[0], olen) && Reachable(ts[1..], olen + ts[0].Size()))
  }

  /** The compressor emits no match of one byte, and none of two bytes from far away. */
  predicate Codable(fmt: Format, t: Token)
  {
    t.Match? ==> t.off >= 1 && t.len >= if t.off > Near(fmt) then 3 else 2
  }

  predicate AllCodable(fmt: Format, ts: seq<Token>)
  {
    ts == [] || (Codable(fmt, ts[0]) && AllCodable(fmt, ts[1..]))
  }

  predicate Valid(fmt: Format, ts: seq<Token>, olen: nat)
  {
    Reachable(ts, olen) && AllCodable(fmt, ts)
  }

  /** First bit of a length; sent inside the offset byte by NRV2D and NRV2E. */
  function LowBit(fmt: Format, n: nat): bit
  {
    if fmt.Nrv2e? then (if n <= 2 then 1 else 0) else if 1 < n < 4 then 1 else 0
  }

  /** The rest of the code of a length. */
  function LenTail(fmt: Format, n: nat): seq<Op>
    requires n >= 1
  {
    if fmt.Nrv2e? then
      if n <= 2 then [Bit(n - 1)]
      else if n <= 4 then [Bit(1), Bit(n - 3)]
      else [Bit(0)] + Code(false, n - 3)
    else
      if n < 4 then [Bit(n % 2)] else [Bit(0)] + Code(false, n - 2)
  }

  /** Everything up to and including the first bit of the length. */
  function OffsetOps(fmt: Format, last: nat, off: nat, low: bit): seq<Op>
    requires off >= 1
  {
    if off == last then [Bit(0), Bit(1), Bit(low)]
    else if fmt.Nrv2b? then
      Code(false, 3 + (off - 1) / 0x100) + [Byte((off - 1) % 0x100), Bit(low)]
    else
      Code(true, 3 + (off - 1) / 0x80) + [Byte((off - 1) % 0x80 * 2 + 1 - low)]
  }

  /** The length as it is coded: less one, and less one more for a far match. */
  function CodedLen(fmt: Format, t: Token): nat
    requires t.Match? && Codable(fmt, t)
  {
    t.len - 1 - if t.off > Near(fmt) then 1 else 0
  }

  function TokenOps(fmt: Format, last: nat, t: Token): seq<Op>
    requires Codable(fmt, t)
  {
    match t
    case Lit(b) => [Bit(1), Byte(b)]
    case Match(off, len) =>
      var n := CodedLen(fmt, t);
      [Bit(0)] + OffsetOps(fmt, last, off, LowBit(fmt, n)) + LenTail(fmt, n)
  }

  function LastAfter(last: nat, t: Token): nat { if t.Lit? then last else t.off }

  const END_CODE: nat := 0x100_0002

  /** The end marker: an offset code and a byte that no match has. */
  function EndOps(fmt: Format): seq<Op>
  {
    [Bit(0)] + Code(!fmt.Nrv2b?, END_CODE) + [Byte(0xff)]
  }

  function Encode(fmt: Format, ts: seq<Token>, last: nat): seq<Op>
    requires AllCodable(fmt, ts)
  {
    if ts == [] then EndOps(fmt)
    else TokenOps(fmt, last, ts[0]) + Encode(fmt, ts[1..], LastAfter(last, ts[0]))
  }

  lemma {:induction false} ExpandLength(ts: seq<Token>, out: seq<byte>)
    requires Reachable(ts, |out|)
    ensures |Expand(ts, out)| == Total(ts, |out|)
    ensures out <= Expand(ts, out)
  {
    if ts != [] {
      if ts[0].Match? {
        ExtendPrefix(out, ts[0].off, ts[0].len);
      }
      ExpandLength(ts[1..], Apply(ts[0], out));
    }
  }

  lemma {:induction false} ExpandAppend(a: seq<Token>, b: seq<Token>, out: seq<byte>)
    requires Reachable(a + b, |out|)
    ensures Reachable(a, |out|) && Reachable(b, |Expand(a, out)|)
    ensures Expand(a + b, out) == Expand(b, Expand(a, out))
  {
    if a == [] {
      assert a + b == b;
    } else {
      assert (a + b)[1..] == a[1..] + b;
      ExpandAppend(a[1..], b, Apply(a[0], out));
    }
  }

  lemma {:induction false} ExtendPrefix(out: seq<byte>, off: nat, n: nat)
    requires 1 <= off <= |out|
    ensures out <= Extend(out, off, n)
    decreases n
  {
    if n > 0 {
      ExtendPrefix(out + [out[|out| - off]], off, n - 1);
    }
  }

  /** A copy may overlap its own output: every copied byte equals the one `off` places
      before it in the result, so the last `off` bytes are repeated periodically. */
  lemma {:induction false} ExtendIsPeriodic(out: seq<byte>, off: nat, n: nat, i: nat)
    requires 1 <= off <= |out| && i < n
    ensures Extend(out, off, n)[|out| + i] == Extend(out, off, n)[|out| + i - off]
    decreases i
  {
    var out' := out + [out[|out| - off]];
    ExtendPrefix(out', off, n - 1);
    if i > 0 {
      ExtendIsPeriodic(out', off, n - 1, i - 1);
    }
  }

  // ----------------------------------------------------------------- long matches

  /** A match that is longer than `max` is coded as several: all but the last have max - 3. */
  function Parts(t: Token, max: nat): (ts: seq<Token>)
    requires max >= 8
    ensures ts != []
    decreases t.Size()
  {
    if t.Match? && t.len > max then [Match(t.off, max - 3)] + Parts(Match(t.off, t.len - (max - 3)), max) else [t]
  }

  function Shortened(ts: seq<Token>, max: nat): seq<Token>
    requires max >= 8
  {
    if ts == [] then [] else Parts(ts[0], max) + Shortened(ts[1..], max)
  }

  lemma {:induction false} ExtendTwice(out: seq<byte>, off: nat, m: nat, n: nat)
    requires 1 <= off <= |out|
    ensures Extend(Extend(out, off, m), off, n) == Extend(out, off, m + n)
    decreases m
  {
    if m > 0 {
      ExtendTwice(out + [out[|out| - off]], off, m - 1, n);
    }
  }

  lemma OneMore(fmt: Format, t: Token, rest: seq<Token>, out: seq<byte>)
    requires Codable(fmt, t) && Within(t, |out|) && Valid(fmt, rest, |out| + t.Size())
    ensures Valid(fmt, [t] + rest, |out|) && Expand([t] + rest, out) == Expand(rest, Apply(t, out))
  {
    hide Codable, Within, Apply;
    assert ([t] + rest)[0] == t && ([t] + rest)[1..] == rest;
  }

  lemma ApplyTwice(out: seq<byte>, off: nat, m: nat, n: nat)
    requires 1 <= off <= |out|
    ensures Apply(Match(off, n), Apply(Match(off, m), out)) == Apply(Match(off, m + n), out)
  {
    ExtendTwice(out, off, m, n);
  }

  /** The parts of a match are codable, none is too long, and they yield what it yields. */
  lemma {:induction false} PartsMean(fmt: Format, t: Token, max: nat, rest: seq<Token>, out: seq<byte>)
    requires max >= 8 && Codable(fmt, t) && Within(t, |out|) && Valid(fmt, rest, |out| + t.Size())
    ensures Valid(fmt, Parts(t, max) + rest, |out|)
    ensures Expand(Parts(t, max) + rest, out) == Expand(rest, Apply(t, out))
    decreases t.Size()
  {
    hide Valid, Apply, Expand;
    if t.Match? && t.len > max {
      var first, more := Match(t.off, max - 3), Match(t.off, t.len - (max - 3));
      ApplyTwice(out, t.off, max - 3, more.len);
      PartsMean(fmt, more, max, rest, Apply(first, out));
      assert Parts(t, max) + rest == [first] + (Parts(more, max) + rest);
      OneMore(fmt, first, Parts(more, max) + rest, out);
    } else {
      OneMore(fmt, t, rest, out);
    }
  }

  /** Splitting long matches does not change what a token list stands for. */
  lemma {:induction false} SplitMeans(fmt: Format, ts: seq<Token>, max: nat, out: seq<byte>)
    requires max >= 8 && Valid(fmt, ts, |out|)
    ensures Valid(fmt, Shortened(ts, max), |out|) && Expand(Shortened(ts, max), out) == Expand(ts, out)
    decreases |ts|
  {
    if ts != [] {
      SplitMeans(fmt, ts[1..], max, Apply(ts[0], out));
      PartsMean(fmt, ts[0], max, Shortened(ts[1..], max), out);
    }
  }

  predicate NoneLonger(ts: seq<Token>, max: nat) { forall i | 0 <= i < |ts| :: ts[i].Match? ==> ts[i].len <= max }

  lemma {:induction false} PartsAreShort(t: Token, max: nat)
    requires max >= 8
    ensures NoneLonger(Parts(t, max), max)
    decreases t.Size()
  {
    if t.Match? && t.len > max {
      PartsAreShort(Match(t.off, t.len - (max - 3)), max);
    }
  }

  /** No match of the result is too long, and a list without such matches is left as it is. */
  lemma {:induction false} SplitShortens(ts: seq<Token>, max: nat)
    requires max >= 8
    ensures NoneLonger(Shortened(ts, max), max)
    ensures NoneLonger(ts, max) ==> Shortened(ts, max) == ts
  {
    if ts != [] {
      PartsAreShort(ts[0], max);
      SplitShortens(ts[1..], max);
      assert forall i | 0 <= i < |ts| - 1 :: ts[1..][i] == ts[i + 1];
    }
  }

  /** Codability without reachability, and the parts one by one: what the coder goes by. */
  lemma {:induction false} PartsCode(fmt: Format, t: Token, max: nat, rest: seq<Token>, last: nat)
    requires max >= 8 && Codable(fmt, t) && AllCodable(fmt, rest)
    ensures AllCodable(fmt, Parts(t, max) + rest)
    ensures Encode(fmt, Parts(t, max) + rest, last)
         == PartsOps(fmt, last, t, max) + Encode(fmt, rest, LastAfter(last, t))
    decreases t.Size()
  {
    hide TokenOps, EndOps;
    if t.Match? && t.len > max {
      var first, more := Match(t.off, max - 3), Match(t.off, t.len - (max - 3));
      PartsCode(fmt, more, max, rest, t.off);
      assert Parts(t, max) + rest == [first] + (Parts(more, max) + rest);
      assert (Parts(t, max) + rest)[1..] == Parts(more, max) + rest;
    } else {
      assert ([t] + rest)[1..] == rest;
    }
  }

  /** What is put for a token whose long match is split. */
  function PartsOps(fmt: Format, last: nat, t: Token, max: nat): seq<Op>
    requires max >= 8 && Codable(fmt, t)
    decreases t.Size()
  {
    if t.Match? && t.len > max then
      TokenOps(fmt, last, Match(t.off, max - 3)) + PartsOps(fmt, t.off, Match(t.off, t.len - (max - 3)), max)
    else TokenOps(fmt, last, t)
  }
}
