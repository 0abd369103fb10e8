/** Stretches of a longer sequence. */
module Regions {
  import opened Nrv
  import opened Simulation

  /** The memory at p holds s. */
  ghost predicate HoldsAt(mem: seq<byte>, p: nat, s: seq<byte>) { p + |s| <= |mem| && mem[p..p + |s|] == s }

  lemma Cut<T>(s: seq<T>, i: nat, j: nat, k: nat)
    requires i <= j <= k <= |s|
    ensures s[i..k] == s[i..j] + s[j..k]
    ensures s[i..k][..j - i] == s[i..j] && s[i..k][j - i..] == s[j..k]
  {
  }

  lemma Inner<T>(s: seq<T>, i: nat, k: nat, a: nat, b: nat)
    requires a <= b && i + b <= k <= |s|
    ensures s[i..k][a..b] == s[i + a..i + b]
  {
    forall e | 0 <= e < b - a
      ensures s[i..k][a..b][e] == s[i + a..i + b][e]
    {
      assert s[i..k][a + e] == s[i + a + e];
    }
  }

  lemma HoldsParts(mem: seq<byte>, p: nat, a: seq<byte>, b: seq<byte>)
    ensures HoldsAt(mem, p, a + b) <==> HoldsAt(mem, p, a) && HoldsAt(mem, p + |a|, b)
  {
    if HoldsAt(mem, p, a + b) {
      Cut(mem, p, p + |a|, p + |a + b|);
    } else if HoldsAt(mem, p, a) && HoldsAt(mem, p + |a|, b) {
      Cut(mem, p, p + |a|, p + |a + b|);
    }
  }

  lemma HoldsWithin(mem: seq<byte>, p: nat, s: seq<byte>)
    requires HoldsAt(mem, p, s)
    ensures p + |s| <= |mem|
  {
  }

  lemma FrameHeld(mem: seq<byte>, p: nat, a: seq<byte>, b: seq<byte>, c: seq<byte>, d: seq<byte>, e: seq<byte>)
    requires HoldsAt(mem, p, a + b + c + d + e)
    ensures HoldsAt(mem, p, a) && HoldsAt(mem, p + |a|, b) && HoldsAt(mem, p + |a| + |b|, c)
    ensures HoldsAt(mem, p + |a| + |b| + |c|, d + e)
  {
    hide HoldsAt;
    assert a + b + c + d + e == a + b + c + (d + e);
    HoldsParts(mem, p, a + b + c, d + e);
    HoldsParts(mem, p, a + b, c);
    HoldsParts(mem, p, a, b);
  }

  lemma HoldsBelow(mem: seq<byte>, mem': seq<byte>, p: nat, s: seq<byte>, n: nat)
    requires HoldsAt(mem, p, s) && p + |s| <= n <= |mem| && n <= |mem'| && mem'[..n] == mem[..n]
    ensures HoldsAt(mem', p, s)
  {
    Inner(mem, 0, n, p, p + |s|);
    Inner(mem', 0, n, p, p + |s|);
  }

  lemma HeldSlice(mem: seq<byte>, p: nat, s: seq<byte>)
    requires HoldsAt(mem, p, s)
    ensures p + |s| <= |mem| && mem[p..p + |s|] == s
  {
  }

  lemma WriteKeeps(mem: seq<byte>, at: nat, s: seq<byte>, i: nat, j: nat)
    requires at + |s| <= |mem| && i <= j <= |mem| && (j <= at || at + |s| <= i)
    ensures Write(mem, at, s)[i..j] == mem[i..j]
  {
  }

  lemma WriteGives(mem: seq<byte>, at: nat, s: seq<byte>)
    requires at + |s| <= |mem|
    ensures Write(mem, at, s)[at..at + |s|] == s
  {
  }
}
