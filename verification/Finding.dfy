/** Which matches match finding takes, as far as the bytes decide it: at every place the longest
    one that it may look at, and among those the nearest. */
module Finding {
  import opened Nrv
  import opened Tokens
  import opened NineBits

  /** The bytes at p are those off places before. */
  predicate MatchAt(s: seq<byte>, p: nat, off: nat, len: nat)
  {
    1 <= off <= p && p + len <= |s| && forall q | p <= q < p + len :: s[q] == s[q - off]
  }

  /** There is a match at p that may be coded. */
  ghost predicate HasMatch(fmt: Format, window: nat, s: seq<byte>, p: nat)
  {
    exists off: nat, len: nat :: MatchAt(s, p, off, len) && off <= window && Codable(fmt, Match(off, len))
  }

  /** SWD_F: no match is longer. */
  const LONGEST: nat := 2048

  /** What is taken at p, and is not put off for a match at one of the next two places: a
      literal only where there is no match. */
  ghost predicate Taken(fmt: Format, window: nat, s: seq<byte>, p: nat, last: nat, t: Token)
  {
    match t
    case Lit(b) => p < |s| && s[p] == b && !HasMatch(fmt, window, s, p)
    case Match(off, len) =>
      && Codable(fmt, t) && MatchAt(s, p, off, len) && off <= window && len <= LONGEST
      && (len < LONGEST ==> forall o: nat, n: nat | o <= window && MatchAt(s, p, o, n) :: n <= len)
      && (forall o: nat | o < off :: !MatchAt(s, p, o, len))
      && (off == last || (!HasMatch(fmt, window, s, p + 1) && (len > 2 ==> !HasMatch(fmt, window, s, p + 2))))
  }

  /** From p on, the tokens are what match finding takes of s. */
  ghost predicate Found(fmt: Format, window: nat, s: seq<byte>, ts: seq<Token>, p: nat, last: nat)
    decreases |ts|
  {
    if ts == [] then p == |s|
    else
      && Taken(fmt, window, s, p, last, ts[0])
      && Found(fmt, window, s, ts[1..], p + ts[0].Size(), LastAfter(last, ts[0]))
  }

  lemma {:induction false} ExtendIsSlice(s: seq<byte>, p: nat, off: nat, len: nat)
    requires MatchAt(s, p, off, len)
    ensures Extend(s[..p], off, len) == s[..p + len]
    decreases len
  {
    if len > 0 {
      assert s[p] == s[p - off] && s[..p] + [s[p]] == s[..p + 1];
      ExtendIsSlice(s, p + 1, off, len - 1);
    }
  }

  lemma TakenApplies(fmt: Format, window: nat, s: seq<byte>, p: nat, last: nat, t: Token)
    requires Taken(fmt, window, s, p, last, t)
    ensures p + t.Size() <= |s| && Codable(fmt, t) && Within(t, p) && Apply(t, s[..p]) == s[..p + t.Size()]
    ensures t.Match? ==> t.off <= window
  {
    if t.Match? {
      ExtendIsSlice(s, p, t.off, t.len);
    }
  }

  /** Whatever is taken so is a valid parsing of what it is taken from. */
  lemma {:induction false} FoundIsParsing(fmt: Format, window: nat, s: seq<byte>, ts: seq<Token>, p: nat, last: nat)
    requires Found(fmt, window, s, ts, p, last)
    ensures p <= |s| && Valid(fmt, ts, p) && Expand(ts, s[..p]) == s && OffsetsUpTo(ts, window)
    decreases |ts|
  {
    hide Taken, Apply;
    if ts == [] {
      assert s[..p] == s;
    } else {
      TakenApplies(fmt, window, s, p, last, ts[0]);
      FoundIsParsing(fmt, window, s, ts[1..], p + ts[0].Size(), LastAfter(last, ts[0]));
      assert forall i | 0 <= i < |ts| - 1 :: ts[1..][i] == ts[i + 1];
    }
  }
}
