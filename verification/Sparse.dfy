/** A file with as few matches as possible: a run of zeros, quads of which no three bytes in a
    row occur twice, and then the first three bytes of quads once more. */
module Sparse {
  import opened Nrv
  import opened PrefixCode
  import opened Tokens
  import opened InPlace
  import opened NineBits
  import opened Finding

  // ------------------------------------------------------------------------- the bytes

  /** Digits of the number of a quad. */
  function High(x: nat): nat { x / 3969 }

  function Mid(x: nat): nat { x / 63 % 63 }

  function Low(x: nat): nat { x % 63 }

  /** The four bytes of a quad, each from a range of its own. */
  function A(x: nat): byte { 1 + Low(x) }

  function B(x: nat): byte { 64 + Mid(x) }

  function C(x: nat): byte { 127 + (High(x) + Low(x) + Mid(x)) % 63 }

  function D(x: nat): byte { 190 + (High(x) + 2 * Mid(x)) % 63 }

  function QuadByte(x: nat, r: nat): byte
  {
    if r == 0 then A(x) else if r == 1 then B(x) else if r == 2 then C(x) else D(x)
  }

  /** How many zeros, quads, and repeated triples. */
  datatype Shape = Shape(run: nat, quads: nat, triples: nat) {
    function Turn(): nat { run + 4 * quads }
    function Size(): nat { Turn() + 3 * triples }
    predicate Sound()
    {
      quads % 3969 == 0 && triples <= quads <= 63 * 3969 && (run == 0 || run % LONGEST == 1)
    }
  }

  function ByteAt(f: Shape, p: nat): byte
  {
    if p < f.run then 0
    else if p < f.Turn() then QuadByte((p - f.run) / 4, (p - f.run) % 4)
    else QuadByte((p - f.Turn()) / 3, (p - f.Turn()) % 3)
  }

  function Content(f: Shape): (s: seq<byte>)
    ensures |s| == f.Size()
    ensures forall p | 0 <= p < |s| :: s[p] == ByteAt(f, p)
  {
    seq(f.Size(), p requires 0 <= p => ByteAt(f, p))
  }

  // ------------------------------------------------------------------------ arithmetic

  lemma Digits(x: nat)
    ensures x == 3969 * High(x) + 63 * Mid(x) + Low(x) && 0 <= Low(x) < 63 && 0 <= Mid(x) < 63
    ensures x < 63 * 3969 ==> High(x) < 63
  {
    assert x / 63 / 63 == x / 3969;
  }

  /** The first two bytes of the next quad. */
  lemma NextDigits(x: nat)
    ensures Low(x + 1) == (Low(x) + 1) % 63
    ensures Mid(x + 1) == if Low(x) == 62 then (Mid(x) + 1) % 63 else Mid(x)
  {
    Digits(x);
    assert (x + 1) / 63 == x / 63 + if Low(x) == 62 then 1 else 0;
  }

  lemma Congruent(a: nat, b: nat)
    requires a % 63 == b % 63
    ensures a - b == 63 * (a / 63 - b / 63)
  {
  }

  /** What three neighbouring bytes tell of the number: ABC, BCD, CDA', DAB', BCA' and CAB',
      where the prime stands for the next quad. */
  function Word(k: nat, x: nat): (byte, byte, byte)
  {
    if k == 0 then (A(x), B(x), C(x))
    else if k == 1 then (B(x), C(x), D(x))
    else if k == 2 then (C(x), D(x), A(x + 1))
    else if k == 3 then (D(x), A(x + 1), B(x + 1))
    else if k == 4 then (B(x), C(x), A(x + 1))
    else (C(x), A(x + 1), B(x + 1))
  }

  lemma SameDigits(x: nat, y: nat)
    requires High(x) == High(y) && Mid(x) == Mid(y) && Low(x) == Low(y)
    ensures x == y
  {
    Digits(x);
    Digits(y);
  }

  lemma SameC(x: nat, y: nat)
    requires C(x) == C(y)
    ensures exists t: int :: (High(x) + Low(x) + Mid(x)) - (High(y) + Low(y) + Mid(y)) == 63 * t
  {
    Congruent(High(x) + Low(x) + Mid(x), High(y) + Low(y) + Mid(y));
  }

  lemma SameD(x: nat, y: nat)
    requires D(x) == D(y)
    ensures exists t: int :: (High(x) + 2 * Mid(x)) - (High(y) + 2 * Mid(y)) == 63 * t
  {
    Congruent(High(x) + 2 * Mid(x), High(y) + 2 * Mid(y));
  }

  lemma SameNextA(x: nat, y: nat)
    requires A(x + 1) == A(y + 1)
    ensures Low(x) == Low(y)
  {
    NextDigits(x);
    NextDigits(y);
    Digits(x);
    Digits(y);
  }

  lemma SameNextB(x: nat, y: nat)
    requires A(x + 1) == A(y + 1) && B(x + 1) == B(y + 1)
    ensures Low(x) == Low(y) && Mid(x) == Mid(y)
  {
    SameNextA(x, y);
    NextDigits(x);
    NextDigits(y);
    Digits(x);
    Digits(y);
  }

  /** Three neighbouring bytes determine the number. */
  lemma WordIsUnique(k: nat, x: nat, y: nat)
    requires k < 6 && x < 63 * 3969 && y < 63 * 3969 && Word(k, x) == Word(k, y)
    ensures x == y
  {
    hide High, Mid, Low, C, D;
    Digits(x);
    Digits(y);
    if k != 3 {
      assert C(x) == C(y);
      SameC(x, y);
    }
    if 1 <= k <= 3 {
      assert D(x) == D(y);
      SameD(x, y);
    }
    if k == 2 || k == 4 {
      SameNextA(x, y);
    }
    if k == 3 || k == 5 {
      SameNextB(x, y);
    }
    SameDigits(x, y);
  }

  /** The first two bytes of each of the first four, and CA'. */
  function Pair(k: nat, x: nat): (byte, byte) { if k < 4 then (Word(k, x).0, Word(k, x).1) else (C(x), A(x + 1)) }

  /** Two neighbouring bytes determine the number among those nearby. */
  lemma PairIsUnique(k: nat, x: nat, y: nat)
    requires k < 5 && x <= y <= x + 1200 && y < 63 * 3969 && Pair(k, x) == Pair(k, y)
    ensures x == y
  {
    hide High, Mid, Low, C, D;
    Digits(x);
    Digits(y);
    if k == 1 || k == 2 || k == 4 {
      assert C(x) == C(y);
      SameC(x, y);
    }
    if k == 2 || k == 3 {
      assert D(x) == D(y);
      SameD(x, y);
    }
    if k >= 3 {
      SameNextA(x, y);
    }
    SameDigits(x, y);
  }

  /** The middle digit tells the last numbers of a row from the first. */
  lemma PairAcross(k: nat, x: nat, y: nat, quads: nat)
    requires k < 2 && quads % 3969 == 0 && x < quads <= x + 840 && y < 1200
    ensures Pair(k, x) != Pair(k, y)
  {
    hide High, Mid, Low, C;
    var h, e := quads / 3969, quads - x;
    assert x == 3969 * (h - 1) + (3969 - e);
    MidOf(h - 1, 3969 - e);
    MidOf(0, y);
  }

  lemma MidOf(h: nat, r: nat)
    requires r < 3969
    ensures Mid(3969 * h + r) == r / 63
  {
    assert (3969 * h + r) / 63 == 63 * h + r / 63;
  }

  // -------------------------------------------------------------------------- positions

  function Index(f: Shape, p: nat): nat
    requires f.run <= p
  {
    if p < f.Turn() then (p - f.run) / 4 else (p - f.Turn()) / 3
  }

  /** Which of the words, and pairs, begins at p. */
  function WordKind(f: Shape, p: nat): nat
    requires f.run <= p
  {
    if p < f.Turn() then (p - f.run) % 4
    else if (p - f.Turn()) % 3 == 0 then 0 else (p - f.Turn()) % 3 + 3
  }

  function PairKind(f: Shape, p: nat): nat
    requires f.run <= p
  {
    if WordKind(f, p) == 4 then 1 else if WordKind(f, p) == 5 then 4 else WordKind(f, p)
  }

  lemma RowStarts(x: nat)
    requires x % 3969 == 0
    ensures A(x) == A(0) && B(x) == B(0)
  {
    hide Mid, Low;
    var h := x / 3969;
    assert x == 3969 * h + 0;
    MidOf(h, 0);
    MidOf(0, 0);
    LowOf(h, 0);
    LowOf(0, 0);
  }

  lemma LowOf(h: nat, r: nat)
    requires r < 3969
    ensures Low(3969 * h + r) == r % 63
  {
    assert 3969 * h == 63 * (63 * h);
  }

  lemma WordAt(f: Shape, p: nat)
    requires f.Sound() && f.run <= p && p + 3 <= f.Size()
    ensures (ByteAt(f, p), ByteAt(f, p + 1), ByteAt(f, p + 2)) == Word(WordKind(f, p), Index(f, p))
    ensures WordKind(f, p) < 6 && Index(f, p) < 63 * 3969
  {
    hide A, B, C, D;
    RowStarts(f.quads);
  }

  lemma PairAt(f: Shape, p: nat)
    requires f.Sound() && f.run <= p && p + 2 <= f.Size()
    ensures (ByteAt(f, p), ByteAt(f, p + 1)) == Pair(PairKind(f, p), Index(f, p))
    ensures PairKind(f, p) < 5 && Index(f, p) < 63 * 3969
  {
    hide A, B, C, D;
    RowStarts(f.quads);
  }

  lemma Ranges(x: nat)
    ensures 1 <= A(x) < 64 <= B(x) < 127 <= C(x) < 190 <= D(x) < 253
  {
  }

  lemma WordKindIs(k: nat, x: nat, j: nat, y: nat)
    requires k < 6 && j < 6 && Word(k, x) == Word(j, y)
    ensures k == j
  {
    hide A, B, C, D;
    Ranges(x);
    Ranges(y);
    Ranges(x + 1);
    Ranges(y + 1);
  }

  lemma PairKindIs(k: nat, x: nat, j: nat, y: nat)
    requires k < 5 && j < 5 && Pair(k, x) == Pair(j, y)
    ensures k == j
  {
    hide A, B, C, D;
    Ranges(x);
    Ranges(y);
    Ranges(x + 1);
    Ranges(y + 1);
  }

  /** Where the triple of number i begins for the second time. */
  predicate Again(f: Shape, p: nat) { f.Turn() <= p < f.Size() && (p - f.Turn()) % 3 == 0 }

  /** How far before that it began for the first time. */
  function Back(f: Shape, p: nat): int { 4 * f.quads - (p - f.Turn()) / 3 }

  /** Three bytes behind the run occur twice only there. */
  lemma WordsRepeat(f: Shape, p: nat, q: nat)
    requires f.Sound() && f.run <= q < p && p + 3 <= f.Size()
    requires ByteAt(f, q) == ByteAt(f, p) && ByteAt(f, q + 1) == ByteAt(f, p + 1)
    requires ByteAt(f, q + 2) == ByteAt(f, p + 2)
    ensures Again(f, p) && p - q == Back(f, p)
  {
    hide Word, ByteAt;
    WordAt(f, p);
    WordAt(f, q);
    WordKindIs(WordKind(f, q), Index(f, q), WordKind(f, p), Index(f, p));
    WordIsUnique(WordKind(f, p), Index(f, q), Index(f, p));
  }

  /** Two bytes behind the run do not occur twice nearby. */
  lemma PairsDiffer(f: Shape, p: nat, q: nat)
    requires f.Sound() && f.run <= q < p <= q + 0xd00 && p + 2 <= f.Size()
    ensures ByteAt(f, q) != ByteAt(f, p) || ByteAt(f, q + 1) != ByteAt(f, p + 1)
  {
    hide Pair, ByteAt;
    PairAt(f, p);
    PairAt(f, q);
    if ByteAt(f, q) == ByteAt(f, p) && ByteAt(f, q + 1) == ByteAt(f, p + 1) {
      PairKindIs(PairKind(f, q), Index(f, q), PairKind(f, p), Index(f, p));
      if q < f.Turn() <= p {
        PairAcross(PairKind(f, p), Index(f, q), Index(f, p), f.quads);
      } else {
        PairIsUnique(PairKind(f, p), Index(f, q), Index(f, p));
      }
    }
  }

  /** A match that may be coded is within the run, or is one of the triples. */
  lemma OnlyMatches(fmt: Format, f: Shape, p: nat, off: nat, len: nat)
    requires f.Sound() && MatchAt(Content(f), p, off, len) && Codable(fmt, Match(off, len))
    ensures p + len <= f.run || (Again(f, p) && off == Back(f, p) && len == 3)
  {
    var s, q := Content(f), p - off;
    assert s[p] == s[q] && s[p + 1] == s[q + 1];
    hide ByteAt, Again, Back;
    if p < f.run < p + len {
      assert s[f.run] == s[f.run - off];
      RunEnds(f, f.run - off);
    } else if p >= f.run {
      if q < f.run {
        RunEnds(f, q);
        NotZero(f, p);
      }
      if len == 2 {
        PairsDiffer(f, p, q);
      } else {
        assert s[p + 2] == s[q + 2];
        WordsRepeat(f, p, q);
        if len > 3 {
          assert s[p + 3] == s[q + 3];
          TriplesEnd(f, p);
        }
      }
    }
  }

  lemma RunEnds(f: Shape, q: nat)
    requires f.Sound() && q < f.run < f.Size()
    ensures ByteAt(f, q) == 0 != ByteAt(f, f.run)
  {
  }

  lemma NotZero(f: Shape, p: nat)
    requires f.run <= p < f.Size()
    ensures ByteAt(f, p) != 0
  {
  }

  /** Behind a triple comes the first byte of a quad, and behind its first occurrence the last. */
  lemma TriplesEnd(f: Shape, p: nat)
    requires f.Sound() && Again(f, p) && p + 4 <= f.Size()
    ensures Back(f, p) <= p && ByteAt(f, p + 3) != ByteAt(f, p - Back(f, p) + 3)
  {
    hide A, B, C, D;
    var x := (p - f.Turn()) / 3;
    Ranges(x);
    Ranges(x + 1);
  }

  // ------------------------------------------------------------------ what is taken of it

  /** The places where tokens begin. */
  predicate TokenPlace(f: Shape, p: nat)
  {
    p == 0 || (p < f.run && p % LONGEST == 1) || f.run <= p < f.Turn() || Again(f, p) || p == f.Size()
  }

  function TokenAt(f: Shape, p: nat): Token
    requires f.Sound() && p < f.Size()
  {
    if p == 0 || f.run <= p < f.Turn() then Token.Lit(ByteAt(f, p))
    else if p < f.run then Match(1, LONGEST)
    else Match(Back(f, p), 3)
  }

  function Parsing(f: Shape, p: nat): seq<Token>
    requires f.Sound()
    decreases f.Size() - p
  {
    if p >= f.Size() then [] else [TokenAt(f, p)] + Parsing(f, p + TokenAt(f, p).Size())
  }

  lemma NextPlace(f: Shape, p: nat)
    requires f.Sound() && TokenPlace(f, p) && p < f.Size()
    ensures p + TokenAt(f, p).Size() <= f.Size() && TokenPlace(f, p + TokenAt(f, p).Size())
    ensures TokenAt(f, p).Match? ==> 1 <= TokenAt(f, p).off <= p
  {
    hide ByteAt;
    if 0 < p < f.run {
      NextInRun(f, p);
    } else if f.Turn() <= p && p > 0 {
      NextTriple(f, p);
    }
  }

  lemma NextInRun(f: Shape, p: nat)
    requires f.Sound() && 0 < p < f.run && p % LONGEST == 1
    ensures p + LONGEST <= f.run && (p + LONGEST) % LONGEST == 1
  {
  }

  lemma NextTriple(f: Shape, p: nat)
    requires f.Sound() && Again(f, p)
    ensures p + 3 <= f.Size() && (Again(f, p + 3) || p + 3 == f.Size()) && 1 <= Back(f, p) <= p
  {
    var i := (p - f.Turn()) / 3;
    assert p == f.Turn() + 3 * i && i < f.triples;
  }

  lemma NoMatch(fmt: Format, window: nat, f: Shape, p: nat)
    requires f.Sound() && f.run <= p && !Again(f, p)
    ensures !HasMatch(fmt, window, Content(f), p)
  {
    hide Again, Content, Codable, MatchAt;
    if HasMatch(fmt, window, Content(f), p) {
      var off: nat, len: nat :| MatchAt(Content(f), p, off, len) && off <= window && Codable(fmt, Match(off, len));
      OnlyMatches(fmt, f, p, off, len);
      SomeLength(fmt, off, len);
    }
  }

  lemma SomeLength(fmt: Format, off: nat, len: nat)
    requires Codable(fmt, Match(off, len))
    ensures len >= 2
  {
  }

  lemma RunTaken(fmt: Format, window: nat, f: Shape, p: nat)
    requires f.Sound() && 0 < p < f.run && p % LONGEST == 1 && window >= 1
    ensures Taken(fmt, window, Content(f), p, 1, Match(1, LONGEST))
  {
    assert p + LONGEST <= f.run;
    hide HasMatch;
  }

  lemma TripleMatches(f: Shape, p: nat)
    requires f.Sound() && Again(f, p)
    ensures 1 <= Back(f, p) <= p && MatchAt(Content(f), p, Back(f, p), 3)
  {
    hide ByteAt;
    var i := (p - f.Turn()) / 3;
    NextTriple(f, p);
    TripleByte(f, i, 0);
    TripleByte(f, i, 1);
    TripleByte(f, i, 2);
    forall q | p <= q < p + 3
      ensures Content(f)[q] == Content(f)[q - Back(f, p)]
    {
      assert q == f.Turn() + 3 * i + (q - p) && q - Back(f, p) == f.run + 4 * i + (q - p);
    }
  }

  /** A byte of a triple, and of the quad that it comes from. */
  lemma TripleByte(f: Shape, i: nat, j: nat)
    requires f.Sound() && i < f.triples && j < 3
    ensures ByteAt(f, f.Turn() + 3 * i + j) == QuadByte(i, j) == ByteAt(f, f.run + 4 * i + j)
  {
    hide A, B, C, D;
  }

  lemma TripleTaken(fmt: Format, window: nat, f: Shape, p: nat, last: nat)
    requires f.Sound() && Again(f, p) && 4 * f.quads <= window
    ensures 1 <= Back(f, p) <= p && Taken(fmt, window, Content(f), p, last, Match(Back(f, p), 3))
  {
    var s := Content(f);
    TripleMatches(f, p);
    forall o: nat, n: nat | MatchAt(s, p, o, n) && n >= 3
      ensures o == Back(f, p) && n == 3
    {
      OnlyMatches(fmt, f, p, o, n);
    }
    NoMatch(fmt, window, f, p + 1);
    NoMatch(fmt, window, f, p + 2);
    hide HasMatch, MatchAt, Content, ByteAt;
  }

  /** Of this file, match finding has no choice but to take these tokens. */
  lemma {:induction false} TokensFound(fmt: Format, window: nat, f: Shape, p: nat, last: nat)
    requires f.Sound() && TokenPlace(f, p) && 1 <= window && 4 * f.quads <= window && (p < f.run ==> last == 1)
    ensures Found(fmt, window, Content(f), Parsing(f, p), p, last)
    decreases f.Size() - p
  {
    hide Taken, TokenPlace, Content, ByteAt, Back;
    if p < f.Size() {
      NextPlace(f, p);
      AtPlace(f, p);
      TokenTaken(fmt, window, f, p, last);
      TokensFound(fmt, window, f, p + TokenAt(f, p).Size(), LastAfter(last, TokenAt(f, p)));
      assert Parsing(f, p)[1..] == Parsing(f, p + TokenAt(f, p).Size());
    } else {
      AtPlace(f, p);
    }
  }

  lemma AtPlace(f: Shape, p: nat)
    requires f.Sound() && TokenPlace(f, p)
    ensures p <= f.Size()
    ensures 0 < p < f.run ==> p % LONGEST == 1
    ensures f.Turn() <= p < f.Size() && p > 0 ==> Again(f, p)
    ensures p < f.Size() && p + TokenAt(f, p).Size() < f.run && TokenAt(f, p).Match? ==> TokenAt(f, p).off == 1
  {
  }

  lemma TokenTaken(fmt: Format, window: nat, f: Shape, p: nat, last: nat)
    requires f.Sound() && TokenPlace(f, p) && p < f.Size()
    requires 1 <= window && 4 * f.quads <= window && (p < f.run ==> last == 1)
    ensures Taken(fmt, window, Content(f), p, last, TokenAt(f, p))
  {
    if p == 0 {
      assert forall off: nat, len: nat :: !MatchAt(Content(f), 0, off, len);
    } else if p < f.run {
      RunTaken(fmt, window, f, p);
    } else if p < f.Turn() {
      NoMatch(fmt, window, f, p);
    } else {
      TripleTaken(fmt, window, f, p, last);
    }
    hide MatchAt, ByteAt;
  }

  // ------------------------------------------------------------------------ what it costs

  /** Enough quads for every triple to be a match that costs more than nine bits a byte. */
  function FileShape(fmt: Format, run: nat): Shape
  {
    if fmt.Nrv2b? then Shape(run, 10 * 3969, 7 * 3969) else Shape(run, 32 * 3969, 10 * 3969)
  }

  predicate Fits(fmt: Format, f: Shape) { f.Sound() && f == FileShape(fmt, f.run) }

  /** The bits of n triples. */
  function TripleBits(fmt: Format, n: nat): nat { if fmt.Nrv2b? then 29 * n else 30 * n }

  lemma TripleCost(fmt: Format, f: Shape, p: nat, last: nat)
    requires Fits(fmt, f) && Again(f, p) && last != Back(f, p)
    ensures 1 <= Back(f, p) <= p
    ensures var t := Match(Back(f, p), 3); Codable(fmt, t) && Cost(TokenOps(fmt, last, t)) == TripleBits(fmt, 1)
  {
    hide TokenOps, LenTail, Code;
    MatchBits(fmt, last, Back(f, p), 3);
    OffsetBits(fmt, Back(f, p));
    TailBound(fmt, CodedLen(fmt, Match(Back(f, p), 3)));
  }

  lemma ParsingTurn(f: Shape, p: nat)
    requires f.Sound() && p < f.Size()
    ensures Parsing(f, p) == [TokenAt(f, p)] + Parsing(f, p + TokenAt(f, p).Size())
  {
  }

  lemma ParsingEnd(f: Shape)
    requires f.Sound()
    ensures Parsing(f, f.Size()) == []
  {
  }

  lemma {:induction false} TriplesCost(fmt: Format, f: Shape, p: nat, last: nat)
    requires Fits(fmt, f) && (p == f.Size() || (Again(f, p) && last != Back(f, p))) && (p > 0 || f.quads > 0)
    ensures Valid(fmt, Parsing(f, p), p)
    ensures Cost(Encode(fmt, Parsing(f, p), last)) == TripleBits(fmt, (f.Size() - p) / 3) + Cost(EndOps(fmt))
    decreases f.Size() - p
  {
    hide Valid, Cost, Encode, TokenOps, EndOps, Cheap, Parsing, Total;
    if p == f.Size() {
      ParsingEnd(f);
      NoTokens(fmt, last, p);
    } else {
      TripleCost(fmt, f, p, last);
      ParsingTurn(f, p);
      TriplesCost(fmt, f, p + 3, Back(f, p));
      Prepend(fmt, Match(Back(f, p), 3), Parsing(f, p + 3), last, p);
    }
  }

  lemma {:induction false} QuadsCost(fmt: Format, f: Shape, p: nat, last: nat)
    requires Fits(fmt, f) && f.run <= p <= f.Turn() && last != 4 * f.quads
    ensures Valid(fmt, Parsing(f, p), p)
    ensures Cost(Encode(fmt, Parsing(f, p), last))
         == 9 * (f.Turn() - p) + TripleBits(fmt, f.triples) + Cost(EndOps(fmt))
    decreases f.Turn() - p
  {
    hide Valid, Cost, Encode, TokenOps, EndOps, Cheap, Parsing, Total, ByteAt;
    if p == f.Turn() {
      TriplesCost(fmt, f, p, last);
    } else {
      ParsingTurn(f, p);
      QuadsCost(fmt, f, p + 1, last);
      LitCost(fmt, last, ByteAt(f, p));
      Prepend(fmt, Token.Lit(ByteAt(f, p)), Parsing(f, p + 1), last, p);
    }
  }

  lemma LongestCost(fmt: Format)
    ensures Codable(fmt, Match(1, LONGEST)) && Cost(TokenOps(fmt, 1, Match(1, LONGEST))) <= 25
  {
    hide TokenOps, Code;
    MatchBits(fmt, 1, 1, LONGEST);
    TailLevels();
    if fmt.Nrv2e? {
      CodeAtMost(false, 2044, 9);
    } else {
      CodeAtMost(false, 2045, 9);
    }
  }

  lemma TailLevels()
    ensures Level(false, 10) == 2048
  {
    assert Level(false, 5) == 64;
  }

  /** The bits of the quads and triples, and of the end marker. */
  function RestBits(fmt: Format, f: Shape): nat
  {
    36 * f.quads + TripleBits(fmt, f.triples) + Cost(EndOps(fmt))
  }

  lemma {:induction false} RunCost(fmt: Format, f: Shape, p: nat)
    requires Fits(fmt, f) && 0 < p <= f.run && p % LONGEST == 1
    ensures Valid(fmt, Parsing(f, p), p)
    ensures RestBits(fmt, f) <= Cost(Encode(fmt, Parsing(f, p), 1)) <= RestBits(fmt, f) + 25 * ((f.run - p) / LONGEST)
    decreases f.run - p
  {
    hide Valid, Cost, Encode, TokenOps, EndOps, Cheap, Parsing, Total;
    if p == f.run {
      QuadsCost(fmt, f, p, 1);
    } else {
      ParsingTurn(f, p);
      RunCost(fmt, f, p + LONGEST);
      LongestCost(fmt);
      Prepend(fmt, Match(1, LONGEST), Parsing(f, p + LONGEST), 1, p);
    }
  }

  /** The whole file. */
  lemma WholeCost(fmt: Format, f: Shape)
    requires Fits(fmt, f) && f.run > 0
    ensures Valid(fmt, Parsing(f, 0), 0)
    ensures RestBits(fmt, f) + 9 <= Cost(Encode(fmt, Parsing(f, 0), 1)) <= RestBits(fmt, f) + 9 + 25 * (f.run / LONGEST)
  {
    hide Valid, Cost, Encode, TokenOps, EndOps, Cheap, Parsing, Total, RestBits;
    ParsingTurn(f, 0);
    RunCost(fmt, f, 1);
    LitCost(fmt, 1, 0);
    Prepend(fmt, Token.Lit(0), Parsing(f, 1), 1, 0);
  }
}
