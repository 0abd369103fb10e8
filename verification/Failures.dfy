/** Files that uclpack and exepak do not get through, with the tokens that match finding takes of
    them. */
module Failures {
  import opened Nrv
  import opened BitBuffer
  import opened Tokens
  import opened Layout
  import opened RoundTrip
  import opened InPlace
  import opened NineBits
  import opened Blocks
  import opened Finding
  import opened Sparse
  import opened Overtaken
  import opened Overwritten
  import opened Uclpack
  import Parsings
  import Exepak

  /** The first level whose window reaches back over all of such a file. */
  function FailingLevel(fmt: Format): nat { if fmt.Nrv2b? then 9 else 10 }

  /** The packing of a file that is one block, which is parsed as match finding does. */
  predicate IsPacking(j: Job, fmt: Format, level: byte, fast: bool, f: Shape)
  {
    j.fmt == fmt && j.level == level && j.fast == fast && j.file == Content(f) && f.Sound()
    && j.find(j.file) == Parsing(f, 0)
  }

  /** What all the examples have in common. */
  lemma Packing(fmt: Format, level: byte, fast: bool, blockSize: uint32, f: Shape) returns (j: Job)
    requires FailingLevel(fmt) <= level <= 10 && Fits(fmt, f) && f.Size() <= blockSize
    ensures IsPacking(j, fmt, level, fast, f) && j.Sound() && j.blockSize == blockSize
    ensures Found(fmt, Window(level), j.file, j.find(j.file), 0, 1)
    ensures Valid(fmt, Parsing(f, 0), 0) && Expand(Parsing(f, 0), []) == Content(f)
    ensures First(j.file, blockSize) == j.file
  {
    hide Parsing, Content, Found, Valid, Expand, TokenPlace, Parsings.Except;
    var file, ts := Content(f), Parsing(f, 0);
    AtStart(f);
    TokensFound(fmt, Window(level), f, 0, 1);
    FoundIsParsing(fmt, Window(level), file, ts, 0, 1);
    assert file[..0] == [];
    j := Job(fmt, level, fast, blockSize, Parsings.Except(file, ts), file);
    Parsings.ExceptFinds(fmt, ts, blockSize);
    Parsings.ExceptTakes(file, ts);
  }

  lemma AtStart(f: Shape)
    ensures TokenPlace(f, 0)
  {
  }

  // ---------------------------------------------------------------------- blocks that grow

  /** A file of one block, without a run in front, and what match finding takes of it: do_compress
      gives up on it, with the error that should never happen. */
  lemma FoundBlockGrows(fmt: Format, level: byte, fast: bool, blockSize: uint32) returns (j: Job)
    requires FailingLevel(fmt) <= level <= 10 && blockSize >= FileShape(fmt, 0).Size()
    ensures IsPacking(j, fmt, level, fast, FileShape(fmt, 0)) && j.Sound() && j.blockSize == blockSize
    ensures Found(fmt, Window(level), j.file, j.find(j.file), 0, 1)
    ensures !NoBlockGrows(j, 0)
  {
    hide Parsing, Content, Found, Reachable, AllCodable, Expand, Encode, Lay, Cost;
    var f := FileShape(fmt, 0);
    j := Packing(fmt, level, fast, blockSize, f);
    QuadsCost(fmt, f, 0, 1);
    LayIsLong(W8, Encode(fmt, Parsing(f, 0), 1), 0);
    assert j.file[0..] == j.file;
    GrowsUnfold(j, 0);
  }

  // ---------------------------------------------------------------------- blocks that break

  /** The run is coded as so many matches, all of the greatest length, behind one literal. */
  function Matches(fmt: Format): nat { if fmt.Nrv2b? then 19 else 50 }

  function BreakingShape(fmt: Format): Shape { FileShape(fmt, 1 + LONGEST * Matches(fmt)) }

  /** n matches of the greatest length. */
  function Longs(n: nat): (ts: seq<Token>)
    ensures |ts| == n
  {
    if n == 0 then [] else [Match(1, LONGEST)] + Longs(n - 1)
  }

  lemma {:induction false} LongsFirst(f: Shape, p: nat, n: nat)
    requires f.Sound() && 0 < p && p % LONGEST == 1 && p + LONGEST * n <= f.run
    ensures Parsing(f, p) == Longs(n) + Parsing(f, p + LONGEST * n)
    ensures Total(Longs(n), p) == p + LONGEST * n
    decreases n
  {
    hide Parsing;
    if n > 0 {
      ParsingTurn(f, p);
      LongsFirst(f, p + LONGEST, n - 1);
      assert Longs(n)[1..] == Longs(n - 1);
    }
  }

  /** Everything in front of the last of these matches. */
  function Front(fmt: Format): seq<Token> { [Token.Lit(0)] + Longs(Matches(fmt) - 1) }

  lemma FrontIs(fmt: Format)
    ensures var f := BreakingShape(fmt);
            && f.Sound() && Parsing(f, 0) == Middle(Front(fmt), Match(1, LONGEST), Parsing(f, f.run))
            && Total(Front(fmt), 0) == f.run - LONGEST
  {
    hide Parsing, Total;
    var f, n := BreakingShape(fmt), Matches(fmt) - 1;
    ParsingTurn(f, 0);
    LongsFirst(f, 1, n);
    ParsingTurn(f, f.run - LONGEST);
    LitTotal(Longs(n));
  }

  lemma LitTotal(ts: seq<Token>)
    ensures Total([Token.Lit(0)] + ts, 0) == Total(ts, 1)
  {
    assert ([Token.Lit(0)] + ts)[1..] == ts;
  }

  /** So far the output is zeros. */
  lemma FrontIsBlank(fmt: Format)
    requires Valid(fmt, Parsing(BreakingShape(fmt), 0), 0)
    requires Expand(Parsing(BreakingShape(fmt), 0), []) == Content(BreakingShape(fmt))
    ensures Reachable(Front(fmt), 0)
    ensures forall i | 0 <= i < |Expand(Front(fmt), [])| :: Expand(Front(fmt), [])[i] == 0
  {
    hide Parsing, Content, Expand, Front, Reachable;
    var f := BreakingShape(fmt);
    var rest := [Match(1, LONGEST)] + Parsing(f, f.run);
    FrontIs(fmt);
    assert Parsing(f, 0) == Front(fmt) + rest;
    ExpandAppend(Front(fmt), rest, []);
    ExpandLength(Front(fmt), []);
    ExpandLength(rest, Expand(Front(fmt), []));
  }

  /** The sizes of the packed block and of its parts. */
  lemma BreakingSizes(fmt: Format)
    ensures var f := BreakingShape(fmt);
            var ts := Parsing(f, 0);
            var room := f.Size() + Overhead(f.Size());
            && Valid(fmt, ts, 0) && Valid(fmt, Parsing(f, f.run), f.run)
            && |Compressed(fmt, W8, ts)| < f.Size()
            && f.run - LONGEST <= room - |Compressed(fmt, W8, ts)|
            && 8 * room + 6408 - Cost(Encode(fmt, Parsing(f, f.run), 1)) <= 8 * (f.run - LONGEST + 1500)
  {
    hide Parsing, Reachable, AllCodable, Encode, Lay, Cost;
    var f := BreakingShape(fmt);
    WholeCost(fmt, f);
    QuadsCost(fmt, f, f.run, 1);
    EndCost(fmt);
    LayLength(W8, Encode(fmt, Parsing(f, 0), 1), 0);
  }

  lemma BlockBreaks(fmt: Format, buf: seq<byte>)
    requires var f := BreakingShape(fmt);
             && Valid(fmt, Parsing(f, 0), 0) && Expand(Parsing(f, 0), []) == Content(f)
             && |Compressed(fmt, W8, Parsing(f, 0))| < f.Size()
    requires |buf| == BreakingShape(fmt).Size() + Overhead(BreakingShape(fmt).Size()) + 1
    ensures BreaksIn(fmt, Compressed(fmt, W8, Parsing(BreakingShape(fmt), 0)), BreakingShape(fmt).Size(), buf)
  {
    hide Parsing, Content, Expand, Encode, Compressed, Decode, Front, Middle;
    var f := BreakingShape(fmt);
    var z := Compressed(fmt, W8, Parsing(f, 0));
    var src := |buf| - 1 - |z|;
    if buf[src..src + |z|] == z {
      FrontIs(fmt);
      FrontIsBlank(fmt);
      BreakingSizes(fmt);
      TotalIs(f, fmt);
      OverwrittenFails(fmt, Front(fmt), Match(1, LONGEST), Parsing(f, f.run), f.run - LONGEST + 1500,
                       buf, src, f.Size());
    }
  }

  lemma TotalIs(f: Shape, fmt: Format)
    requires f.Sound() && Valid(fmt, Parsing(f, 0), 0) && Expand(Parsing(f, 0), []) == Content(f)
    ensures Total(Parsing(f, 0), 0) == f.Size()
  {
    hide Parsing, Content, Expand;
    ExpandLength(Parsing(f, 0), []);
  }

  /** A file of one block, with a run of zeros in front, and what match finding takes of it: packing
      succeeds, and do_decompress ends with a data error. */
  lemma FoundBlockBreaks(fmt: Format, level: byte, fast: bool, trailing: seq<byte>) returns (j: Job)
    requires FailingLevel(fmt) <= level <= 10
    ensures IsPacking(j, fmt, level, fast, BreakingShape(fmt)) && j.Sound() && j.blockSize == |j.file| <= LARGEST_BLOCK
    ensures Found(fmt, Window(level), j.file, j.find(j.file), 0, 1)
    ensures NoBlockGrows(j, 0) && Spoilt(Container(j) + trailing, Some(j))
  {
    hide Parsing, Content, Found, Reachable, AllCodable, Expand, Encode, Lay, Cost, BreaksIn, Container;
    var f := BreakingShape(fmt);
    j := Packing(fmt, level, fast, f.Size(), f);
    BreakingSizes(fmt);
    var z := Compressed(fmt, W8, Parsing(f, 0));
    forall buf: seq<byte> | |buf| == f.Size() + Overhead(f.Size()) + 1
      ensures BreaksIn(fmt, z, f.Size(), buf)
    {
      BlockBreaks(fmt, buf);
    }
    assert j.file[0..] == j.file;
    GrowsUnfold(j, 0);
    BodyEnds(j);
  }

  // -------------------------------------------------------------------- the exact levels

  /** Of every block of the file, from `at` on, the tokens are those that match finding takes. */
  ghost predicate FoundBlocks(j: Job, at: nat)
    requires j.Sound() && at <= |j.file|
    decreases |j.file| - at
  {
    at == |j.file| ||
    var block := First(j.file[at..], j.blockSize);
    assert Chooses(j.find, j.fmt, block);
    Found(j.fmt, Window(j.level), block, j.find(block), 0, 1) && FoundBlocks(j, at + |block|)
  }

  lemma FoundUnfold(j: Job, at: nat)
    requires j.Sound() && at < |j.file|
    ensures var block := First(j.file[at..], j.blockSize);
            && Chooses(j.find, j.fmt, block) && at + |block| <= |j.file|
            && FoundBlocks(j, at)
               == (Found(j.fmt, Window(j.level), block, j.find(block), 0, 1) && FoundBlocks(j, at + |block|))
  {
    hide Finds, Job.Sound, Found, First, Chooses;
    Chosen(j, at);
    BlockIsSlice(j.file, at, j.blockSize);
  }

  lemma FoundEnds(j: Job)
    requires j.Sound()
    ensures FoundBlocks(j, |j.file|)
  {
  }

  lemma {:induction false} FoundIsCheap(j: Job, at: nat)
    requires j.Sound() && at <= |j.file| && FoundBlocks(j, at) && j.blockSize <= LARGEST_BLOCK
    requires Window(j.level) <= LastCheapOffset(j.fmt)
    ensures AllCheap(j, at)
    decreases |j.file| - at
  {
    hide Job.Sound, Cheap, AllCheap, FoundBlocks, Found, Expand, First, Window;
    if at == |j.file| {
      SettleEnds(j);
    } else {
      FoundUnfold(j, at);
      CheapUnfold(j, at);
      Chosen(j, at);
      BlockIsSlice(j.file, at, j.blockSize);
      var block := First(j.file[at..], j.blockSize);
      BlockIsCheap(j, block);
      FoundIsCheap(j, at + |block|);
    }
  }

  lemma BlockIsCheap(j: Job, block: seq<byte>)
    requires Chooses(j.find, j.fmt, block) && |block| <= j.blockSize <= LARGEST_BLOCK
    requires Found(j.fmt, Window(j.level), block, j.find(block), 0, 1) && Window(j.level) <= LastCheapOffset(j.fmt)
    ensures Cheap(j.fmt, j.find(block), 1)
  {
    hide Found, Cheap, Expand, Total;
    FoundIsParsing(j.fmt, Window(j.level), block, j.find(block), 0, 1);
    ExpandLength(j.find(block), []);
    NearIsCheap(j.fmt, j.find(block));
  }

  /** What uclpack packs at that level, with the matches that it finds. */
  ghost predicate Packs(j: Job, fmt: Format, level: byte)
  {
    j.Sound() && j.fmt == fmt && j.level == level && 1024 <= j.blockSize <= LARGEST_BLOCK && FoundBlocks(j, 0)
  }

  /** With the matches that match finding takes, every file of every block size is packed and
      unpacked at these levels, and not every file at those. For NRV2D and NRV2E, no level is
      left between them. */
  lemma FindingLevels(fmt: Format, level: byte)
    requires 1 <= level <= 10
    ensures level <= (if fmt.Nrv2b? then 6 else 9) ==> forall j: Job | Packs(j, fmt, level) :: Parsings.Safely(j)
    ensures level >= FailingLevel(fmt) ==> exists j: Job :: Packs(j, fmt, level) && !Parsings.Safely(j)
    ensures !fmt.Nrv2b? ==>
              ((forall j: Job | Packs(j, fmt, level) :: Parsings.Safely(j)) <==> level <= 9)
  {
    hide Container, Written, NoBlockGrows, Job.Sound, FoundBlocks, AllCheap, Found, Parsing, Content;
    WindowIsCheap(fmt, level);
    if level <= if fmt.Nrv2b? then 6 else 9 {
      forall j: Job | Packs(j, fmt, level)
        ensures Parsings.Safely(j)
      {
        FoundIsCheap(j, 0);
        CheapRoundTrip(j, []);
        assert Container(j) + [] == Container(j);
      }
    } else if level >= FailingLevel(fmt) {
      var f := FileShape(fmt, 0);
      var j := FoundBlockGrows(fmt, level, false, f.Size());
      assert j.file[0..] == j.file && First(j.file, j.blockSize) == j.file;
      FoundUnfold(j, 0);
      FoundEnds(j);
      assert Packs(j, fmt, level) && !Parsings.Safely(j);
    }
  }

  // ------------------------------------------------------------- a file too short for exepak

  /** A script that goes on with zeros. */
  function Script(n: nat): (s: seq<byte>)
    ensures |s| == 3 + LONGEST * n
  {
    [0x23, 0x21] + Parsings.Repeat(0, 1 + LONGEST * n)
  }

  function ScriptTokens(n: nat): seq<Token> { [Token.Lit(0x23), Token.Lit(0x21), Token.Lit(0)] + Longs(n) }

  lemma ScriptRun(fmt: Format, n: nat, p: nat)
    requires 3 <= p && p + LONGEST <= 3 + LONGEST * n
    ensures Taken(fmt, 1, Script(n), p, 1, Match(1, LONGEST))
  {
  }

  lemma {:induction false} LongsFound(fmt: Format, n: nat, k: nat)
    requires k <= n
    ensures Found(fmt, 1, Script(n), Longs(k), 3 + LONGEST * (n - k), 1)
    decreases k
  {
    hide Taken;
    if k > 0 {
      ScriptRun(fmt, n, 3 + LONGEST * (n - k));
      LongsFound(fmt, n, k - 1);
      assert Longs(k)[1..] == Longs(k - 1);
    }
  }

  /** There is no match before the zeros. */
  lemma ScriptStarts(fmt: Format, n: nat, p: nat)
    requires p < 3
    ensures Taken(fmt, 1, Script(n), p, 1, Token.Lit(Script(n)[p]))
  {
    var s := Script(n);
    assert s[0] == 0x23 && s[1] == 0x21 && s[2] == 0;
  }

  lemma ScriptFound(fmt: Format, n: nat)
    ensures Found(fmt, 1, Script(n), ScriptTokens(n), 0, 1)
  {
    hide Taken, Found, Longs;
    var f := Script(n);
    var a := [Token.Lit(0)] + Longs(n);
    ScriptStarts(fmt, n, 0);
    ScriptStarts(fmt, n, 1);
    ScriptStarts(fmt, n, 2);
    LongsFound(fmt, n, n);
    FoundMore(fmt, 1, f, Token.Lit(0), Longs(n), 2, 1);
    FoundMore(fmt, 1, f, Token.Lit(0x21), a, 1, 1);
    FoundMore(fmt, 1, f, Token.Lit(0x23), [Token.Lit(0x21)] + a, 0, 1);
    assert ScriptTokens(n) == [Token.Lit(0x23)] + ([Token.Lit(0x21)] + a);
  }

  lemma FoundMore(fmt: Format, window: nat, s: seq<byte>, t: Token, rest: seq<Token>, p: nat, last: nat)
    requires Taken(fmt, window, s, p, last, t) && Found(fmt, window, s, rest, p + t.Size(), LastAfter(last, t))
    ensures Found(fmt, window, s, [t] + rest, p, last)
  {
    hide Taken;
    assert ([t] + rest)[1..] == rest;
  }

  lemma {:induction false} LongsCost(fmt: Format, n: nat, p: nat)
    requires p >= 1
    ensures Valid(fmt, Longs(n), p) && Cost(Encode(fmt, Longs(n), 1)) <= 25 * n + 57
    decreases n
  {
    hide Valid, Cost, Encode, TokenOps, EndOps, Cheap, Total;
    if n == 0 {
      NoTokens(fmt, 1, p);
      EndCost(fmt);
    } else {
      LongsCost(fmt, n - 1, p + LONGEST);
      LongestCost(fmt);
      Prepend(fmt, Match(1, LONGEST), Longs(n - 1), 1, p);
    }
  }

  lemma ScriptCost(fmt: Format, n: nat)
    ensures Valid(fmt, ScriptTokens(n), 0) && Cost(Encode(fmt, ScriptTokens(n), 1)) <= 25 * n + 84
  {
    hide Valid, Cost, Encode, TokenOps, EndOps, Cheap, Total, Longs;
    var a := [Token.Lit(0)] + Longs(n);
    var b := [Token.Lit(0x21)] + a;
    LongsCost(fmt, n, 3);
    LitCost(fmt, 1, 0);
    LitCost(fmt, 1, 0x21);
    LitCost(fmt, 1, 0x23);
    Prepend(fmt, Token.Lit(0), Longs(n), 1, 2);
    Prepend(fmt, Token.Lit(0x21), a, 1, 1);
    Prepend(fmt, Token.Lit(0x23), b, 1, 0);
    assert ScriptTokens(n) == [Token.Lit(0x23)] + b;
  }

  /** A script that is to be packed, and becomes too short for that: create_sfx_binary gets as far
      as append_stubfile, which fails. All that has to be known of the stub is that its bss has
      room for as many bytes. */
  lemma ScriptTooShort(size: nat, seg: Exepak.Segment, n: nat) returns (find: Finder, file: seq<byte>)
    requires Exepak.StubSegment(seg) && 3 + LONGEST * n <= size
    requires 20 + 4 * n < Exepak.Zbufsz(seg) && seg.End() + 20 + 4 * n < 3 + LONGEST * n
    ensures Finds(find, Nrv2e, size) && Exepak.Packable(file) && file == Script(n)
    ensures Found(Nrv2e, 1, file, find(file), 0, 1)
    ensures |Exepak.Frames(find, size, file)| + seg.End() < |file|
    ensures |Exepak.Frames(find, size, file)| < Exepak.Zbufsz(seg)
  {
    hide Found, Reachable, AllCodable, Expand, Encode, Lay, Cost, Parsings.Except, Exepak.Word;
    var ts := ScriptTokens(n);
    file := Script(n);
    ScriptFound(Nrv2e, n);
    FoundIsParsing(Nrv2e, 1, file, ts, 0, 1);
    assert file[..0] == [];
    ScriptCost(Nrv2e, n);
    LayLength(W8, Encode(Nrv2e, ts, 1), 0);
    find := Parsings.Except(file, ts);
    Parsings.ExceptFinds(Nrv2e, ts, size);
    Parsings.ExceptTakes(file, ts);
    Exepak.FramesUnfold(find, size, file);
    Exepak.FramesEnd(find, size);
    assert First(file, size) == file && file[|file|..] == [];
  }
}
