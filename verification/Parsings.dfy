/** Two parsings for uclpack: one that packs, and one that does not fit its buffers. */
module Parsings {
  import opened Nrv
  import opened BitBuffer
  import opened PrefixCode
  import opened Tokens
  import opened Layout
  import opened InPlace
  import opened Estimate
  import opened NineBits
  import opened Blocks
  import opened Uclpack

  // ------------------------------------------------------------------- runs of one byte

  function Repeat(b: byte, n: nat): (s: seq<byte>)
    ensures |s| == n
  {
    seq(n, _ => b)
  }

  /** A block of one byte repeated is a literal and a match; every other block is literals. */
  function Runs(block: seq<byte>): seq<Token>
  {
    if |block| >= 3 && block == Repeat(block[0], |block|) then [Token.Lit(block[0]), Match(1, |block| - 1)]
    else Literals(block)
  }

  lemma {:induction false} ExtendRepeats(b: byte, k: nat, n: nat)
    requires k >= 1
    ensures Extend(Repeat(b, k), 1, n) == Repeat(b, k + n)
    decreases n
  {
    if n > 0 {
      assert Repeat(b, k) + [b] == Repeat(b, k + 1);
      ExtendRepeats(b, k + 1, n - 1);
    }
  }

  /** The parsing of n equal bytes. */
  function Run(b: byte, n: nat): seq<Token>
    requires n >= 3
  {
    [Token.Lit(b), Match(1, n - 1)]
  }

  lemma TokenCost(fmt: Format, n: nat)
    requires n >= 3
    ensures Codable(fmt, Match(1, n - 1))
    ensures Cost(TokenOps(fmt, 1, Match(1, n - 1))) == 4 + |LenTail(fmt, n - 2)| <= 4 + n - 2
  {
    hide TokenOps, LenTail, Cost, Code;
    assert CodedLen(fmt, Match(1, n - 1)) == n - 2;
    MatchBits(fmt, 1, 1, n - 1);
    TailBound(fmt, n - 2);
  }

  lemma MatchOnly(fmt: Format, n: nat)
    requires n >= 3
    ensures var t := Match(1, n - 1);
            && Valid(fmt, [t], 1) && Cheap(fmt, [t], 1)
            && Cost(Encode(fmt, [t], 1)) == 4 + |LenTail(fmt, n - 2)| + Cost(EndOps(fmt))
  {
    hide TokenOps, EndOps, LenTail, Encode, Valid, Cheap, Cost, Code, Total;
    var t := Match(1, n - 1);
    NoTokens(fmt, 1, n);
    TokenCost(fmt, n);
    assert [t] + [] == [t];
    Prepend(fmt, t, [], 1, 1);
  }

  lemma RunCost(fmt: Format, b: byte, n: nat)
    requires n >= 3
    ensures Valid(fmt, Run(b, n), 0) && Cheap(fmt, Run(b, n), 1)
    ensures Cost(Encode(fmt, Run(b, n), 1)) <= 13 + |LenTail(fmt, n - 2)| + 57
  {
    hide TokenOps, EndOps, LenTail, Encode, Valid, Cheap, Cost, Code;
    MatchOnly(fmt, n);
    LitCost(fmt, 1, b);
    EndCost(fmt);
    assert [Token.Lit(b)] + [Match(1, n - 1)] == Run(b, n);
    Prepend(fmt, Token.Lit(b), [Match(1, n - 1)], 1, 0);
  }

  lemma RunIs(fmt: Format, b: byte, n: nat)
    requires n >= 3
    ensures Valid(fmt, Run(b, n), 0) && Expand(Run(b, n), []) == Repeat(b, n)
  {
    var ts := Run(b, n);
    RunCost(fmt, b, n);
    assert ts[1..] == [Match(1, n - 1)] && ts[1..][1..] == [];
    assert [] + [b] == Repeat(b, 1);
    ExtendRepeats(b, 1, n - 1);
    hide Valid, Extend, Repeat;
    assert Expand(ts[1..], Repeat(b, 1)) == Expand([], Repeat(b, n));
  }

  lemma RunsAreFound(fmt: Format, size: nat)
    ensures Finds(Runs, fmt, size)
  {
    LiteralsAreFound(fmt, size);
    forall block: seq<byte> | 0 < |block| <= size
      ensures Chooses(Runs, fmt, block)
    {
      assert Chooses(Literals, fmt, block);
      if |block| >= 3 && block == Repeat(block[0], |block|) {
        RunIs(fmt, block[0], |block|);
      }
    }
  }

  lemma LargestPower()
    ensures Pow2(23) == LARGEST_BLOCK
  {
    Pow2Add(8, 8);
    Pow2Add(16, 7);
    assert Pow2(7) == 128 && Pow2(8) == 256;
    hide Pow2;
  }

  lemma LongTail(fmt: Format, n: nat)
    requires 1 <= n <= LARGEST_BLOCK
    ensures |LenTail(fmt, n)| <= 47
  {
    hide Code;
    LargestPower();
    if fmt.Nrv2e? && n >= 5 {
      NarrowBound(n - 3, 23);
    } else if !fmt.Nrv2e? && n >= 4 {
      NarrowBound(n - 2, 23);
    }
  }

  /** Any number of equal bytes is stored as no more than sixteen. */
  lemma RunsPack(fmt: Format, b: byte, n: nat)
    requires 3 <= n <= LARGEST_BLOCK
    ensures Chooses(Runs, fmt, Repeat(b, n)) && |Packed(fmt, Runs, Repeat(b, n))| <= 16
  {
    RunsAreFound(fmt, n);
    RunIs(fmt, b, n);
    RunCost(fmt, b, n);
    LongTail(fmt, n - 2);
    assert Runs(Repeat(b, n)) == Run(b, n);
    LayLength(W8, Encode(fmt, Run(b, n), 1), 0);
    hide Encode, Lay, Cheap;
  }

  lemma {:induction false} LiteralsAreCheap(fmt: Format, block: seq<byte>, last: nat)
    requires AllCodable(fmt, Literals(block))
    ensures Cheap(fmt, Literals(block), last)
  {
    if block != [] {
      var ts := Literals(block);
      assert ts[0] == Token.Lit(block[0]) && ts[1..] == Literals(block[1..]);
      LitCost(fmt, last, block[0]);
      LiteralsAreCheap(fmt, block[1..], last);
    }
  }

  lemma RunsAreCheap(fmt: Format, block: seq<byte>)
    requires AllCodable(fmt, Runs(block))
    ensures Cheap(fmt, Runs(block), 1)
  {
    if |block| >= 3 && block == Repeat(block[0], |block|) {
      RunIs(fmt, block[0], |block|);
      RunCost(fmt, block[0], |block|);
    } else {
      LiteralsAreCheap(fmt, block, 1);
    }
  }

  /** With this parsing every file is packed and unpacked, whatever the block size is. */
  lemma SomeRoundTrip(fmt: Format, level: byte, fast: bool, blockSize: uint32, file: seq<byte>)
    requires 1 <= level <= 10 && 1024 <= blockSize <= LARGEST_BLOCK
    ensures var j := Job(fmt, level, fast, blockSize, Runs, file);
            j.Sound() && AllCheap(j, 0) && NoBlockGrows(j, 0) && Written(Container(j), Some(j))
  {
    var j := Job(fmt, level, fast, blockSize, Runs, file);
    hide Container, Written, NoBlockGrows, AllCheap, Finds, Runs, Cheap;
    RunsAreFound(fmt, blockSize);
    forall block: seq<byte> | 0 < |block| <= blockSize && Chooses(Runs, fmt, block)
      ensures Cheap(fmt, Runs(block), 1)
    {
      RunsAreCheap(fmt, block);
    }
    NeverDearIsCheap(j, 0);
    CheapRoundTrip(j, []);
    assert Container(j) + [] == Container(j);
  }

  // ----------------------------------------------------------------- blocks that grow

  /** The parsing that takes ts for one block, and no match for any other. */
  function Except(b0: seq<byte>, ts: seq<Token>): Finder
  {
    block => if block == b0 then ts else Literals(block)
  }

  lemma ExceptFinds(fmt: Format, ts: seq<Token>, size: nat)
    requires Valid(fmt, ts, 0)
    ensures Finds(Except(Expand(ts, []), ts), fmt, size)
  {
    var b0 := Expand(ts, []);
    LiteralsAreFound(fmt, size);
    hide Valid, Expand;
    forall block: seq<byte> | 0 < |block| <= size
      ensures Chooses(Except(b0, ts), fmt, block)
    {
      assert Chooses(Literals, fmt, block);
    }
  }

  /** The smallest block size for which do_compress is shown to fail. */
  function GrowingSize(fmt: Format): nat { LastCheapOffset(fmt) + 2 + 3 * 2049 }

  lemma {:induction false} LiteralsOffsets(block: seq<byte>)
    ensures OffsetsUpTo(Literals(block), 0)
  {
    if block != [] {
      LiteralsOffsets(block[1..]);
    }
  }

  lemma ExceptLooks(b0: seq<byte>, ts: seq<Token>, size: nat, n: nat)
    requires OffsetsUpTo(ts, n)
    ensures LooksBack(Except(b0, ts), size, n)
  {
    forall block: seq<byte> | 0 < |block| <= size
      ensures OffsetsUpTo(Except(b0, ts)(block), n)
    {
      LiteralsOffsets(block);
    }
  }

  /** From that block size on, there are a file and a valid parsing of its one block that
      do_compress would give up on, with the error that should never happen. Its matches are
      within the window of every level that RoundTripInWindow leaves out; but the file is all
      zeros, of which match finding takes other matches. Failures has files that fail with the
      matches that are taken of them. */
  lemma SomeBlockGrows(fmt: Format, level: byte, fast: bool, blockSize: uint32) returns (j: Job)
    requires blockSize >= GrowingSize(fmt)
    ensures j.Sound() && j.fmt == fmt && j.level == level && j.fast == fast && j.blockSize == blockSize
    ensures |j.file| == GrowingSize(fmt) && !NoBlockGrows(j, 0)
    ensures level > (if fmt.Nrv2b? then 6 else 9) ==> LooksBack(j.find, j.blockSize, Window(level))
  {
    hide DearBlock, Except, Cheap, Total, Reachable, AllCodable, Encode, Lay, Expand, LooksBack;
    var ts := DearBlock(fmt, LastCheapOffset(fmt) + 2, 2049);
    DearBlockGrows(fmt, W8, 2049);
    ExpandLength(ts, []);
    var file := Expand(ts, []);
    j := Job(fmt, level, fast, blockSize, Except(file, ts), file);
    ExceptFinds(fmt, ts, blockSize);
    GrowsUnfold(j, 0);
    OnlyBlock(file, blockSize);
    ExceptTakes(file, ts);
    DearOffsets(fmt, LastCheapOffset(fmt) + 2, 2049);
    if level > (if fmt.Nrv2b? then 6 else 9) {
      ExceptLooks(file, ts, blockSize, Window(level));
    }
  }

  lemma ExceptTakes(b0: seq<byte>, ts: seq<Token>)
    ensures Except(b0, ts)(b0) == ts
  {
  }

  lemma OnlyBlock(file: seq<byte>, size: nat)
    requires |file| <= size
    ensures First(file[0..], size) == file
  {
  }

  // ------------------------------------------------------------------ the exact levels

  /** What uclpack may be asked to pack at that level. */
  ghost predicate Asked(j: Job, fmt: Format, level: byte)
  {
    && j.Sound() && j.fmt == fmt && j.level == level && 1024 <= j.blockSize <= LARGEST_BLOCK
    && LooksBack(j.find, j.blockSize, Window(level))
  }

  /** Packing succeeds, and what is written is what do_decompress undoes. */
  ghost predicate Safely(j: Job)
  {
    j.Sound() && NoBlockGrows(j, 0) && Written(Container(j), Some(j))
  }

  /** Whatever the file, the block size and the matches taken, all is well exactly up to level
      nine of NRV2D and NRV2E, and six of NRV2B. */
  lemma LevelsExactly(fmt: Format, level: byte)
    requires 1 <= level <= 10
    ensures (forall j: Job | Asked(j, fmt, level) :: Safely(j)) <==> level <= if fmt.Nrv2b? then 6 else 9
  {
    hide LooksBack, Container, Written, NoBlockGrows, Job.Sound;
    if level <= if fmt.Nrv2b? then 6 else 9 {
      forall j: Job | Asked(j, fmt, level)
        ensures Safely(j)
      {
        RoundTripInWindow(j, []);
        assert Container(j) + [] == Container(j);
      }
    } else {
      var j := SomeBlockGrows(fmt, level, false, GrowingSize(fmt));
      assert Asked(j, fmt, level) && !Safely(j);
    }
  }
}
