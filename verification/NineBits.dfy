/** Which matches cost more than nine bits for a byte of output. The buffers of uclpack allow
    for nine bits, and no more. */
module NineBits {
  import opened Nrv
  import opened PrefixCode
  import opened Tokens
  import opened Layout
  import opened RoundTrip
  import opened InPlace
  import opened Estimate

  /** The largest block that uclpack takes. */
  const LARGEST_BLOCK: nat := 0x80_0000

  /** The largest offset from which three bytes cost at most 27 bits. */
  function LastCheapOffset(fmt: Format): nat { if fmt.Nrv2b? then 130304 else 349312 }

  /** A match of this length from this offset, not repeated, costs more than nine bits a byte. */
  predicate Dear(fmt: Format, off: nat, len: nat)
  {
    (len == 3 && off > LastCheapOffset(fmt)) || (fmt.Nrv2b? && len == 4 && off > 2096384)
  }

  lemma Levels()
    ensures Level(true, 3) == 44 && Level(true, 6) == 2732 && Level(true, 7) == 10924 && Level(true, 9) == 174764
    ensures Level(false, 3) == 16 && Level(false, 8) == 512 && Level(false, 9) == 1024 && Level(false, 12) == 8192
    ensures Level(false, 15) == 0x1_0000
  {
    assert Level(true, 1) == 4;
    assert Level(true, 4) == 172;
    assert Level(true, 6) == 2732;
    assert Level(true, 8) == 43692;
    assert Level(false, 6) == 128;
    assert Level(false, 9) == 1024;
    assert Level(false, 12) == 8192;
  }

  function PerLevel(wide: bool): nat { if wide then 3 else 2 }

  lemma {:induction false} CodeAtMost(wide: bool, m: nat, k: nat)
    requires 2 <= m < Level(wide, k + 1)
    ensures |Code(wide, m)| <= 2 + k * PerLevel(wide)
    decreases k
  {
    if m >= Level(wide, k) {
      CodeLength(wide, m, k);
    } else {
      CodeAtMost(wide, m, k - 1);
    }
  }

  /** The level of m, counted up from k. */
  lemma {:induction false} CodeAtLeast(wide: bool, m: nat, k: nat)
    requires Level(wide, k) <= m
    ensures |Code(wide, m)| >= 2 + k * PerLevel(wide)
    decreases m - Level(wide, k)
  {
    if m < Level(wide, k + 1) {
      CodeLength(wide, m, k);
    } else {
      CodeAtLeast(wide, m, k + 1);
    }
  }

  lemma {:induction false} CodeIsShort(m: nat)
    requires m >= 2
    ensures |Code(false, m)| <= m
  {
    if m >= 4 {
      CodeIsShort(m / 2);
    }
  }

  /** A length has no more bits than bytes; the short ones have one or two. */
  lemma TailBound(fmt: Format, n: nat)
    requires n >= 1
    ensures 1 <= |LenTail(fmt, n)| <= n
    ensures n <= 2 || (n == 3 && !fmt.Nrv2e?) ==> |LenTail(fmt, n)| == 1
  {
    if fmt.Nrv2e? && n >= 5 {
      CodeIsShort(n - 3);
    } else if !fmt.Nrv2e? && n >= 4 {
      CodeIsShort(n - 2);
    }
  }

  /** The number that codes an offset. */
  function OffsetCode(fmt: Format, off: nat): nat
    requires off >= 1
  {
    3 + (off - 1) / if fmt.Nrv2b? then 0x100 else 0x80
  }

  /** The bits of an offset code, by the ranges of offsets that matter. */
  lemma OffsetBits(fmt: Format, off: nat)
    requires 1 <= off <= LARGEST_BLOCK
    ensures var n := |Code(!fmt.Nrv2b?, OffsetCode(fmt, off))|;
            if fmt.Nrv2b? then
              && (off <= 0xd00 ==> n <= 6) && (n <= 16 <==> off <= 130304)
              && (off > 130304 ==> n >= 18) && (off <= 0x3_0000 ==> n <= 18) && (n <= 25 <==> off <= 2096384) && n <= 30
            else
              && (off <= 0x500 ==> n <= 8) && (n <= 17 <==> off <= 349312)
              && (off > 349312 ==> n >= 20) && (off <= 0x8_0000 ==> n <= 20) && n <= 26
  {
    var m := OffsetCode(fmt, off);
    Levels();
    hide Level, Code;
    if fmt.Nrv2b? {
      CodeAtMost(false, m, 14);
      if off <= 0xd00 {
        CodeAtMost(false, m, 2);
      }
      if off <= 130304 {
        CodeAtMost(false, m, 7);
      } else {
        CodeAtLeast(false, m, 8);
      }
      if off <= 0x3_0000 {
        CodeAtMost(false, m, 8);
      }
      if off <= 2096384 {
        CodeAtMost(false, m, 11);
      } else {
        CodeAtLeast(false, m, 12);
      }
    } else {
      CodeAtMost(true, m, 8);
      if off <= 0x500 {
        CodeAtMost(true, m, 2);
      }
      if off <= 0x8_0000 {
        CodeAtMost(true, m, 6);
      }
      if off <= 349312 {
        CodeAtMost(true, m, 5);
      } else {
        CodeAtLeast(true, m, 6);
      }
    }
  }

  /** The bits of a match in terms of those of its two codes. */
  lemma MatchBits(fmt: Format, last: nat, off: nat, len: nat)
    requires Codable(fmt, Match(off, len))
    ensures var n := CodedLen(fmt, Match(off, len));
            Cost(TokenOps(fmt, last, Match(off, len)))
            == |LenTail(fmt, n)| + if off == last then 4
                                   else |Code(!fmt.Nrv2b?, OffsetCode(fmt, off))| + if fmt.Nrv2b? then 10 else 9
  {
    MatchCost(fmt, last, Match(off, len));
    OffsetCost(fmt, last, off, LowBit(fmt, CodedLen(fmt, Match(off, len))));
    hide TokenOps, LenTail, OffsetOps, Code;
  }

  /** The exact boundary: within a block that uclpack takes, a match costs more than nine bits a
      byte if and only if its offset is not repeated, and it is one of three bytes from behind
      the last cheap offset or, with NRV2B, one of four bytes from more than 2096384 back. */
  lemma DearExactly(fmt: Format, last: nat, off: nat, len: nat)
    requires Codable(fmt, Match(off, len)) && off <= LARGEST_BLOCK
    ensures Cost(TokenOps(fmt, last, Match(off, len))) > 9 * len <==> off != last && Dear(fmt, off, len)
  {
    MatchBits(fmt, last, off, len);
    OffsetBits(fmt, off);
    TailBound(fmt, CodedLen(fmt, Match(off, len)));
    hide TokenOps, LenTail, Code;
  }

  lemma LitCost(fmt: Format, last: nat, b: byte)
    ensures Cost(TokenOps(fmt, last, Token.Lit(b))) == 9
  {
    var ops := TokenOps(fmt, last, Token.Lit(b));
    assert Cost(ops[1..][1..]) == 0 && Cost(ops[1..]) == 8;
  }

  /** No match of the list is dear where it stands. */
  predicate NoneDear(fmt: Format, ts: seq<Token>, last: nat)
  {
    ts != [] ==>
      && (ts[0].Match? && ts[0].off != last ==> !Dear(fmt, ts[0].off, ts[0].len))
      && NoneDear(fmt, ts[1..], LastAfter(last, ts[0]))
  }

  lemma OffsetWithin(ts: seq<Token>, olen: nat)
    requires Reachable(ts, olen) && ts != [] && ts[0].Match?
    ensures ts[0].off + ts[0].len <= Total(ts, olen)
  {
  }

  /** A list is cheap exactly when none of its matches is dear. */
  lemma {:induction false} CheapExactly(fmt: Format, ts: seq<Token>, last: nat, olen: nat)
    requires Valid(fmt, ts, olen) && Total(ts, olen) <= LARGEST_BLOCK
    ensures Cheap(fmt, ts, last) <==> NoneDear(fmt, ts, last)
    decreases |ts|
  {
    if ts != [] {
      if ts[0].Match? {
        OffsetWithin(ts, olen);
        DearExactly(fmt, last, ts[0].off, ts[0].len);
      } else {
        LitCost(fmt, last, ts[0].b);
      }
      hide TokenOps, Dear;
      CheapExactly(fmt, ts[1..], LastAfter(last, ts[0]), olen + ts[0].Size());
    }
  }

  /** The largest block in which no match can be dear. */
  function AlwaysCheap(fmt: Format): nat { LastCheapOffset(fmt) + 3 }

  lemma {:induction false} ShortIsNotDear(fmt: Format, ts: seq<Token>, last: nat, olen: nat)
    requires Reachable(ts, olen) && Total(ts, olen) <= AlwaysCheap(fmt)
    ensures NoneDear(fmt, ts, last)
    decreases |ts|
  {
    if ts != [] {
      if ts[0].Match? {
        OffsetWithin(ts, olen);
      }
      ShortIsNotDear(fmt, ts[1..], LastAfter(last, ts[0]), olen + ts[0].Size());
    }
  }

  /** Up to that size every parsing of a block is cheap, whatever matches it takes. */
  lemma ShortIsCheap(fmt: Format, ts: seq<Token>)
    requires Valid(fmt, ts, 0) && Total(ts, 0) <= AlwaysCheap(fmt)
    ensures Cheap(fmt, ts, 1)
  {
    hide Cheap, NoneDear;
    ShortIsNotDear(fmt, ts, 1, 0);
    CheapExactly(fmt, ts, 1, 0);
  }

  /** So it always fits into the compressor's output buffer, which is not checked there. */
  lemma ShortFits(fmt: Format, w: Width, ts: seq<Token>)
    requires Valid(fmt, ts, 0) && Total(ts, 0) <= AlwaysCheap(fmt)
    ensures |Compressed(fmt, w, ts)| <= Total(ts, 0) + Overhead(Total(ts, 0))
  {
    hide Valid, Cheap, Compressed;
    ShortIsCheap(fmt, ts);
    CheapFits(fmt, w, ts);
  }

  predicate OffsetsUpTo(ts: seq<Token>, n: nat) { forall i | 0 <= i < |ts| :: ts[i].Match? ==> ts[i].off <= n }

  lemma {:induction false} NearIsNotDear(fmt: Format, ts: seq<Token>, last: nat)
    requires OffsetsUpTo(ts, LastCheapOffset(fmt))
    ensures NoneDear(fmt, ts, last)
    decreases |ts|
  {
    if ts != [] {
      assert forall i | 0 <= i < |ts| - 1 :: ts[1..][i] == ts[i + 1];
      NearIsNotDear(fmt, ts[1..], LastAfter(last, ts[0]));
    }
  }

  /** In larger blocks a parsing is cheap when no match comes from further back than that. */
  lemma NearIsCheap(fmt: Format, ts: seq<Token>)
    requires Valid(fmt, ts, 0) && Total(ts, 0) <= LARGEST_BLOCK && OffsetsUpTo(ts, LastCheapOffset(fmt))
    ensures Cheap(fmt, ts, 1)
  {
    hide Cheap, NoneDear;
    NearIsNotDear(fmt, ts, 1);
    CheapExactly(fmt, ts, 1, 0);
  }

  /** How far back the match finder looks, by level. */
  function Window(level: nat): nat
  {
    if level <= 6 then 48 * 1024
    else if level <= 8 then 128 * 1024
    else if level == 9 then 256 * 1024
    else LARGEST_BLOCK
  }

  lemma WindowIsCheap(fmt: Format, level: nat)
    ensures Window(level) <= LastCheapOffset(fmt) <==> level <= if fmt.Nrv2b? then 6 else 9
  {
  }

  // ------------------------------------------------------------------- larger blocks

  /** n literals of zero. */
  function Zeros(n: nat): (ts: seq<Token>)
    ensures |ts| == n
  {
    if n == 0 then [] else [Token.Lit(0)] + Zeros(n - 1)
  }

  /** Two offsets behind the last cheap one, taken in turn so that none is repeated. */
  function FarOffset(fmt: Format, odd: bool): nat { LastCheapOffset(fmt) + if odd then 2 else 1 }

  /** k matches of three bytes from there. */
  function FarMatches(fmt: Format, odd: bool, k: nat): (ts: seq<Token>)
    ensures |ts| == k
    decreases k
  {
    if k == 0 then [] else [Match(FarOffset(fmt, odd), 3)] + FarMatches(fmt, !odd, k - 1)
  }

  /** What one token in front of a list adds. */
  lemma Prepend(fmt: Format, t: Token, ts: seq<Token>, last: nat, olen: nat)
    requires Codable(fmt, t) && Within(t, olen) && Valid(fmt, ts, olen + t.Size())
    ensures var all := [t] + ts;
            && Valid(fmt, all, olen) && Total(all, olen) == Total(ts, olen + t.Size())
            && Cost(Encode(fmt, all, last)) == Cost(TokenOps(fmt, last, t)) + Cost(Encode(fmt, ts, LastAfter(last, t)))
            && (Cheap(fmt, all, last) <==>
                  Cost(TokenOps(fmt, last, t)) <= 9 * t.Size() && Cheap(fmt, ts, LastAfter(last, t)))
  {
    hide TokenOps, Codable, Within, Cost, EndOps;
    var all := [t] + ts;
    assert all[0] == t && all[1..] == ts;
    CostConcat(TokenOps(fmt, last, t), Encode(fmt, ts, LastAfter(last, t)));
    assert Encode(fmt, all, last) == TokenOps(fmt, last, t) + Encode(fmt, ts, LastAfter(last, t));
  }

  lemma {:induction false} ZerosValid(fmt: Format, n: nat, ts: seq<Token>, last: nat, olen: nat)
    requires Valid(fmt, ts, olen + n)
    ensures Valid(fmt, Zeros(n) + ts, olen) && Total(Zeros(n) + ts, olen) == Total(ts, olen + n)
    ensures Cost(Encode(fmt, Zeros(n) + ts, last)) == 9 * n + Cost(Encode(fmt, ts, last))
    ensures Cheap(fmt, Zeros(n) + ts, last) ==> Cheap(fmt, ts, last)
    decreases n
  {
    hide Valid, Total, Encode, Cost, TokenOps, Cheap;
    if n == 0 {
      assert Zeros(n) + ts == ts;
    } else {
      assert Zeros(n) + ts == [Token.Lit(0)] + (Zeros(n - 1) + ts);
      ZerosValid(fmt, n - 1, ts, last, olen + 1);
      LitCost(fmt, last, 0);
      Prepend(fmt, Token.Lit(0), Zeros(n - 1) + ts, last, olen);
    }
  }

  lemma NoTokens(fmt: Format, last: nat, olen: nat)
    ensures Valid(fmt, [], olen) && Total([], olen) == olen && Cheap(fmt, [], last)
    ensures Encode(fmt, [], last) == EndOps(fmt)
  {
  }

  lemma FarCost(fmt: Format, odd: bool, last: nat)
    ensures Cost(TokenOps(fmt, last, Match(FarOffset(fmt, odd), 3))) <= 30
  {
    var off := FarOffset(fmt, odd);
    MatchBits(fmt, last, off, 3);
    OffsetBits(fmt, off);
    TailBound(fmt, CodedLen(fmt, Match(off, 3)));
    hide TokenOps, LenTail, Code;
  }

  lemma {:induction false} FarMatchesValid(fmt: Format, odd: bool, k: nat, last: nat, olen: nat)
    requires olen >= FarOffset(fmt, odd) && (k > 1 ==> olen >= FarOffset(fmt, true)) && last != FarOffset(fmt, odd)
    ensures var ts := FarMatches(fmt, odd, k);
            && Valid(fmt, ts, olen) && Total(ts, olen) == olen + 3 * k
            && 28 * k <= Cost(Encode(fmt, ts, last)) <= 30 * k + Cost(EndOps(fmt))
            && (k > 0 ==> !Cheap(fmt, ts, last))
    decreases k
  {
    hide Valid, Total, Encode, Cost, TokenOps, Cheap, EndOps;
    if k == 0 {
      NoTokens(fmt, last, olen);
    } else {
      var off := FarOffset(fmt, odd);
      FarMatchesValid(fmt, !odd, k - 1, off, olen + 3);
      DearExactly(fmt, last, off, 3);
      FarCost(fmt, odd, last);
      Prepend(fmt, Match(off, 3), FarMatches(fmt, !odd, k - 1), last, olen);
    }
  }

  /** A block of n zeros as literals, then k far matches. */
  function DearBlock(fmt: Format, n: nat, k: nat): seq<Token> { Zeros(n) + FarMatches(fmt, false, k) }

  lemma {:induction false} ZerosOffsets(n: nat)
    ensures OffsetsUpTo(Zeros(n), 0)
  {
    if n > 0 {
      ZerosOffsets(n - 1);
    }
  }

  lemma {:induction false} FarOffsets(fmt: Format, odd: bool, k: nat)
    ensures OffsetsUpTo(FarMatches(fmt, odd, k), LastCheapOffset(fmt) + 2)
    decreases k
  {
    if k > 0 {
      FarOffsets(fmt, !odd, k - 1);
    }
  }

  lemma DearOffsets(fmt: Format, n: nat, k: nat)
    ensures OffsetsUpTo(DearBlock(fmt, n, k), LastCheapOffset(fmt) + 2)
  {
    ZerosOffsets(n);
    FarOffsets(fmt, false, k);
  }

  /** One byte more, and a valid parsing need not be cheap. */
  lemma AlwaysCheapIsSharp(fmt: Format)
    ensures var ts := DearBlock(fmt, LastCheapOffset(fmt) + 1, 1);
            Valid(fmt, ts, 0) && Total(ts, 0) == AlwaysCheap(fmt) + 1 && !Cheap(fmt, ts, 1)
  {
    hide Zeros, FarMatches, Cheap, Valid, Total, Encode, Cost, EndOps;
    var n := LastCheapOffset(fmt) + 1;
    FarMatchesValid(fmt, false, 1, 1, n);
    ZerosValid(fmt, n, FarMatches(fmt, false, 1), 1, 0);
  }

  /** And a larger block can have a valid parsing that exceeds the overhead. */
  lemma DearBlockGrows(fmt: Format, w: Width, k: nat)
    requires k >= 2049
    ensures var n := LastCheapOffset(fmt) + 2;
            var ts := DearBlock(fmt, n, k);
            && Valid(fmt, ts, 0) && Total(ts, 0) == n + 3 * k && !Cheap(fmt, ts, 1)
            && |Compressed(fmt, w, ts)| > Total(ts, 0) + Overhead(Total(ts, 0))
  {
    hide Zeros, FarMatches, Cheap, Total, Encode, Lay, AllCodable, Reachable, EndOps, Cost;
    var n := LastCheapOffset(fmt) + 2;
    FarMatchesValid(fmt, false, k, 1, n);
    ZerosValid(fmt, n, FarMatches(fmt, false, k), 1, 0);
    LayIsLong(w, Encode(fmt, DearBlock(fmt, n, k), 1), 0);
  }
}
