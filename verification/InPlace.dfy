/** Decompression inside one buffer, and the three facts it rests on: which positions the
    check of TEST_OVERLAP bounds, that such a run is the run on separate buffers, and that
    uclpack leaves enough room for it. */
module InPlace {
  import opened Nrv
  import opened Simulation
  import opened Layout
  import opened PrefixCode
  import opened Tokens
  import opened RoundTrip

  /** While TEST_OVERLAP does not fail, the output stays behind the input position. */
  lemma {:induction false} OutputBehindInput(c: Config, s: State)
    requires c.mode.Overlap? && s.store.view.Split? && s.store.Olen() <= c.mode.gap + s.store.pos
    requires Run(c, s).Done? && Run(c, s).status == Ok
    ensures Run(c, s).store.Olen() <= c.mode.gap + Run(c, s).store.pos
    decreases s.store.Fuel(), Rank(s.ctl)
  {
    if Step(c, s).Go? {
      StepBehindInput(c, s);
      OutputBehindInput(c, Step(c, s).s);
    }
  }

  lemma StepBehindInput(c: Config, s: State)
    requires c.mode.Overlap? && s.store.view.Split? && s.store.Olen() <= c.mode.gap + s.store.pos
    requires Step(c, s).Go?
    ensures Step(c, s).s.store.view.Split?
    ensures Step(c, s).s.store.Olen() <= c.mode.gap + Step(c, s).s.store.pos
  {
    if s.ctl.Copy? {
      CopyKeeps(s.store, s.ctl.off, CopyCount(FinalLen(c, s.ctl.off, s.ctl.n)));
    }
  }

  lemma InPlaceRun(a: Config, w: Width, buf: seq<byte>, off: nat, final: Store)
    requires a.mode.Overlap? && a.mode.gap == off && off + a.srcLen <= |buf|
    requires Run(a, State(Top, 1, Input(w, buf[off..]))) == Done(Ok, final)
    ensures final.view.Split? && |final.view.out| <= |buf|
    ensures Image(buf, off, 0, Input(w, buf[off..])) == Store(w, [], 0, Flat(buf, off, 0, 0))
    ensures Write(buf, 0, final.view.out) == final.view.out + buf[|final.view.out|..]
    ensures Run(a, State(Top, 1, Image(buf, off, 0, Input(w, buf[off..])))) == Done(Ok, Image(buf, off, 0, final))
  {
    var st := Input(w, buf[off..]);
    var s := State(Top, 1, st);
    OutputBehindInput(a, s);
    OkAtEnd(a, s);
    assert Apart(a, buf, off, 0, final.Olen(), st);
    ImageRun(a, buf, off, 0, s, Ok, final);
    assert Write(buf, 0, []) == buf;
    assert Write(buf, 0, final.view.out) == final.view.out + buf[|final.view.out|..];
  }

  /** In-place decompression is correct. If test_overlap accepts the block at buf[off..], then
      decompressing it to buf[0..] in the same memory, with or without checks, ends with the
      same status and positions as decompressing it to a separate buffer, puts the same bytes
      at the start of the buffer, and leaves the bytes behind them alone. */
  lemma InPlaceIsCorrect(fmt: Format, w: Width, buf: seq<byte>, off: nat, srcLen: nat, oend: nat, final: Store)
    requires off + srcLen <= |buf|
    requires Decode(Config(fmt, srcLen, Overlap(oend, off)), Input(w, buf[off..])) == Done(Ok, final)
    ensures final.view.Split? && |final.view.out| <= |buf|
    ensures forall mode | mode in {Fast, Safe(oend)} ::
              var c := Config(fmt, srcLen, mode);
              && Decode(c, Input(w, buf[off..])) == Done(Ok, final)
              && Decode(c, Store(w, [], 0, Flat(buf, off, 0, 0)))
                 == Done(Ok, final.(view := Flat(final.view.out + buf[|final.view.out|..], off, 0, |final.view.out|)))
  {
    var a := Config(fmt, srcLen, Overlap(oend, off));
    var st := Input(w, buf[off..]);
    var s := State(Top, 1, st);
    InPlaceRun(a, w, buf, off, final);
    hide Write, Run;
    forall mode | mode in {Fast, Safe(oend)}
      ensures var c := Config(fmt, srcLen, mode);
              && Decode(c, st) == Done(Ok, final)
              && Decode(c, Image(buf, off, 0, st)) == Done(Ok, Image(buf, off, 0, final))
    {
      RelaxRun(a, Config(fmt, srcLen, mode), s, final);
      RelaxRun(a, Config(fmt, srcLen, mode), State(Top, 1, Image(buf, off, 0, st)), Image(buf, off, 0, final));
    }
  }

  // ------------------------------------------------------------------- overhead

  lemma {:induction false} CostConcat(a: seq<Op>, b: seq<Op>)
    ensures Cost(a + b) == Cost(a) + Cost(b)
  {
    if a == [] {
      assert a + b == b;
    } else {
      assert (a + b)[1..] == a[1..] + b;
      CostConcat(a[1..], b);
    }
  }

  /** No token costs more than nine bits for a byte of output. */
  predicate Cheap(fmt: Format, ts: seq<Token>, last: nat)
    requires AllCodable(fmt, ts)
  {
    ts != [] ==>
      && Cost(TokenOps(fmt, last, ts[0])) <= 9 * ts[0].Size()
      && Cheap(fmt, ts[1..], LastAfter(last, ts[0]))
  }

  lemma {:induction false} CheapCost(fmt: Format, ts: seq<Token>, last: nat, olen: nat)
    requires AllCodable(fmt, ts) && Cheap(fmt, ts, last)
    ensures Cost(Encode(fmt, ts, last)) <= 9 * (Total(ts, olen) - olen) + Cost(EndOps(fmt))
  {
    if ts != [] {
      CostConcat(TokenOps(fmt, last, ts[0]), Encode(fmt, ts[1..], LastAfter(last, ts[0])));
      CheapCost(fmt, ts[1..], LastAfter(last, ts[0]), olen + ts[0].Size());
    }
  }

  lemma EndCost(fmt: Format)
    ensures Cost(EndOps(fmt)) <= 57
  {
    var wide := !fmt.Nrv2b?;
    EndLevel(wide);
    CodeLength(wide, END_CODE, if wide then 12 else 23);
    CodeIsBits(wide, END_CODE);
    BitsCost([Bit(0)] + Code(wide, END_CODE));
    CostConcat([Bit(0)] + Code(wide, END_CODE), [Byte(0xff)]);
    assert Cost([Byte(0xff)]) == 8;
  }

  lemma EndLevel(wide: bool)
    ensures var k := if wide then 12 else 23; Level(wide, k) <= END_CODE < Level(wide, k + 1)
  {
    assert Pow2(8) == 0x100;
    Pow2Add(8, 8);
    Pow2Add(16, 8);
    LevelPow(wide, if wide then 12 else 23);
    LevelPow(wide, if wide then 13 else 24);
  }

  lemma {:induction false} LevelPow(wide: bool, k: nat)
    ensures if wide then 3 * Level(wide, k) == 2 * Pow2(2 * k) + 4 else Level(wide, k) == Pow2(k + 1)
  {
    if k > 0 {
      LevelPow(wide, k - 1);
    }
  }

  predicate AllBits(ops: seq<Op>) { forall i | 0 <= i < |ops| :: ops[i].Bit? }

  lemma {:induction false} BitsCost(ops: seq<Op>)
    requires AllBits(ops)
    ensures Cost(ops) == |ops|
  {
    if ops != [] {
      BitsCost(ops[1..]);
    }
  }

  lemma CodeIsBits(wide: bool, m: nat)
    requires m >= 2
    ensures AllBits(Code(wide, m))
  {
    PathIsBits(wide, m / 2);
  }

  lemma {:induction false} PathIsBits(wide: bool, h: nat)
    requires h >= 1
    ensures AllBits(Path(wide, h))
    decreases h
  {
    if h > 1 {
      PathIsBits(wide, if wide then (h / 2 + 1) / 2 else h / 2);
    }
  }

  /** get_overhead of uclpack for one of the three methods. */
  function Overhead(size: nat): nat { size / 8 + 256 }

  lemma PacedByCost(c: Config, g: Grain, olen: nat, rest: seq<Op>, total: nat, blockSize: nat)
    requires c.mode.Overlap? && c.mode.gap + c.srcLen == blockSize + Overhead(blockSize)
    requires olen <= total <= blockSize && Cost(rest) <= 9 * (total - olen) + 57 && g.fill < 8 * g.w.Bytes()
    ensures Paced(c, g, olen, rest)
  {
    UnreadBits(g.w, g.fill, rest);
  }

  /** A stream has at most the unused bits more than its units. */
  lemma UnreadBits(w: Width, fill: nat, ops: seq<Op>)
    ensures 8 * Unread(w, fill, ops) <= Cost(ops) + fill
  {
    CostCounts(ops);
  }

  lemma {:induction false} CostCounts(ops: seq<Op>)
    ensures Cost(ops) == ControlBits(ops) + 8 * DataBytes(ops)
  {
    if ops != [] {
      CostCounts(ops[1..]);
    }
  }

  lemma {:induction false} CheapPasses(c: Config, g: Grain, ts: seq<Token>, last: nat, olen: nat, blockSize: nat)
    requires AllCodable(c.fmt, ts) && Cheap(c.fmt, ts, last) && g.fill < 8 * g.w.Bytes()
    requires c.mode.Overlap? && c.mode.oend >= Total(ts, olen) && Total(ts, olen) <= blockSize
    requires c.mode.gap + c.srcLen == blockSize + Overhead(blockSize)
    ensures Passes(c, g, ts, last, olen)
    decreases |ts|
  {
    hide Encode, TokenOps, EndOps;
    if ts != [] {
      var rest := ts[1..];
      var last' := LastAfter(last, ts[0]);
      var n := olen + ts[0].Size();
      CheapCost(c.fmt, rest, last', n);
      EndCost(c.fmt);
      assert Total(rest, n) == Total(ts, olen);
      PacedByCost(c, g, n, Encode(c.fmt, rest, last'), Total(ts, olen), blockSize);
      CheapPasses(c, g, rest, last', n, blockSize);
    }
  }

  /** The overhead is enough: a block of cheap tokens, put at the top of a buffer of the size
      that uclpack allocates, passes every check of test_overlap, whatever lies behind it. */
  lemma OverheadSuffices(fmt: Format, w: Width, ts: seq<Token>, blockSize: nat, z: seq<byte>, gap: nat, tail: seq<byte>)
    requires Valid(fmt, ts, 0) && Cheap(fmt, ts, 1) && z == Compressed(fmt, w, ts)
    requires Total(ts, 0) <= blockSize < 0x8000_0000
    requires gap + |z| == blockSize + Overhead(blockSize)
    ensures var r := Decode(Config(fmt, |z|, Overlap(Total(ts, 0), gap)), Input(w, z + tail));
            r.Done? && r.status == Ok && r.store.view.Split? && r.store.view.out == Expand(ts, [])
  {
    var c := Config(fmt, |z|, Overlap(Total(ts, 0), gap));
    CheapPasses(c, GrainOf(w, Encode(fmt, ts, 1)), ts, 1, 0, blockSize);
    hide Encode, Lay, Passes, Run;
    DecodeCompressed(c, w, ts, tail);
  }

  /** A block of cheap tokens also fits into the buffer that the compressor writes to. */
  lemma CheapFits(fmt: Format, w: Width, ts: seq<Token>)
    requires Valid(fmt, ts, 0) && Cheap(fmt, ts, 1)
    ensures |Compressed(fmt, w, ts)| <= Total(ts, 0) + Overhead(Total(ts, 0))
  {
    CheapCost(fmt, ts, 1, 0);
    EndCost(fmt);
    LayLength(w, Encode(fmt, ts, 1), 0);
  }
}
