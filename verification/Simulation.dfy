/** Runs of the decoder in different modes and on different stores agree. */
module Simulation {
  import opened Nrv

  /** b makes no check that a does not make. */
  predicate Weaker(a: Config, b: Config)
  {
    && a.fmt == b.fmt
    && a.srcLen == b.srcLen
    && match b.mode
       case Fast => true
       case Safe(oend) => !a.mode.Fast? && a.mode.oend == oend
       case Overlap(_, _) => a == b
  }

  lemma RelaxChecks(a: Config, b: Config, st: Store, n: int)
    requires Weaker(a, b)
    ensures b.Exhausted(st) ==> a.Exhausted(st)
    ensures b.Above(n) ==> a.Above(n)
    ensures b.Clobbers(st) ==> a.Clobbers(st)
  {
  }

  lemma RelaxBit(a: Config, b: Config, ctl: Ctl, last: nat, x: bit, st: Store)
    requires Weaker(a, b) && ctl.ReadsBit()
    requires AfterBit(a, ctl, last, x, st).Go?
    ensures AfterBit(b, ctl, last, x, st) == AfterBit(a, ctl, last, x, st)
  {
    RelaxChecks(a, b, st, if ctl.LenBit? then U32(ctl.n * 2 + x) + 1 else 0);
  }

  lemma RelaxStep(a: Config, b: Config, s: State)
    requires Weaker(a, b)
    requires Step(a, s).Go? || (Step(a, s).Halt? && Step(a, s).status == Ok)
    ensures Step(b, s) == Step(a, s)
  {
    hide AfterBit, CopyMatch;
    if s.ctl.ReadsBit() {
      var (x, st) := s.store.NextBit().value;
      RelaxBit(a, b, s.ctl, s.last, x, st);
    }
  }

  lemma {:induction false} RelaxRun(a: Config, b: Config, s: State, final: Store)
    requires Weaker(a, b)
    requires Run(a, s) == Done(Ok, final)
    ensures Run(b, s) == Done(Ok, final)
    decreases s.store.Fuel(), Rank(s.ctl)
  {
    RelaxStep(a, b, s);
    if Step(a, s).Go? {
      RelaxRun(a, b, Step(a, s).s, final);
    }
  }

  /** A mode with fewer checks decodes whatever a mode with more checks accepts, to the same
      bytes and the same final positions. */
  lemma Relax(a: Config, b: Config, st: Store, final: Store)
    requires Weaker(a, b)
    requires Decode(a, st) == Done(Ok, final)
    ensures Decode(b, st) == Done(Ok, final)
  {
    RelaxRun(a, b, State(Top, 1, st), final);
  }

  /** The output never shrinks. */
  lemma {:induction false} OutputGrows(c: Config, s: State)
    requires Run(c, s).Done?
    ensures s.store.Olen() <= Run(c, s).store.Olen()
    decreases s.store.Fuel(), Rank(s.ctl)
  {
    StepGrows(c, s);
    if Step(c, s).Go? {
      OutputGrows(c, Step(c, s).s);
    }
  }

  lemma StepGrows(c: Config, s: State)
    ensures Step(c, s).Go? ==> s.store.Olen() <= Step(c, s).s.store.Olen()
    ensures Step(c, s).Halt? ==> s.store.Olen() <= Step(c, s).store.Olen()
  {
    if s.ctl.Copy? {
      CopyLength(s.store, s.ctl.off, CopyCount(FinalLen(c, s.ctl.off, s.ctl.n)));
    }
  }

  lemma {:induction false} CopyLength(st: Store, off: nat, n: nat)
    ensures CopyMatch(st, off, n).Some? ==> CopyMatch(st, off, n).value.Olen() == st.Olen() + n
    decreases n
  {
    if n > 0 && st.view.Look(off).Some? && st.Put(st.view.Look(off).value).Some? {
      CopyLength(st.Put(st.view.Look(off).value).value, off, n - 1);
    }
  }

  // ---------------------------------------------------------------- one memory

  function Write(mem: seq<byte>, at: nat, s: seq<byte>): (r: seq<byte>)
    requires at + |s| <= |mem|
    ensures |r| == |mem|
  {
    mem[..at] + s + mem[at + |s|..]
  }

  /** The store that a split store becomes when its output is written into `mem` at dstp. */
  function Image(mem: seq<byte>, srcp: nat, dstp: nat, st: Store): Store
    requires st.view.Split? && dstp + |st.view.out| <= |mem|
  {
    st.(view := Flat(Write(mem, dstp, st.view.out), srcp, dstp, |st.view.out|))
  }

  /** Input that is still to be read is not overwritten: either input and output are apart,
      or the run checks that the output does not pass the input position. */
  predicate Apart(c: Config, mem: seq<byte>, srcp: nat, dstp: nat, cap: nat, st: Store)
    requires st.view.Split?
  {
    && dstp + cap <= |mem|
    && srcp + |st.view.src| <= |mem|
    && mem[srcp..srcp + |st.view.src|] == st.view.src
    && (|| dstp + cap <= srcp
        || srcp + |st.view.src| <= dstp
        || (c.mode.Overlap? && srcp == dstp + c.mode.gap && |st.view.out| <= c.mode.gap + st.pos))
  }

  lemma ImageReads(c: Config, mem: seq<byte>, srcp: nat, dstp: nat, cap: nat, st: Store)
    requires st.view.Split? && |st.view.out| <= cap && Apart(c, mem, srcp, dstp, cap, st)
    ensures forall i | st.pos <= i < |st.view.src| ::
              i < |Image(mem, srcp, dstp, st).view.Source()| &&
              Image(mem, srcp, dstp, st).view.Source()[i] == st.view.src[i]
  {
    var t := Image(mem, srcp, dstp, st);
    assert |t.view.mem| == |mem|;
    forall i | st.pos <= i < |st.view.src|
      ensures i < |t.view.Source()| && t.view.Source()[i] == st.view.src[i]
    {
      assert st.view.src[i] == mem[srcp + i];
      assert t.view.Source() == t.view.mem[srcp..];
      assert dstp + |st.view.out| <= srcp + i || srcp + i < dstp;
      assert t.view.mem[srcp + i] == mem[srcp + i];
    }
  }

  lemma SameSlice<T>(a: seq<T>, b: seq<T>, lo: nat, hi: nat)
    requires lo < hi <= |b|
    requires forall i | lo <= i < |b| :: i < |a| && a[i] == b[i]
    ensures hi <= |a| && a[lo..hi] == b[lo..hi]
  {
    assert hi - 1 < |a| by { assert b[hi - 1] == a[hi - 1]; }
    forall i | 0 <= i < hi - lo
      ensures a[lo..hi][i] == b[lo..hi][i]
    {
      assert a[lo + i] == b[lo + i];
    }
  }

  lemma ImageNextBit(c: Config, mem: seq<byte>, srcp: nat, dstp: nat, cap: nat, st: Store)
    requires st.view.Split? && |st.view.out| <= cap && Apart(c, mem, srcp, dstp, cap, st)
    requires st.NextBit().Some?
    ensures st.NextBit().value.1.view.out == st.view.out
    ensures Image(mem, srcp, dstp, st).NextBit()
         == Some((st.NextBit().value.0, Image(mem, srcp, dstp, st.NextBit().value.1)))
  {
    if st.queue == [] {
      ImageReads(c, mem, srcp, dstp, cap, st);
      var k := st.w.Bytes();
      var t := Image(mem, srcp, dstp, st);
      SameSlice(t.view.Source(), st.view.src, st.pos, st.pos + k);
    }
  }

  lemma ImageNextByte(c: Config, mem: seq<byte>, srcp: nat, dstp: nat, cap: nat, st: Store)
    requires st.view.Split? && |st.view.out| <= cap && Apart(c, mem, srcp, dstp, cap, st)
    requires st.NextByte().Some?
    ensures st.NextByte().value.1 == st.(pos := st.pos + 1)
    ensures Image(mem, srcp, dstp, st).NextByte()
         == Some((st.NextByte().value.0, Image(mem, srcp, dstp, st.NextByte().value.1)))
  {
    ImageReads(c, mem, srcp, dstp, cap, st);
  }

  lemma ImagePut(mem: seq<byte>, srcp: nat, dstp: nat, st: Store, b: byte)
    requires st.view.Split? && dstp + |st.view.out| < |mem|
    ensures Image(mem, srcp, dstp, st).Put(b) == Some(Image(mem, srcp, dstp, st.Put(b).value))
  {
    var t := Image(mem, srcp, dstp, st).Put(b).value;
    assert t.view.mem == Write(mem, dstp, st.view.out + [b]);
  }

  lemma ImageLook(mem: seq<byte>, srcp: nat, dstp: nat, st: Store, off: nat)
    requires st.view.Split? && dstp + |st.view.out| <= |mem| && 1 <= off <= |st.view.out|
    ensures Image(mem, srcp, dstp, st).view.Look(off) == Some(st.view.out[|st.view.out| - off]) == st.view.Look(off)
  {
  }

  lemma {:induction false} ImageCopy(mem: seq<byte>, srcp: nat, dstp: nat, st: Store, off: nat, n: nat)
    requires st.view.Split? && dstp + |st.view.out| + n <= |mem|
    requires 1 <= off <= |st.view.out|
    ensures CopyMatch(st, off, n).Some? && CopyMatch(st, off, n).value.view.Split?
    ensures |CopyMatch(st, off, n).value.view.out| == |st.view.out| + n
    ensures CopyMatch(Image(mem, srcp, dstp, st), off, n)
         == Some(Image(mem, srcp, dstp, CopyMatch(st, off, n).value))
    decreases n
  {
    hide Image, View.Look, Store.Put;
    if n > 0 {
      ImageTurn(mem, srcp, dstp, st, off);
      ImageCopy(mem, srcp, dstp, st.Put(st.view.Look(off).value).value, off, n - 1);
    }
  }

  /** One turn of the copy. */
  lemma ImageTurn(mem: seq<byte>, srcp: nat, dstp: nat, st: Store, off: nat)
    requires st.view.Split? && dstp + |st.view.out| < |mem| && 1 <= off <= |st.view.out|
    ensures var s, b := Image(mem, srcp, dstp, st), st.view.Look(off);
            && b.Some? && s.view.Look(off) == b
            && st.Put(b.value).Some? && st.Put(b.value).value.view.Split?
            && |st.Put(b.value).value.view.out| == |st.view.out| + 1
            && s.Put(b.value) == Some(Image(mem, srcp, dstp, st.Put(b.value).value))
  {
    ImageLook(mem, srcp, dstp, st, off);
    ImagePut(mem, srcp, dstp, st, st.view.out[|st.view.out| - off]);
  }

  function ImageOf(mem: seq<byte>, srcp: nat, dstp: nat, n: Next): Next
    requires n.Go? ==> n.s.store.view.Split? && dstp + |n.s.store.view.out| <= |mem|
    requires n.Halt? ==> n.store.view.Split? && dstp + |n.store.view.out| <= |mem|
  {
    match n
    case Crash => Crash
    case Halt(status, st) => Halt(status, Image(mem, srcp, dstp, st))
    case Go(s) => Go(State(s.ctl, s.last, Image(mem, srcp, dstp, s.store)))
  }

  function StoreAfter(n: Next): Store
    requires !n.Crash?
  {
    if n.Halt? then n.store else n.s.store
  }

  lemma {:induction false} CopyKeeps(st: Store, off: nat, n: nat)
    requires st.view.Split? && CopyMatch(st, off, n).Some?
    ensures CopyMatch(st, off, n).value.view.Split?
    ensures CopyMatch(st, off, n).value == st.(view := Split(st.view.src, CopyMatch(st, off, n).value.view.out))
    decreases n
  {
    if n > 0 {
      CopyKeeps(st.Put(st.view.Look(off).value).value, off, n - 1);
    }
  }

  lemma ImageBitStep(c: Config, mem: seq<byte>, srcp: nat, dstp: nat, cap: nat, ctl: Ctl, last: nat, st: Store)
    requires st.view.Split? && |st.view.out| <= cap && Apart(c, mem, srcp, dstp, cap, st)
    requires ctl.ReadsBit() && st.NextBit().Some?
    ensures Kept(c, mem, srcp, dstp, cap, BitStep(c, ctl, last, st))
    ensures BitStep(c, ctl, last, Image(mem, srcp, dstp, st))
         == ImageOf(mem, srcp, dstp, BitStep(c, ctl, last, st))
  {
    ImageNextBit(c, mem, srcp, dstp, cap, st);
    var (b, st') := st.NextBit().value;
    AfterBitMoves(c, ctl, last, b, st', Image(mem, srcp, dstp, st'));
  }

  /** What follows a bit depends on the store only through the input check. */
  lemma AfterBitMoves(c: Config, ctl: Ctl, last: nat, b: bit, st: Store, t: Store)
    requires ctl.ReadsBit() && c.Exhausted(st) == c.Exhausted(t)
    ensures AfterBit(c, ctl, last, b, t) ==
            match AfterBit(c, ctl, last, b, st)
            case Go(s) => Go(State(s.ctl, s.last, t))
            case Halt(status, _) => Halt(status, t)
  {
  }

  lemma ImageLitStep(c: Config, mem: seq<byte>, srcp: nat, dstp: nat, cap: nat, last: nat, st: Store)
    requires st.view.Split? && |st.view.out| <= cap && Apart(c, mem, srcp, dstp, cap, st)
    requires !LitStep(c, last, st).Crash? && StoreAfter(LitStep(c, last, st)).Olen() <= cap
    ensures Kept(c, mem, srcp, dstp, cap, LitStep(c, last, st))
    ensures LitStep(c, last, Image(mem, srcp, dstp, st)) == ImageOf(mem, srcp, dstp, LitStep(c, last, st))
  {
    if LitStep(c, last, st).Go? {
      ImageNextByte(c, mem, srcp, dstp, cap, st);
      var (x, st') := st.NextByte().value;
      ImagePut(mem, srcp, dstp, st', x);
    }
  }

  lemma ImageTransfer(c: Config, mem: seq<byte>, srcp: nat, dstp: nat, cap: nat, off: nat, n: nat, last: nat, st: Store)
    requires st.view.Split? && |st.view.out| <= cap && Apart(c, mem, srcp, dstp, cap, st)
    requires !Transfer(c, off, n, last, st).Crash? && StoreAfter(Transfer(c, off, n, last, st)).Olen() <= cap
    ensures Kept(c, mem, srcp, dstp, cap, Transfer(c, off, n, last, st))
    ensures Transfer(c, off, n, last, Image(mem, srcp, dstp, st))
         == ImageOf(mem, srcp, dstp, Transfer(c, off, n, last, st))
  {
    var copied := CopyMatch(st, off, CopyCount(n));
    if copied.Some? && Transfer(c, off, n, last, st) != Halt(OutputOverrun, st)
       && Transfer(c, off, n, last, st) != Halt(LookbehindOverrun, st)
    {
      CopyLength(st, off, CopyCount(n));
      CopyKeeps(st, off, CopyCount(n));
      ImageCopy(mem, srcp, dstp, st, off, CopyCount(n));
      ImageClobbers(c, mem, srcp, dstp, copied.value);
    }
    hide U32, CopyMatch, Write;
  }

  lemma ImageClobbers(c: Config, mem: seq<byte>, srcp: nat, dstp: nat, st: Store)
    requires st.view.Split? && dstp + |st.view.out| <= |mem|
    ensures c.Clobbers(Image(mem, srcp, dstp, st)) == c.Clobbers(st)
  {
  }

  /** What a step that does not crash leaves is again within the bounds of the memory. */
  predicate Kept(c: Config, mem: seq<byte>, srcp: nat, dstp: nat, cap: nat, n: Next)
    requires dstp + cap <= |mem|
  {
    && !n.Crash?
    && StoreAfter(n).view.Split?
    && |StoreAfter(n).view.out| <= cap
    && (n.Go? ==> Apart(c, mem, srcp, dstp, cap, n.s.store))
  }

  lemma ImageStep(c: Config, mem: seq<byte>, srcp: nat, dstp: nat, cap: nat, s: State)
    requires s.store.view.Split? && |s.store.view.out| <= cap
    requires Apart(c, mem, srcp, dstp, cap, s.store)
    requires !Step(c, s).Crash? && StoreAfter(Step(c, s)).Olen() <= cap
    ensures Kept(c, mem, srcp, dstp, cap, Step(c, s))
    ensures Step(c, State(s.ctl, s.last, Image(mem, srcp, dstp, s.store)))
         == ImageOf(mem, srcp, dstp, Step(c, s))
  {
    if s.ctl.ReadsBit() {
      ImageBitStep(c, mem, srcp, dstp, cap, s.ctl, s.last, s.store);
    } else if s.ctl.Lit? {
      ImageLitStep(c, mem, srcp, dstp, cap, s.last, s.store);
    } else if s.ctl.OffByte? {
      if s.store.NextByte().Some? {
        ImageNextByte(c, mem, srcp, dstp, cap, s.store);
      }
    } else if s.ctl.Copy? {
      ImageTransfer(c, mem, srcp, dstp, cap, s.ctl.off, FinalLen(c, s.ctl.off, s.ctl.n), s.last, s.store);
    }
  }

  /** A run on one memory does what the run on separate buffers does, byte for byte and
      position for position, and changes nothing outside the output. */
  lemma {:induction false} ImageRun(c: Config, mem: seq<byte>, srcp: nat, dstp: nat, s: State,
                                    status: Status, final: Store)
    requires s.store.view.Split?
    requires Run(c, s) == Done(status, final)
    requires Apart(c, mem, srcp, dstp, final.Olen(), s.store)
    ensures final.view.Split? && |s.store.view.out| <= |final.view.out|
    ensures Run(c, State(s.ctl, s.last, Image(mem, srcp, dstp, s.store)))
         == Done(status, Image(mem, srcp, dstp, final))
    decreases s.store.Fuel(), Rank(s.ctl)
  {
    OutputGrows(c, s);
    if Step(c, s).Go? {
      OutputGrows(c, Step(c, s).s);
      ImageStep(c, mem, srcp, dstp, final.Olen(), s);
      ImageRun(c, mem, srcp, dstp, Step(c, s).s, status, final);
    } else {
      ImageStep(c, mem, srcp, dstp, final.Olen(), s);
    }
  }
}
