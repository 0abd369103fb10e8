/** The width of the control words does not matter: what a stream decodes to depends only on
    the bits and bytes that the decoder reads from it, in their order. */
module Widths {
  import opened Nrv
  import opened Layout
  import opened RoundTrip

  /** What one step reads. */
  function Unit(s: State): seq<Op>
  {
    if s.ctl.ReadsBit() && s.store.NextBit().Some? then [Bit(s.store.NextBit().value.0)]
    else if (s.ctl.Lit? || s.ctl.OffByte?) && s.store.NextByte().Some? then [Byte(s.store.NextByte().value.0)]
    else []
  }

  /** Everything that a run reads. */
  function Trace(c: Config, s: State): seq<Op>
    decreases s.store.Fuel(), Rank(s.ctl)
  {
    match Step(c, s)
    case Go(t) => Unit(s) + Trace(c, t)
    case _ => []
  }

  lemma {:induction false} TraceHasByte(c: Config, s: State)
    requires Run(c, s).Done? && Run(c, s).status == Ok && !s.ctl.End?
    ensures HasByte(Trace(c, s))
    decreases s.store.Fuel(), Rank(s.ctl)
  {
    var t := Step(c, s).s;
    if s.ctl.OffByte? {
      assert Trace(c, s)[0].Byte?;
    } else {
      TraceHasByte(c, t);
      HasByteLater(Unit(s), Trace(c, t));
    }
  }

  /** The state of the same decoder, reading `ops` from a tape. */
  function Taped(g: Grain, s: State, ops: seq<Op>): State
    requires s.store.view.Split?
  {
    State(s.ctl, s.last, OnTape(g, ops, s.store.view.out))
  }

  lemma TapedStep(c: Config, d: Config, g: Grain, s: State, rest: seq<Op>)
    requires d.fmt == c.fmt && d.mode == c.mode && !c.mode.Overlap?
    requires s.store.view.Split? && Step(c, s).Go? && Step(c, s).s.store.view.Split?
    requires !Step(c, s).s.ctl.End? ==> HasByte(rest)
    ensures Step(d, Taped(g, s, Unit(s) + rest)) == Go(Taped(g, Step(c, s).s, rest))
  {
    var out := s.store.view.out;
    if s.ctl.ReadsBit() {
      var (b, st) := s.store.NextBit().value;
      assert OnTape(g, [Bit(b)] + rest, out).NextBit() == Some((b, OnTape(g, rest, out)));
      TapedBit(c, d, s.ctl, s.last, b, st, OnTape(g, rest, out));
    } else if s.ctl.Copy? {
      assert Unit(s) + rest == rest;
      TapedTransfer(c, d, g, s.ctl.off, FinalLen(c, s.ctl.off, s.ctl.n), s.last, s.store, rest);
    } else {
      TapedByte(c, d, g, s, rest);
    }
    hide CopyMatch;
  }

  lemma TapedByte(c: Config, d: Config, g: Grain, s: State, rest: seq<Op>)
    requires d.fmt == c.fmt && d.mode == c.mode && !c.mode.Overlap?
    requires s.store.view.Split? && (s.ctl.Lit? || s.ctl.OffByte?) && Step(c, s).Go?
    ensures Step(c, s).s.store.view.Split?
    ensures Step(d, Taped(g, s, Unit(s) + rest)) == Go(Taped(g, Step(c, s).s, rest))
  {
    var x := s.store.NextByte().value.0;
    var t := OnTape(g, [Byte(x)] + rest, s.store.view.out);
    assert t.view.ops[0].Byte? && !d.Exhausted(t);
    assert t.NextByte() == Some((x, OnTape(g, rest, s.store.view.out)));
  }

  lemma TapedTransfer(c: Config, d: Config, g: Grain, off: nat, n: nat, last: nat, st: Store, ops: seq<Op>)
    requires d.fmt == c.fmt && d.mode == c.mode && !c.mode.Overlap?
    requires st.view.Split? && Transfer(c, off, n, last, st).Go?
    ensures Transfer(c, off, n, last, st).s.store.view.Split?
    ensures Transfer(d, off, n, last, OnTape(g, ops, st.view.out))
         == Go(Taped(g, Transfer(c, off, n, last, st).s, ops))
  {
    TapedCopy(g, st, off, CopyCount(n), ops);
    hide CopyMatch;
  }

  lemma TapedBit(c: Config, d: Config, ctl: Ctl, last: nat, b: bit, st: Store, t: Store)
    requires d.fmt == c.fmt && d.mode == c.mode && ctl.ReadsBit()
    requires AfterBit(c, ctl, last, b, st).Go? && !d.Exhausted(t)
    ensures AfterBit(d, ctl, last, b, t) == Go(AfterBit(c, ctl, last, b, st).s.(store := t))
  {
  }

  lemma {:induction false} TapedCopy(g: Grain, st: Store, off: nat, n: nat, ops: seq<Op>)
    requires st.view.Split? && CopyMatch(st, off, n).Some?
    ensures CopyMatch(st, off, n).value.view.Split?
    ensures CopyMatch(OnTape(g, ops, st.view.out), off, n)
         == Some(OnTape(g, ops, CopyMatch(st, off, n).value.view.out))
    decreases n
  {
    if n > 0 {
      TapedCopy(g, st.Put(st.view.Look(off).value).value, off, n - 1, ops);
    }
  }

  /** A decoder that gets the units one by one does what the decoder of the stream does. */
  lemma {:induction false} TraceRun(c: Config, d: Config, g: Grain, s: State)
    requires d.fmt == c.fmt && d.mode == c.mode && !c.mode.Overlap?
    requires s.store.view.Split? && Run(c, s).Done? && Run(c, s).status == Ok
    ensures Run(c, s).store.view.Split?
    ensures Run(d, Taped(g, s, Trace(c, s))) == Done(Ok, OnTape(g, [], Run(c, s).store.view.out))
    decreases s.store.Fuel(), Rank(s.ctl)
  {
    if Step(c, s).Go? {
      var t := Step(c, s).s;
      SplitStays(c, s);
      if !t.ctl.End? {
        TraceHasByte(c, t);
      }
      TapedStep(c, d, g, s, Trace(c, t));
      TraceRun(c, d, g, t);
    }
  }

  /** Whatever a decoder for control words of one width accepts, the decoder for any other
      width decodes to the same bytes from the same bits and bytes in its own layout. */
  lemma WidthDoesNotMatter(c: Config, w: Width, src: seq<byte>, w': Width)
    requires !c.mode.Overlap?
    requires Decode(c, Input(w, src)).Done? && Decode(c, Input(w, src)).status == Ok
    ensures var z := Lay(w', Trace(c, State(Top, 1, Input(w, src))), 0);
            var r := Decode(Config(c.fmt, |z|, c.mode), Input(w', z));
            && r.Done? && r.status == Ok
            && r.store.view.Split? && Decode(c, Input(w, src)).store.view.Split?
            && r.store.view.out == Decode(c, Input(w, src)).store.view.out
  {
    hide Run, Trace, Lay, Holds;
    var s := State(Top, 1, Input(w, src));
    var ops := Trace(c, s);
    var z := Lay(w', ops, 0);
    var d, g := Config(c.fmt, |z|, c.mode), GrainOf(w', ops);
    TraceRun(c, d, g, s);
    LayHolds(w', ops, []);
    assert z + [] == z;
    HoldsRun(d, State(Top, 1, Input(w', z)), Taped(g, s, ops));
  }
}
