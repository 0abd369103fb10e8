/** What becomes of decompression in place when the output has overtaken the input: if the bytes
    that were written over it are zeros, the SAFE decoder ends with an error. */
module Overwritten {
  import opened Nrv
  import opened Simulation
  import opened Layout
  import opened Tokens
  import opened RoundTrip
  import opened Overtaken
  import opened Safety

  // --------------------------------------------------------------- reading nothing but zeros

  /** How often m can be doubled before it is too large for an offset or a length. */
  function Doublings(m: nat): (n: nat)
    requires m >= 1
    ensures n >= 1
    decreases 0x200_0000 - m
  {
    if m >= 0x100_0003 then 1 else 1 + Doublings(2 * m)
  }

  lemma {:induction false} DoublingsFall(m: nat, n: nat)
    requires 1 <= m <= n
    ensures Doublings(n) <= Doublings(m)
    decreases 0x200_0000 - m
  {
    if n < 0x100_0003 {
      DoublingsFall(2 * m, 2 * n);
    }
  }

  lemma {:induction false} DoublingsOf(m: nat, k: nat)
    requires m >= 1 && m * Pow2(k) >= 0x100_0003
    ensures Doublings(m) <= k + 1
    decreases k
  {
    if m < 0x100_0003 {
      assert (2 * m) * Pow2(k - 1) == m * Pow2(k);
      DoublingsOf(2 * m, k - 1);
    }
  }

  lemma DoublingsBound(m: nat)
    requires m >= 1
    ensures Doublings(m) <= 26
  {
    assert Pow2(5) == 32 && Pow2(10) == 32 * Pow2(5) && Pow2(15) == 32 * Pow2(10);
    assert Pow2(20) == 32 * Pow2(15) && Pow2(25) == 32 * Pow2(20);
    assert m * 0x200_0000 >= 0x100_0003;
    DoublingsOf(m, 25);
  }

  /** How many bytes can be read from here on, when all of them, and all bits, are zero. */
  function Budget(ctl: Ctl): nat
    requires InRange(0x100_0000, ctl)
  {
    match ctl
    case Top => 80
    case Lit => 81
    case OffBit(m) => 3 * Doublings(m)
    case OffStop(m) => 3 * Doublings(m) + 2
    case OffMore(m) => 3 * Doublings(m) + 1
    case OffByte(_) => 84
    case Low(_) => 83
    case Len(_, _) => 82
    case LenShort(_) => 81
    case LenBit(_, n) => 2 * Doublings(n)
    case LenStop(_, n) => 2 * Doublings(n) + 1
    case Copy(_, _) => 80
    case End => 0
  }

  lemma BudgetBound(ctl: Ctl)
    requires InRange(0x100_0000, ctl)
    ensures Budget(ctl) <= 84
  {
    match ctl
    case OffBit(m) => DoublingsBound(m);
    case OffStop(m) => DoublingsBound(m);
    case OffMore(m) => DoublingsBound(m);
    case LenBit(_, n) => DoublingsBound(n);
    case LenStop(_, n) => DoublingsBound(n);
    case _ =>
  }

  function Ones(q: seq<bit>): (n: nat)
    ensures n <= |q|
  {
    if q == [] then 0 else q[0] + Ones(q[1..])
  }

  /** What of the bits in the queue may still lead to. */
  function Reserve(s: State): nat
    requires InRange(0x100_0000, s.ctl)
  {
    90 * Ones(s.store.queue) + Budget(s.ctl)
  }

  /** What a control bit of zero leads to. */
  function AfterZero(fmt: Format, ctl: Ctl): Ctl
    requires ctl.ReadsBit() && InRange(0x100_0000, ctl)
  {
    match ctl
    case Top => OffBit(1)
    case OffBit(m) => OffStop(2 * m)
    case OffStop(m) => if fmt.Nrv2b? then OffBit(m) else OffMore(m)
    case OffMore(m) => OffBit(2 * m - 2)
    case Low(off) => Len(off, 0)
    case Len(off, low) =>
      if low != 0 then Copy(off, if fmt.Nrv2e? then 1 else 2) else LenBit(off, 1)
    case LenShort(off) => Copy(off, 3)
    case LenBit(off, n) => LenStop(off, 2 * n)
    case LenStop(off, n) => LenBit(off, n)
  }

  lemma ZeroBit(c: Config, ctl: Ctl, last: nat, st: Store)
    requires c.mode.Safe? && c.mode.oend < 0x100_0000 && ctl.ReadsBit() && InRange(c.mode.oend, ctl)
    requires AfterBit(c, ctl, last, 0, st).Go?
    ensures InRange(0x100_0000, ctl) && AfterBit(c, ctl, last, 0, st).s.ctl == AfterZero(c.fmt, ctl)
  {
    InRangeNoWrap(c, ctl, 0);
  }

  lemma BudgetTurn(fmt: Format, ctl: Ctl)
    requires ctl.ReadsBit() && InRange(0x100_0000, ctl) && InRange(0x100_0000, AfterZero(fmt, ctl))
    ensures Budget(AfterZero(fmt, ctl)) + 1 <= Budget(ctl)
  {
    if ctl.Top? || ctl.Len? {
      DoublingsBound(1);
      hide Doublings;
    } else {
      BudgetDoubles(fmt, ctl);
    }
  }

  lemma BudgetDoubles(fmt: Format, ctl: Ctl)
    requires ctl.ReadsBit() && InRange(0x100_0000, ctl) && InRange(0x100_0000, AfterZero(fmt, ctl))
    requires !ctl.Top? && !ctl.Len?
    ensures Budget(AfterZero(fmt, ctl)) + 1 <= Budget(ctl)
  {
    if ctl.OffMore? {
      DoublingsFall(ctl.m, 2 * ctl.m - 2);
    }
  }

  /** Nothing but zeros up to e, and up to the end of the output. */
  predicate Zeros(st: Store, e: nat)
  {
    && st.w.W8? && st.view.Flat? && st.view.dstp == 0 && e <= |st.view.mem|
    && forall i | 0 <= i < |st.view.mem| && (i < e || i < st.view.olen) :: st.view.mem[i] == 0
  }

  /** All that can be read is before e, and the end marker is not among it. */
  predicate Doomed(c: Config, s: State, v0: View, e: nat)
  {
    && c.mode.Safe? && c.mode.oend < 0x100_0000 && Inv(c, s, v0) && !s.ctl.End?
    && Zeros(s.store, e) && InRange(0x100_0000, s.ctl)
    && s.store.view.srcp + s.store.pos + Reserve(s) <= e
  }

  lemma InRangeGrows(oend: nat, ctl: Ctl)
    requires InRange(oend, ctl) && oend < 0x100_0000
    ensures InRange(0x100_0000, ctl)
  {
  }

  lemma ZeroByte()
    ensures LittleEndian([0]) == 0 && Bits(0, 8) == [0, 0, 0, 0, 0, 0, 0, 0]
  {
    assert [0][1..] == [];
    assert Bits(0, 1) == [0] && Bits(0, 2) == [0, 0] && Bits(0, 3) == [0, 0, 0] && Bits(0, 4) == [0, 0, 0, 0];
    assert Bits(0, 5) == [0, 0, 0, 0, 0] && Bits(0, 6) == [0, 0, 0, 0, 0, 0] && Bits(0, 7) == [0, 0, 0, 0, 0, 0, 0];
  }

  lemma NoOnes()
    ensures Ones([0, 0, 0, 0, 0, 0, 0]) == 0
  {
    assert Ones([0]) == 0 && Ones([0, 0]) == 0 && Ones([0, 0, 0]) == 0 && Ones([0, 0, 0, 0]) == 0;
    assert Ones([0, 0, 0, 0, 0]) == 0 && Ones([0, 0, 0, 0, 0, 0]) == 0;
  }

  /** A bit from the queue, or a zero bit from a byte of zero. */
  lemma ZeroNextBit(st: Store, e: nat)
    requires Zeros(st, e) && (st.queue == [] ==> st.view.srcp + st.pos < e) && st.NextBit().Some?
    ensures var (b, st') := st.NextBit().value;
            && Zeros(st', e) && st'.view == st.view
            && (if st.queue == [] then b == 0 && st'.pos == st.pos + 1 && Ones(st'.queue) == 0
                else st'.pos == st.pos && Ones(st.queue) == b + Ones(st'.queue))
  {
    hide Bits, LittleEndian;
    if st.queue == [] {
      hide Ones;
      ZeroByte();
      NoOnes();
      ZeroSource(st, e);
    }
  }

  lemma ZeroSource(st: Store, e: nat)
    requires Zeros(st, e) && st.view.srcp + st.pos < e
    ensures st.pos < |st.view.Source()| && st.view.Source()[st.pos..st.pos + 1] == [0]
  {
    var s := st.view.Source();
    assert s == st.view.mem[st.view.srcp..];
    assert s[st.pos] == st.view.mem[st.view.srcp + st.pos] == 0;
  }

  lemma DoomedBit(c: Config, s: State, v0: View, e: nat)
    requires Doomed(c, s, v0, e) && s.ctl.ReadsBit() && Step(c, s).Go?
    ensures Doomed(c, Step(c, s).s, v0, e)
  {
    hide Fits, Ahead, NoWrap, AfterZero, Budget;
    SafeStep(c, s, v0);
    BudgetPositive(s.ctl);
    ZeroNextBit(s.store, e);
    var (b, st) := s.store.NextBit().value;
    var next := AfterBit(c, s.ctl, s.last, b, st).s;
    InRangeGrows(c.mode.oend, next.ctl);
    BudgetBound(next.ctl);
    if b == 0 {
      ZeroBit(c, s.ctl, s.last, st);
      BudgetTurn(c.fmt, s.ctl);
    }
    NotTheEnd(c, s.ctl, s.last, b, st);
    hide AfterBit, InRange;
  }

  lemma NotTheEnd(c: Config, ctl: Ctl, last: nat, b: bit, st: Store)
    requires ctl.ReadsBit() && AfterBit(c, ctl, last, b, st).Go?
    ensures !AfterBit(c, ctl, last, b, st).s.ctl.End?
  {
  }

  lemma BudgetPositive(ctl: Ctl)
    requires InRange(0x100_0000, ctl) && !ctl.End?
    ensures Budget(ctl) >= 1
  {
  }

  /** A zero is put behind zeros. */
  lemma ZeroPut(st: Store, e: nat)
    requires Zeros(st, e) && st.Put(0).Some?
    ensures Zeros(st.Put(0).value, e) && st.Put(0).value.pos == st.pos && st.Put(0).value.queue == st.queue
    ensures st.Put(0).value.view == st.view.(mem := st.Put(0).value.view.mem, olen := st.view.olen + 1)
  {
  }

  lemma ZeroLook(st: Store, e: nat, off: nat)
    requires Zeros(st, e) && 1 <= off <= st.Olen() && st.view.Look(off).Some?
    ensures st.view.Look(off) == Some(0)
  {
  }

  lemma {:induction false} ZeroCopy(st: Store, e: nat, off: nat, n: nat)
    requires Zeros(st, e) && 1 <= off <= st.Olen() && CopyMatch(st, off, n).Some?
    ensures var r := CopyMatch(st, off, n).value;
            && Zeros(r, e) && r.pos == st.pos && r.queue == st.queue && r.Olen() == st.Olen() + n
            && r.view.srcp == st.view.srcp
    decreases n
  {
    hide Zeros;
    if n > 0 {
      FlatOlen(st, e);
      ZeroLook(st, e, off);
      ZeroPut(st, e);
      ZeroCopy(st.Put(0).value, e, off, n - 1);
    }
  }

  lemma FlatOlen(st: Store, e: nat)
    requires Zeros(st, e)
    ensures st.view.Flat? && st.Olen() == st.view.olen
  {
  }

  lemma DoomedLit(c: Config, s: State, v0: View, e: nat)
    requires Doomed(c, s, v0, e) && s.ctl.Lit? && Step(c, s).Go?
    ensures Doomed(c, Step(c, s).s, v0, e)
  {
    SafeStep(c, s, v0);
    var st := s.store.(pos := s.store.pos + 1);
    assert s.store.NextByte() == Some((0, st));
    hide Fits, Ahead;
    ZeroPut(st, e);
    hide Zeros;
  }

  lemma DoomedOffByte(c: Config, s: State, v0: View, e: nat)
    requires Doomed(c, s, v0, e) && s.ctl.OffByte? && Step(c, s).Go?
    ensures Doomed(c, Step(c, s).s, v0, e)
  {
    SafeStep(c, s, v0);
    var st := s.store.(pos := s.store.pos + 1);
    assert s.store.NextByte() == Some((0, st));
    assert U32((s.ctl.m - 3) * 0x100 + 0) % 0x100 == 0;
    hide Fits, Ahead, U32;
  }

  lemma DoomedCopy(c: Config, s: State, v0: View, e: nat)
    requires Doomed(c, s, v0, e) && s.ctl.Copy? && Step(c, s).Go?
    ensures Doomed(c, Step(c, s).s, v0, e)
  {
    hide Fits, Ahead, Zeros;
    SafeStep(c, s, v0);
    ZeroCopy(s.store, e, s.ctl.off, CopyCount(FinalLen(c, s.ctl.off, s.ctl.n)));
  }

  lemma DoomedStep(c: Config, s: State, v0: View, e: nat)
    requires Doomed(c, s, v0, e)
    ensures Step(c, s).Go? ==> Doomed(c, Step(c, s).s, v0, e)
    ensures !Step(c, s).Crash? && (Step(c, s).Halt? ==> Step(c, s).status != Ok)
  {
    SafeStep(c, s, v0);
    hide Doomed, Inv;
    if Step(c, s).Go? {
      if s.ctl.ReadsBit() {
        DoomedBit(c, s, v0, e);
      } else if s.ctl.Lit? {
        DoomedLit(c, s, v0, e);
      } else if s.ctl.OffByte? {
        DoomedOffByte(c, s, v0, e);
      } else {
        DoomedGoesOn(c, s, v0, e);
        DoomedCopy(c, s, v0, e);
      }
    } else {
      DoomedGoesOn(c, s, v0, e);
    }
  }

  lemma DoomedGoesOn(c: Config, s: State, v0: View, e: nat)
    requires Doomed(c, s, v0, e)
    ensures !s.ctl.End?
    ensures Step(c, s).Halt? ==> Step(c, s).status != Ok
    ensures !s.ctl.ReadsBit() && !s.ctl.Lit? && !s.ctl.OffByte? ==> s.ctl.Copy?
  {
    hide Inv, Zeros, Reserve, InRange;
  }

  /** Such a run ends with an error. */
  lemma {:induction false} DoomedFails(c: Config, s: State, v0: View, e: nat)
    requires Doomed(c, s, v0, e)
    ensures Run(c, s).Done? && Run(c, s).status != Ok
    decreases s.store.Fuel(), Rank(s.ctl)
  {
    hide Doomed;
    DoomedStep(c, s, v0, e);
    if Step(c, s).Go? {
      DoomedFails(c, Step(c, s).s, v0, e);
    }
  }

  // ---------------------------------------------------------------- a match that goes too far

  /** A decoder with output from the start of the memory, which so far is all zeros. */
  predicate Blank(c: Config, s: State, v0: View)
  {
    c.mode.Safe? && c.mode.oend < 0x100_0000 && Inv(c, s, v0) && Zeros(s.store, 0)
  }

  /** Such a copy writes over the next 720 bytes of the input, and more. */
  lemma LongCopy(c: Config, s: State, v0: View, x: nat)
    requires Blank(c, s, v0) && s.ctl.Copy? && s.store.Olen() + FinalLen(c, s.ctl.off, s.ctl.n) >= x
    requires s.store.Olen() < x && s.store.view.srcp + s.store.pos + 720 <= x
    ensures Run(c, s).Done? && Run(c, s).status != Ok
  {
    hide Ahead, InRange;
    SafeStep(c, s, v0);
    var n := FinalLen(c, s.ctl.off, s.ctl.n);
    if Step(c, s).Go? {
      var next := Step(c, s).s;
      CopyOffset(c, s, v0);
      ZeroCopy(s.store, 0, s.ctl.off, CopyCount(n));
      var e := next.store.Olen();
      assert Zeros(next.store, e);
      TopReserve(next);
      AtTop(c, next, v0);
      hide Inv, Zeros, Reserve;
      DoomedFails(c, next, v0, e);
    }
  }

  lemma CopyOffset(c: Config, s: State, v0: View)
    requires Inv(c, s, v0) && s.ctl.Copy?
    ensures s.ctl.off >= 1
  {
  }

  lemma AtTop(c: Config, s: State, v0: View)
    requires s.ctl.Top?
    ensures InRange(0x100_0000, s.ctl)
  {
  }

  lemma TopReserve(s: State)
    requires s.ctl.Top? && |s.store.queue| < 8
    ensures Reserve(s) <= 710
  {
  }

  /** The length of such a copy is being read. */
  predicate Long(c: Config, s: State, x: nat)
  {
    match s.ctl
    case LenBit(_, n) => n >= x
    case LenStop(_, n) => n >= x
    case Copy(off, n) => s.store.Olen() + FinalLen(c, off, n) >= x
    case _ => false
  }

  function LengthBudget(ctl: Ctl): nat
    requires InRange(0x100_0000, ctl)
  {
    match ctl
    case LenBit(_, n) => 2 * Doublings(n)
    case LenStop(_, n) => 2 * Doublings(n) + 1
    case _ => 0
  }

  predicate GoesTooFar(c: Config, s: State, v0: View, x: nat)
  {
    && Blank(c, s, v0) && InRange(0x100_0000, s.ctl) && Long(c, s, x) && s.store.Olen() < x
    && s.store.view.srcp + s.store.pos + LengthBudget(s.ctl) + 720 <= x
  }

  lemma LengthStep(c: Config, s: State, v0: View, x: nat)
    requires GoesTooFar(c, s, v0, x) && !s.ctl.Copy?
    ensures Step(c, s).Go? ==> GoesTooFar(c, Step(c, s).s, v0, x)
    ensures !Step(c, s).Crash? && (Step(c, s).Halt? ==> Step(c, s).status != Ok)
  {
    hide Fits, Ahead, Long, LengthBudget, InRange, AfterBit;
    SafeStep(c, s, v0);
    ReadsLength(c, s, x);
    if Step(c, s).Go? {
      var (b, st) := s.store.NextBit().value;
      InRangeGrows(c.mode.oend, Step(c, s).s.ctl);
      BitMoves(s.store);
      LengthTurns(c, s, x, b, st);
    }
  }

  lemma ReadsLength(c: Config, s: State, x: nat)
    requires Long(c, s, x) && !s.ctl.Copy?
    ensures s.ctl.ReadsBit() && (Step(c, s).Halt? ==> Step(c, s).status != Ok)
  {
    hide AfterBit;
  }

  lemma LengthTurns(c: Config, s: State, x: nat, b: bit, st: Store)
    requires c.mode.Safe? && c.mode.oend < 0x100_0000 && InRange(c.mode.oend, s.ctl) && InRange(0x100_0000, s.ctl)
    requires Long(c, s, x) && s.ctl.ReadsBit() && AfterBit(c, s.ctl, s.last, b, st).Go? && st.Olen() == s.store.Olen()
    requires InRange(0x100_0000, AfterBit(c, s.ctl, s.last, b, st).s.ctl)
    ensures Long(c, AfterBit(c, s.ctl, s.last, b, st).s, x)
    ensures LengthBudget(AfterBit(c, s.ctl, s.last, b, st).s.ctl) + 1 <= LengthBudget(s.ctl)
  {
    hide AfterBit, InRange, NoWrap;
    AfterLength(c, s.ctl, s.last, b, st);
    if s.ctl.LenBit? {
      DoublingsFall(2 * s.ctl.n, 2 * s.ctl.n + b);
    } else if b == 1 {
      FinalGrows(c, s.ctl.off, s.ctl.n);
    }
  }

  lemma AfterLength(c: Config, ctl: Ctl, last: nat, b: bit, st: Store)
    requires c.mode.Safe? && c.mode.oend < 0x100_0000 && InRange(c.mode.oend, ctl)
    requires (ctl.LenBit? || ctl.LenStop?) && AfterBit(c, ctl, last, b, st).Go?
    ensures AfterBit(c, ctl, last, b, st).s.store == st
    ensures AfterBit(c, ctl, last, b, st).s.ctl
         == if ctl.LenBit? then LenStop(ctl.off, 2 * ctl.n + b)
            else if b == 1 then Copy(ctl.off, ctl.n + c.Bias()) else LenBit(ctl.off, ctl.n)
    ensures 1 <= ctl.n <= 0x100_0001
  {
    InRangeNoWrap(c, ctl, b);
  }

  lemma FinalGrows(c: Config, off: nat, n: nat)
    requires n <= 0x100_0001
    ensures FinalLen(c, off, n + c.Bias()) >= n
  {
  }

  lemma BitMoves(st: Store)
    requires st.w.W8? && !st.view.Tape? && st.NextBit().Some?
    ensures st.NextBit().value.1.view == st.view && st.NextBit().value.1.w == st.w
    ensures st.NextBit().value.1.pos <= st.pos + 1
  {
  }

  lemma {:induction false} TooFarFails(c: Config, s: State, v0: View, x: nat)
    requires GoesTooFar(c, s, v0, x)
    ensures Run(c, s).Done? && Run(c, s).status != Ok
    decreases s.store.Fuel(), Rank(s.ctl)
  {
    if s.ctl.Copy? {
      LongCopy(c, s, v0, x);
    } else {
      hide GoesTooFar;
      LengthStep(c, s, v0, x);
      if Step(c, s).Go? {
        TooFarFails(c, Step(c, s).s, v0, x);
      }
    }
  }

  /** Where a run with less room stops for want of it, the run with more room goes too far. */
  lemma StopFails(c: Config, d: Config, s: State, v0: View, x: nat)
    requires Blank(c, s, v0) && d == Config(c.fmt, c.srcLen, Safe(x))
    requires Step(d, s).Halt? && Step(d, s).status == OutputOverrun
    requires s.store.Olen() < x && s.store.view.srcp + Step(d, s).store.pos + 800 <= x
    ensures !(Run(c, s).Done? && Run(c, s).status == Ok)
  {
    hide Inv, Doublings;
    StopCases(c, d, s, v0, x);
    if s.ctl.Copy? {
      assert GoesTooFar(c, s, v0, x);
      TooFarFails(c, s, v0, x);
    } else if Step(c, s).Go? {
      DoublingsBound(s.ctl.n + s.ctl.n + 1);
      TooFarFails(c, Step(c, s).s, v0, x);
    }
  }

  lemma StopCases(c: Config, d: Config, s: State, v0: View, x: nat)
    requires Blank(c, s, v0) && d == Config(c.fmt, c.srcLen, Safe(x))
    requires Step(d, s).Halt? && Step(d, s).status == OutputOverrun
    requires s.store.Olen() < x && s.store.view.srcp + Step(d, s).store.pos + 800 <= x
    ensures s.ctl.Copy? || s.ctl.LenBit?
    ensures s.ctl.Copy? ==> GoesTooFar(c, s, v0, x)
    ensures s.ctl.LenBit? && Step(c, s).Go? ==> GoesTooFar(c, Step(c, s).s, v0, x)
  {
    hide Framed, Room, Ahead, Doublings, InRange, AfterBit;
    SafeStep(c, s, v0);
    InRangeGrows(c.mode.oend, s.ctl);
    StopIs(d, s);
    if s.ctl.LenBit? && Step(c, s).Go? {
      var (b, st) := s.store.NextBit().value;
      BitMoves(s.store);
      AfterLength(c, s.ctl, s.last, b, st);
      InRangeGrows(c.mode.oend, Step(c, s).s.ctl);
      DoublingsBound(2 * s.ctl.n + b);
    }
  }

  /** The places where the room for the output is checked, and what is found there. */
  lemma StopIs(d: Config, s: State)
    requires d.mode.Safe? && s.store.view.Flat? && Step(d, s).Halt? && Step(d, s).status == OutputOverrun
    requires s.store.Olen() < d.mode.oend && InRange(0x100_0000, s.ctl) && s.store.Olen() < 0x200_0000
    ensures match s.ctl
            case Copy(off, n) =>
              s.store.Olen() + FinalLen(d, off, n) > d.mode.oend && Step(d, s).store == s.store
            case LenBit(off, n) =>
              && s.store.NextBit().Some? && Step(d, s).store == s.store.NextBit().value.1
              && 2 * n + s.store.NextBit().value.0 + 1 > d.mode.oend
            case _ => false
  {
    hide CopyMatch;
  }

  lemma SameStep(c: Config, d: Config, s: State)
    requires d.fmt == c.fmt && d.srcLen == c.srcLen
    requires Run(c, s).Done? && Run(c, s).status == Ok
    requires Run(d, s).Done? && Run(d, s).status != Ok
    ensures Step(d, s).Go? ==> Step(c, s) == Step(d, s)
    ensures !Step(d, s).Go? ==> Step(d, s).Halt? && Run(d, s) == Done(Step(d, s).status, Step(d, s).store)
  {
    var fast := Config(c.fmt, c.srcLen, Fast);
    RelaxStep(c, fast, s);
    if Step(d, s).Go? {
      RelaxStep(d, fast, s);
    }
  }

  /** The two runs agree until the one with less room stops. */
  lemma {:induction false} StoppedFails(c: Config, d: Config, s: State, v0: View, x: nat)
    requires c.mode.Safe? && c.mode.oend < 0x100_0000 && Inv(c, s, v0) && d == Config(c.fmt, c.srcLen, Safe(x))
    requires Run(d, s).Done? && Run(d, s).status == OutputOverrun
    requires var r := Run(d, s).store; Zeros(r, 0) && r.Olen() < x && r.view.srcp + r.pos + 800 <= x
    ensures !(Run(c, s).Done? && Run(c, s).status == Ok)
    decreases s.store.Fuel(), Rank(s.ctl)
  {
    hide Inv, Zeros;
    if Run(c, s).Done? && Run(c, s).status == Ok {
      SameStep(c, d, s);
      SafeStep(c, s, v0);
      if Step(d, s).Go? {
        StoppedFails(c, d, Step(d, s).s, v0, x);
      } else {
        StoppedAt(d, s, x);
        StopFails(c, d, s, v0, x);
      }
    }
  }

  lemma StoppedAt(d: Config, s: State, x: nat)
    requires d.mode.Safe? && Step(d, s).Halt? && Step(d, s).status == OutputOverrun && Zeros(Step(d, s).store, 0)
    ensures Zeros(s.store, 0) && s.store.Olen() == Step(d, s).store.Olen()
    ensures s.store.view.srcp == Step(d, s).store.view.srcp
  {
    hide CopyMatch;
  }

  lemma ZerosOut(buf: seq<byte>, src: nat, st: Store)
    requires st.view.Split? && st.w.W8? && |st.view.out| <= |buf|
    requires forall i | 0 <= i < |st.view.out| :: st.view.out[i] == 0
    ensures Zeros(Image(buf, src, 0, st), 0)
    ensures Image(buf, src, 0, st).pos == st.pos && Image(buf, src, 0, st).Olen() == st.Olen()
    ensures Image(buf, src, 0, st).view.srcp == src
  {
  }

  lemma InputInv(fmt: Format, srcLen: nat, oend: nat, buf: seq<byte>, src: nat)
    requires oend < 0x100_0000 && src + srcLen + 1 <= |buf| && oend + 1 <= |buf|
    ensures var v := Flat(buf, src, 0, 0); Inv(Config(fmt, srcLen, Safe(oend)), State(Top, 1, Store(W8, [], 0, v)), v)
  {
  }

  /** The run with less room, on separate buffers. */
  lemma StopsShort(fmt: Format, head: seq<Token>, t: Token, rest: seq<Token>, x: nat, tail: seq<byte>)
    requires Valid(fmt, Middle(head, t, rest), 0) && t.Match? && Total(Middle(head, t, rest), 0) < 0x8000_0000
    requires t.len - 1 <= x && Total(head, 0) <= x < Total(head, 0) + t.len - 1
    ensures AllCodable(fmt, rest) && Reachable(head, 0)
    ensures var z := Compressed(fmt, W8, Middle(head, t, rest));
            var r := Run(Config(fmt, |z|, Safe(x)), State(Top, 1, Input(W8, z + tail)));
            && r.Done? && r.status == OutputOverrun && r.store.view.Split? && r.store.w.W8?
            && r.store.view.out == Expand(head, [])
            && 8 * r.store.pos + Cost(Encode(fmt, rest, t.off)) < 8 * |z| + 8
  {
    hide Run, Encode, Middle, Holds, Compressed, Lay;
    var ts := Middle(head, t, rest);
    var z := Compressed(fmt, W8, ts);
    var d, g := Config(fmt, |z|, Safe(x)), GrainOf(W8, Encode(fmt, ts, 1));
    MatchStops(d, g, head, t, rest, 1, []);
    CompressedHolds(fmt, W8, ts, tail);
    HoldsRun(d, State(Top, 1, Input(W8, z + tail)), Before(g, fmt, ts, 1, []));
    var s, u := Run(d, State(Top, 1, Input(W8, z + tail))).store, Run(d, Before(g, fmt, ts, 1, [])).store;
    HeldIs(s, u, |z|);
    BitsLeft(s, u, |z|);
    WidthStays(d, Before(g, fmt, ts, 1, []));
  }

  lemma HeldIs(s: Store, t: Store, srcLen: nat)
    requires Holds(s, t, srcLen)
    ensures s.view.Split? && t.view.Tape? && s.view.out == t.view.tout && s.w == t.w
  {
  }

  lemma {:induction false} WidthStays(d: Config, s: State)
    requires Run(d, s).Done?
    ensures Run(d, s).store.w == s.store.w
    decreases s.store.Fuel(), Rank(s.ctl)
  {
    StepWidth(d, s);
    if Step(d, s).Go? {
      WidthStays(d, Step(d, s).s);
    }
  }

  lemma StepWidth(d: Config, s: State)
    requires !Step(d, s).Crash?
    ensures StoreAfter(Step(d, s)).w == s.store.w
  {
    if s.ctl.Copy? && CopyMatch(s.store, s.ctl.off, CopyCount(FinalLen(d, s.ctl.off, s.ctl.n))).Some? {
      CopyWidth(s.store, s.ctl.off, CopyCount(FinalLen(d, s.ctl.off, s.ctl.n)));
    }
  }

  lemma {:induction false} CopyWidth(st: Store, off: nat, n: nat)
    requires CopyMatch(st, off, n).Some?
    ensures CopyMatch(st, off, n).value.w == st.w
    decreases n
  {
    if n > 0 {
      CopyWidth(st.Put(st.view.Look(off).value).value, off, n - 1);
    }
  }

  /** Decompression in place fails, with the SAFE decoder, when the output is all zeros up to a
      match that begins below the input and ends 800 bytes or more above all of it that has been
      read by then. */
  lemma OverwrittenFails(fmt: Format, head: seq<Token>, t: Token, rest: seq<Token>, x: nat,
                         buf: seq<byte>, src: nat, oend: nat)
    requires Valid(fmt, Middle(head, t, rest), 0) && t.Match? && Total(Middle(head, t, rest), 0) < 0x8000_0000
    requires t.len - 1 <= x && Total(head, 0) < x < Total(head, 0) + t.len - 1
    requires AllCodable(fmt, rest) && Reachable(head, 0)
    requires forall i | 0 <= i < |Expand(head, [])| :: Expand(head, [])[i] == 0
    requires var z := Compressed(fmt, W8, Middle(head, t, rest));
             && src + |z| + 1 <= |buf| && oend + 1 <= |buf| && oend < 0x100_0000 && buf[src..src + |z|] == z
             && 8 * (src + |z|) + 6408 - Cost(Encode(fmt, rest, t.off)) <= 8 * x
    requires Total(head, 0) <= src
    ensures var z := Compressed(fmt, W8, Middle(head, t, rest));
            var r := Decode(Config(fmt, |z|, Safe(oend)), Store(W8, [], 0, Flat(buf, src, 0, 0)));
            r.Done? && r.status != Ok
  {
    hide Run, Encode, Compressed, Middle, Inv, Expand, Reachable, AllCodable;
    var z := Compressed(fmt, W8, Middle(head, t, rest));
    var d, c := Config(fmt, |z|, Safe(x)), Config(fmt, |z|, Safe(oend));
    var tail := buf[src + |z|..];
    assert buf[src..] == z + tail;
    StopsShort(fmt, head, t, rest, x, tail);
    ExpandLength(head, []);
    var st := Input(W8, z + tail);
    var final := Run(d, State(Top, 1, st)).store;
    assert Write(buf, 0, []) == buf;
    ImageRun(d, buf, src, 0, State(Top, 1, st), OutputOverrun, final);
    ZerosOut(buf, src, final);
    InputInv(fmt, |z|, oend, buf, src);
    SafeRun(c, State(Top, 1, Store(W8, [], 0, Flat(buf, src, 0, 0))), Flat(buf, src, 0, 0));
    StoppedFails(c, d, State(Top, 1, Store(W8, [], 0, Flat(buf, src, 0, 0))), Flat(buf, src, 0, 0), x);
  }
}
