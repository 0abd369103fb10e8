/** The safe decoder on arbitrary input: it always stops, reads no further than one control
    word past the end of the input, and writes no further than one byte past the end of the
    output, even when input and output overlap. */
module Safety {
  import opened Nrv
  import opened Simulation

  /** How many bits the template may read from here before it next tests ilen >= src_len. */
  function Need(ctl: Ctl): nat
  {
    match ctl
    case Top => 2
    case Lit => 0
    case OffBit(_) => 1
    case OffStop(_) => 6
    case OffMore(_) => 2
    case OffByte(_) => 0
    case Low(_) => 5
    case Len(_, _) => 4
    case LenShort(_) => 3
    case LenBit(_, _) => 1
    case LenStop(_, _) => 3
    case Copy(_, _) => 2
    case End => 0
  }

  /** The values of the local variables that can occur at each place. */
  predicate InRange(oend: nat, ctl: Ctl)
  {
    match ctl
    case OffBit(m) => 1 <= m <= 0x200_0005
    case OffStop(m) => 2 <= m <= 0x100_0002
    case OffMore(m) => 2 <= m <= 0x100_0002
    case OffByte(m) => 3 <= m <= 0x100_0002
    case Low(off) => 1 <= off
    case Len(off, low) => 1 <= off && low <= 1
    case LenShort(off) => 1 <= off
    case LenBit(off, n) => 1 <= off && 1 <= n <= oend + 1
    case LenStop(off, n) => 1 <= off && 2 <= n < oend
    case Copy(off, n) => 1 <= off && 1 <= n <= oend + 4
    case _ => true
  }

  /** The memory behind the two pointers. */
  predicate Room(c: Config, w: Width, v: View)
    requires !c.mode.Fast?
  {
    match v
    case Tape(_, _) => false
    case Split(src, _) => |src| >= c.srcLen + w.Bytes()
    case Flat(mem, srcp, dstp, _) =>
      srcp + c.srcLen + w.Bytes() <= |mem| && dstp + c.mode.oend + 1 <= |mem|
  }

  /** In a flat memory, everything but the oend + 1 bytes from dstp on is as it was. */
  predicate Framed(c: Config, v: View, v0: View)
    requires !c.mode.Fast?
  {
    v0.Flat? ==>
      && v.Flat? && v.srcp == v0.srcp && v.dstp == v0.dstp && |v.mem| == |v0.mem|
      && forall i | 0 <= i < |v.mem| && !(v.dstp <= i <= v.dstp + c.mode.oend) :: v.mem[i] == v0.mem[i]
  }

  /** The decoder is still within its input, or has fetched a last control word that lasts
      until the next test. */
  predicate Ahead(c: Config, st: Store, need: nat)
  {
    || st.pos <= c.srcLen
    || (st.pos <= c.srcLen + st.w.Bytes() && need <= |st.queue|)
  }

  predicate Fits(c: Config, st: Store, v0: View)
  {
    && !c.mode.Fast? && c.mode.oend < 0x8000_0000 - 4
    && Room(c, st.w, st.view)
    && Framed(c, st.view, v0)
    && |st.queue| < 8 * st.w.Bytes()
    && st.Olen() <= c.mode.oend + 1
  }

  predicate Inv(c: Config, s: State, v0: View)
  {
    && Fits(c, s.store, v0)
    && Ahead(c, s.store, Need(s.ctl))
    && InRange(c.mode.oend, s.ctl)
    && 1 <= s.last
  }

  lemma SafeNextBit(c: Config, st: Store, v0: View, need: nat)
    requires Fits(c, st, v0) && Ahead(c, st, need) && 1 <= need <= 8
    ensures st.NextBit().Some? && st.NextBit().value.1.view == st.view
    ensures Fits(c, st.NextBit().value.1, v0) && Ahead(c, st.NextBit().value.1, need - 1)
  {
  }

  /** Nothing in the computation of an offset or a length wraps round. */
  predicate NoWrap(c: Config, ctl: Ctl, b: bit)
  {
    match ctl
    case OffBit(m) => m * 2 + b < 0x1_0000_0000
    case OffMore(m) => 0 <= (m - 1) * 2 + b < 0x1_0000_0000
    case OffByte(m) => 0 <= (m - 3) * 0x100 + 0xff < 0x1_0000_0000
    case LenBit(_, n) => n * 2 + b < 0x1_0000_0000
    case LenStop(_, n) => n + 3 < 0x1_0000_0000
    case Copy(_, n) => c.mode.Fast? || c.mode.oend + 1 + n + 1 < 0x1_0000_0000
    case _ => true
  }

  lemma InRangeNoWrap(c: Config, ctl: Ctl, b: bit)
    requires !c.mode.Fast? && c.mode.oend < 0x8000_0000 - 4 && InRange(c.mode.oend, ctl)
    ensures NoWrap(c, ctl, b)
  {
  }

  lemma SafeAfterBit(c: Config, ctl: Ctl, last: nat, b: bit, st: Store)
    requires ctl.ReadsBit() && !c.mode.Fast? && !st.view.Tape? && 1 <= last
    requires NoWrap(c, ctl, b) && InRange(c.mode.oend, ctl) && Ahead(c, st, Need(ctl) - 1)
    requires AfterBit(c, ctl, last, b, st).Go?
    ensures var s := AfterBit(c, ctl, last, b, st).s;
            InRange(c.mode.oend, s.ctl) && Ahead(c, st, Need(s.ctl)) && s.last == last && s.store == st
  {
  }

  lemma SafeBit(c: Config, s: State, v0: View)
    requires Inv(c, s, v0) && s.ctl.ReadsBit()
    ensures !Step(c, s).Crash?
    ensures Step(c, s).Go? ==> Inv(c, Step(c, s).s, v0)
    ensures Step(c, s).Halt? ==> Fits(c, Step(c, s).store, v0)
  {
    SafeNextBit(c, s.store, v0, Need(s.ctl));
    var (b, st) := s.store.NextBit().value;
    InRangeNoWrap(c, s.ctl, b);
    if AfterBit(c, s.ctl, s.last, b, st).Go? {
      SafeAfterBit(c, s.ctl, s.last, b, st);
    }
    hide U32, Room, Framed, InRange, Ahead;
  }

  lemma SafePut(c: Config, st: Store, v0: View, b: byte)
    requires Fits(c, st, v0) && st.Olen() <= c.mode.oend
    ensures st.Put(b).Some? && Fits(c, st.Put(b).value, v0)
    ensures st.Put(b).value.Olen() == st.Olen() + 1
    ensures st.Put(b).value.pos == st.pos && st.Put(b).value.queue == st.queue && st.Put(b).value.w == st.w
  {
  }

  lemma SafeLook(c: Config, st: Store, v0: View, off: nat)
    requires Fits(c, st, v0) && 1 <= off <= st.Olen()
    ensures st.view.Look(off).Some?
  {
  }

  lemma {:induction false} SafeCopy(c: Config, st: Store, v0: View, off: nat, n: nat)
    requires Fits(c, st, v0) && 1 <= off <= st.Olen() && st.Olen() + n <= c.mode.oend + 1
    ensures CopyMatch(st, off, n).Some? && Fits(c, CopyMatch(st, off, n).value, v0)
    ensures CopyMatch(st, off, n).value.pos == st.pos
    ensures CopyMatch(st, off, n).value.queue == st.queue
    ensures CopyMatch(st, off, n).value.w == st.w
    decreases n
  {
    hide Room, Framed, View.Look, Store.Put;
    if n > 0 {
      SafeLook(c, st, v0, off);
      var b := st.view.Look(off).value;
      SafePut(c, st, v0, b);
      SafeCopy(c, st.Put(b).value, v0, off, n - 1);
    }
  }

  lemma SafeTransfer(c: Config, off: nat, n: nat, last: nat, st: Store, v0: View)
    requires Fits(c, st, v0) && 1 <= off && 1 <= n <= c.mode.oend + 5
    ensures var r := Transfer(c, off, n, last, st);
            && !r.Crash? && Fits(c, StoreAfter(r), v0)
            && (r.Go? ==> r.s == State(Top, last, r.s.store) && r.s.store.w == st.w
                          && r.s.store.pos == st.pos && r.s.store.queue == st.queue)
  {
    assert U32(st.Olen() + n) == st.Olen() + n;
    if st.Olen() + n <= c.mode.oend && off <= st.Olen() {
      SafeCopy(c, st, v0, off, CopyCount(n));
    }
  }

  lemma SafeLitStep(c: Config, last: nat, st: Store, v0: View)
    requires Fits(c, st, v0) && Ahead(c, st, 0) && 1 <= last
    ensures var r := LitStep(c, last, st);
            && !r.Crash? && Fits(c, StoreAfter(r), v0) && (r.Go? ==> Inv(c, r.s, v0))
  {
    if st.pos < c.srcLen && st.Olen() + 1 <= c.mode.oend {
      var (x, st') := st.NextByte().value;
      assert Fits(c, st', v0);
      SafePut(c, st', v0, x);
    }
  }

  lemma SafeOffByteStep(c: Config, m: nat, last: nat, st: Store, v0: View)
    requires Fits(c, st, v0) && Ahead(c, st, 0) && InRange(c.mode.oend, OffByte(m)) && 1 <= last
    ensures var r := OffByteStep(c, m, last, st);
            && !r.Crash? && Fits(c, StoreAfter(r), v0) && (r.Go? ==> Inv(c, r.s, v0))
  {
    if st.pos < c.srcLen {
      var (x, st') := st.NextByte().value;
      assert Fits(c, st', v0);
      assert U32((m - 3) * 0x100 + x) == (m - 3) * 0x100 + x;
    }
  }

  lemma SafeStep(c: Config, s: State, v0: View)
    requires Inv(c, s, v0)
    ensures !Step(c, s).Crash?
    ensures Step(c, s).Go? ==> Inv(c, Step(c, s).s, v0)
    ensures Step(c, s).Halt? ==> Fits(c, Step(c, s).store, v0)
  {
    InRangeNoWrap(c, s.ctl, 0);
    if s.ctl.ReadsBit() {
      SafeBit(c, s, v0);
    } else if s.ctl.Copy? {
      SafeTransfer(c, s.ctl.off, FinalLen(c, s.ctl.off, s.ctl.n), s.last, s.store, v0);
    } else if s.ctl.Lit? {
      SafeLitStep(c, s.last, s.store, v0);
    } else if s.ctl.OffByte? {
      SafeOffByteStep(c, s.ctl.m, s.last, s.store, v0);
    }
    hide Room, Framed;
  }

  lemma {:induction false} SafeRun(c: Config, s: State, v0: View)
    requires Inv(c, s, v0)
    ensures Run(c, s).Done? && Fits(c, Run(c, s).store, v0)
    decreases s.store.Fuel(), Rank(s.ctl)
  {
    SafeStep(c, s, v0);
    if Step(c, s).Go? {
      SafeRun(c, Step(c, s).s, v0);
    }
  }

  /** The main result, for any input bytes and any two pointers into one memory: decoding
      ends with a status, at most oend + 1 bytes are produced, and no byte of the memory
      outside dst[0..oend] changes. The memory need only hold one control word more than
      the input, and one byte more than the output. */
  lemma SafeTotal(fmt: Format, w: Width, mem: seq<byte>, srcp: nat, srcLen: nat, dstp: nat, oend: nat)
    requires oend < 0x8000_0000 - 4
    requires srcp + srcLen + w.Bytes() <= |mem| && dstp + oend + 1 <= |mem|
    ensures var r := Decode(Config(fmt, srcLen, Safe(oend)), Store(w, [], 0, Flat(mem, srcp, dstp, 0)));
            && r.Done? && r.store.view.Flat? && r.store.Olen() <= oend + 1
            && |r.store.view.mem| == |mem|
            && forall i | 0 <= i < |mem| && !(dstp <= i <= dstp + oend) :: r.store.view.mem[i] == mem[i]
  {
    var c := Config(fmt, srcLen, Safe(oend));
    var v := Flat(mem, srcp, dstp, 0);
    SafeRun(c, State(Top, 1, Store(w, [], 0, v)), v);
  }

  /** The same for a separate output, which is never looked at before its first byte. */
  lemma SafeSplit(fmt: Format, w: Width, src: seq<byte>, srcLen: nat, oend: nat)
    requires oend < 0x8000_0000 - 4 && srcLen + w.Bytes() <= |src|
    ensures var r := Decode(Config(fmt, srcLen, Safe(oend)), Store(w, [], 0, Split(src, [])));
            r.Done? && r.store.Olen() <= oend + 1
  {
    var c := Config(fmt, srcLen, Safe(oend));
    var v := Split(src, []);
    SafeRun(c, State(Top, 1, Store(w, [], 0, v)), v);
  }

  predicate AllOnes(q: seq<bit>) { forall i | 0 <= i < |q| :: q[i] == 1 }

  lemma {:induction false} OnesAreBits(n: nat)
    ensures AllOnes(Bits(Pow2(n) - 1, n))
  {
    if n > 0 {
      OnesAreBits(n - 1);
      assert (Pow2(n) - 1) / 2 == Pow2(n - 1) - 1 && (Pow2(n) - 1) % 2 == 1;
      assert Bits(Pow2(n) - 1, n) == Bits(Pow2(n - 1) - 1, n - 1) + [1];
    }
  }

  lemma OnesAreValue(w: Width, s: seq<byte>)
    requires |s| == w.Bytes() && forall i | 0 <= i < |s| :: s[i] == 0xff
    ensures LittleEndian(s) == Pow2(8 * w.Bytes()) - 1
  {
    assert Pow2(8) == 0x100;
    assert Pow2(16) == 0x100 * Pow2(8);
    assert Pow2(24) == 0x100 * Pow2(16);
    assert Pow2(32) == 0x100 * Pow2(24);
    assert LittleEndian(s[|s|..]) == 0;
    if w.W8? {
      assert LittleEndian(s) == 0xff;
    } else if w.W16? {
      assert LittleEndian(s[1..]) == 0xff;
    } else {
      assert s[1..][1..][1..] == [0xff];
      assert LittleEndian(s[1..][1..][1..]) == 0xff;
      assert LittleEndian(s[1..][1..]) == 0xffff;
    }
  }

  /** A literal for each bit that is left, and then the end of the input. */
  lemma {:induction false} LiteralsToTheEnd(c: Config, last: nat, st: Store)
    requires c.mode.Safe? && !st.view.Tape? && AllOnes(st.queue)
    requires st.pos + |st.queue| == c.srcLen <= |st.view.Source()| < c.srcLen + st.w.Bytes()
    requires st.Olen() + |st.queue| <= c.mode.oend
    ensures Run(c, State(Top, last, st)) == Fault
    decreases |st.queue|
  {
    if st.queue == [] {
      assert st.NextBit() == None;
    } else {
      var st1 := st.(queue := st.queue[1..]);
      assert Step(c, State(Top, last, st)) == Go(State(Lit, last, st1));
      var st2 := st1.(pos := st.pos + 1);
      var b := st.view.Source()[st.pos];
      assert st1.NextByte() == Some((b, st2));
      if st2.Put(b).Some? {
        LiteralsToTheEnd(c, last, st2.Put(b).value);
      }
    }
  }

  /** The room that SafeTotal and SafeSplit ask for is the least: with any byte less of it, an
      input of one control word of ones and a byte for each of them is read past its end, at
      the first bit behind it, although all of it is read and fits into the output. */
  lemma SafeTotalIsSharp(fmt: Format, w: Width, v: View, oend: nat)
    requires !v.Tape? && v.Olen() == 0 && oend >= 8 * w.Bytes()
    requires 9 * w.Bytes() <= |v.Source()| < 10 * w.Bytes()
    requires forall i | 0 <= i < w.Bytes() :: v.Source()[i] == 0xff
    ensures Decode(Config(fmt, 9 * w.Bytes(), Safe(oend)), Store(w, [], 0, v)) == Fault
  {
    hide Bits, LittleEndian, Pow2, AllOnes, AfterBit;
    var k := w.Bytes();
    var c := Config(fmt, 9 * k, Safe(oend));
    var st := Store(w, [], 0, v);
    var word := v.Source()[0..k];
    OnesAreValue(w, word);
    OnesAreBits(8 * k);
    var q := Bits(LittleEndian(word), 8 * k);
    var st1 := st.(queue := q, pos := k);
    assert st.NextBit() == Some((q[0], st1.(queue := q[1..])));
    assert Step(c, State(Top, 1, st)) == Step(c, State(Top, 1, st1));
    LiteralsToTheEnd(c, 1, st1);
  }

  /** Under the limits of SAFE, one code value and one byte make the end marker. */
  lemma EndMarkerIsUnique(c: Config, m: nat, last: nat, x: byte, st: Store, oend: nat)
    requires InRange(oend, OffByte(m))
    ensures AfterOffByte(c, m, last, x, st).Go?
    ensures AfterOffByte(c, m, last, x, st).s.ctl.End? <==> m == 0x100_0002 && x == 0xff
  {
    assert U32((m - 3) * 0x100 + x) == (m - 3) * 0x100 + x;
  }
}
