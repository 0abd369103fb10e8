/** The decompressors as the C template computes them, on one memory that holds input and
    output, and proved to do what the small-step machine does. */
module Decoder {
  import opened Nrv
  import opened BitBuffer
  import opened Simulation

  /** The arguments of one call: pointers, lengths, and which instance of the template. */
  datatype Job = Job(fmt: Format, w: Width, mode: Mode, src: nat, srcLen: nat, dst: nat) {
    function Cfg(): Config { Config(fmt, srcLen, mode) }
    predicate Safe() { !mode.Fast? }
  }

  /** The local variables that live across the whole loop. */
  datatype Regs = Regs(bb: uint32, bc: nat, ilen: nat, olen: nat, last: nat)

  ghost function At(j: Job, v: View, r: Regs, q: seq<bit>): Store { Store(j.w, q, r.ilen, v) }

  /** The input of v is the memory from the input pointer on. */
  ghost predicate Sees(j: Job, mem: seq<byte>, v: View)
  {
    !v.Tape? && v.Source() == if j.src <= |mem| then mem[j.src..] else []
  }

  /** Input and output in one memory. */
  ghost function Both(j: Job, mem: seq<byte>, r: Regs): View { Flat(mem, j.src, j.dst, r.olen) }

  /** What the rest of the run gives from control point ctl. */
  ghost function Rest(j: Job, ctl: Ctl, v: View, r: Regs, q: seq<bit>): Outcome
  {
    Run(j.Cfg(), State(ctl, r.last, At(j, v, r, q)))
  }

  /** The run is over, with this status and view. */
  ghost predicate Ends(o: Outcome, status: Status, v: View)
  {
    o.Done? && o.status == status && o.store.view == v
  }

  /** A run that does not fault can read the bit it wants, and goes on behind it. */
  lemma BitRuns(j: Job, ctl: Ctl, v: View, r: Regs, q: seq<bit>)
    requires ctl.ReadsBit() && Rest(j, ctl, v, r, q).Done?
    ensures var st := At(j, v, r, q);
            && st.NextBit().Some?
            && var (b, st') := st.NextBit().value;
               var next := AfterBit(j.Cfg(), ctl, r.last, b, st');
               Rest(j, ctl, v, r, q) == if next.Go? then Run(j.Cfg(), next.s) else Done(next.status, st')
  {
    var (b, st') := At(j, v, r, q).NextBit().value;
    assert !AfterBit(j.Cfg(), ctl, r.last, b, st').Crash?;
  }

  /** The bytes that a control word is made of. */
  lemma WordBytesAt(j: Job, mem: seq<byte>, v: View, r: Regs, q: seq<bit>, k: nat)
    requires Sees(j, mem, v)
    requires q == [] && At(j, v, r, q).NextBit().Some? && k == j.w.Bytes()
    ensures var p := j.src + r.ilen;
            && p + k <= |mem|
            && v.Source()[r.ilen..r.ilen + k] == mem[p..p + k]
  {
    assert mem[j.src..][r.ilen..r.ilen + k] == mem[j.src + r.ilen..j.src + r.ilen + k];
  }

  function HalfWord(a: byte, b: byte): (v: nat)
    ensures v < 0x1_0000
  {
    (a as int) + (b as int) * 0x100
  }

  function FullWord(a: byte, b: byte, c: byte, d: byte): uint32
  {
    HalfWord(a, b) + HalfWord(c, d) * 0x1_0000
  }

  lemma LittleEndianOf(s: seq<byte>)
    ensures |s| == 1 ==> LittleEndian(s) == s[0]
    ensures |s| == 2 ==> LittleEndian(s) == HalfWord(s[0], s[1])
    ensures |s| == 4 ==> LittleEndian(s) == FullWord(s[0], s[1], s[2], s[3])
  {
    if |s| == 4 {
      assert s[1..][1..] == s[2..] && s[2..][1..] == s[3..] && s[3..][1..] == [];
    }
  }

  /** getbit_8(bb, src, ilen). */
  method GetByteBit(j: Job, mem: array<byte>, ghost v: View, r: Regs, ghost q: seq<bit>)
      returns (b: bit, r': Regs, ghost q': seq<bit>)
    requires Sees(j, mem[..], v) && j.w.W8? && Refines(W8, r.bb, 0, q) && At(j, v, r, q).NextBit().Some?
    ensures At(j, v, r, q).NextBit() == Some((b, At(j, v, r', q')))
    ensures Refines(W8, r'.bb, 0, q') && r'.olen == r.olen && r'.last == r.last
  {
    hide Bits, LittleEndian, Refines;
    var word: byte := 0;
    GetBit8Refines(r.bb, q, 0);
    if r.bb % 0x80 == 0 {
      WordBytesAt(j, mem[..], v, r, q, 1);
      word := mem[j.src + r.ilen];
      LittleEndianOf([word]);
      assert mem[..][j.src + r.ilen..j.src + r.ilen + 1] == [word];
    }
    GetBit8Refines(r.bb, q, word);
    var g := GetBit8(r.bb, word);
    b, r' := g.b, r.(bb := g.bb, ilen := r.ilen + if g.fetched then 1 else 0);
    q' := (if q == [] then Bits(word, 8) else q)[1..];
  }

  /** getbit_le16(bb, src, ilen). */
  method GetHalfBit(j: Job, mem: array<byte>, ghost v: View, r: Regs, ghost q: seq<bit>)
      returns (b: bit, r': Regs, ghost q': seq<bit>)
    requires Sees(j, mem[..], v) && j.w.W16? && Refines(W16, r.bb, 0, q) && At(j, v, r, q).NextBit().Some?
    ensures At(j, v, r, q).NextBit() == Some((b, At(j, v, r', q')))
    ensures Refines(W16, r'.bb, 0, q') && r'.olen == r.olen && r'.last == r.last
  {
    var word: nat := 0;
    GetBit16Refines(r.bb, q, 0);
    if U32(r.bb * 2) % 0x1_0000 == 0 {
      var p := j.src + r.ilen;
      WordBytesAt(j, mem[..], v, r, q, 2);
      word := HalfWord(mem[p], mem[p + 1]);
      LittleEndianOf(mem[..][p..p + 2]);
    }
    GetBit16Refines(r.bb, q, word);
    var g := GetBit16(r.bb, word);
    b, r' := g.b, r.(bb := g.bb, ilen := r.ilen + if g.fetched then 2 else 0);
    q' := (if q == [] then Bits(word, 16) else q)[1..];
  }

  /** getbit_le32(bb, bc, src, ilen). */
  method GetWordBit(j: Job, mem: array<byte>, ghost v: View, r: Regs, ghost q: seq<bit>)
      returns (b: bit, r': Regs, ghost q': seq<bit>)
    requires Sees(j, mem[..], v) && j.w.W32? && Refines(W32, r.bb, r.bc, q) && At(j, v, r, q).NextBit().Some?
    ensures At(j, v, r, q).NextBit() == Some((b, At(j, v, r', q')))
    ensures Refines(W32, r'.bb, r'.bc, q') && r'.olen == r.olen && r'.last == r.last
  {
    var word: uint32 := 0;
    if r.bc == 0 {
      var p := j.src + r.ilen;
      WordBytesAt(j, mem[..], v, r, q, 4);
      word := FullWord(mem[p], mem[p + 1], mem[p + 2], mem[p + 3]);
      LittleEndianOf(mem[..][p..p + 4]);
    }
    GetBit32Refines(r.bb, r.bc, q, word);
    var g := GetBit32(r.bb, r.bc, word);
    b, r' := g.b, r.(bb := g.bb, bc := g.bc, ilen := r.ilen + if g.fetched then 4 else 0);
    q' := (if q == [] then Bits(word, 32) else q)[1..];
  }

  /** getbit(bb) of one instance of the template, at a place of a run that does not fault. */
  method GetBit(j: Job, mem: array<byte>, ghost v: View, r: Regs, ghost q: seq<bit>)
      returns (b: bit, r': Regs, ghost q': seq<bit>)
    requires Sees(j, mem[..], v) && Refines(j.w, r.bb, r.bc, q) && At(j, v, r, q).NextBit().Some?
    ensures At(j, v, r, q).NextBit() == Some((b, At(j, v, r', q')))
    ensures Refines(j.w, r'.bb, r'.bc, q') && r'.olen == r.olen && r'.last == r.last
  {
    match j.w
    case W8 => b, r', q' := GetByteBit(j, mem, v, r, q);
    case W16 => b, r', q' := GetHalfBit(j, mem, v, r, q);
    case W32 => b, r', q' := GetWordBit(j, mem, v, r, q);
  }

  /** What the run gives when b has been read at ctl. */
  ghost function After(j: Job, ctl: Ctl, b: bit, v: View, r: Regs, q: seq<bit>): Outcome
    requires ctl.ReadsBit()
  {
    match AfterBit(j.Cfg(), ctl, r.last, b, At(j, v, r, q))
    case Crash => Fault
    case Halt(status, st) => Done(status, st)
    case Go(s) => Rest(j, s.ctl, v, r, q)
  }

  /** Reads a bit at control point ctl. */
  method ReadBit(j: Job, mem: array<byte>, ghost v: View, ghost ctl: Ctl, r: Regs, ghost q: seq<bit>)
      returns (b: bit, r': Regs, ghost q': seq<bit>)
    requires Sees(j, mem[..], v) && ctl.ReadsBit() && Refines(j.w, r.bb, r.bc, q) && Rest(j, ctl, v, r, q).Done?
    ensures Refines(j.w, r'.bb, r'.bc, q') && r'.olen == r.olen && r'.last == r.last
    ensures At(j, v, r', q').Fuel() < At(j, v, r, q).Fuel()
    ensures Rest(j, ctl, v, r, q) == After(j, ctl, b, v, r', q')
  {
    BitRuns(j, ctl, v, r, q);
    b, r', q' := GetBit(j, mem, v, r, q);
    AfterBitState(j.Cfg(), ctl, r.last, b, At(j, v, r', q'));
    hide Run;
  }

  lemma AfterBitState(c: Config, ctl: Ctl, last: nat, b: bit, st: Store)
    requires ctl.ReadsBit()
    ensures AfterBit(c, ctl, last, b, st).Go? ==>
              AfterBit(c, ctl, last, b, st).s == State(AfterBit(c, ctl, last, b, st).s.ctl, last, st)
  {
  }

  /** Input that the checks of SAFE stop at. */
  predicate Overrun(j: Job, r: Regs) { j.Safe() && r.ilen >= j.srcLen }

  /** Lengths that pass the checks then stay within 32 bits. */
  predicate Small(j: Job) { j.Safe() && j.mode.oend < 0x8000_0000 - 4 }

  function AfterOffset(m: nat, last: nat): Ctl { if m == 2 then Low(last) else OffByte(m) }

  /** The offset code, up to the break. */
  method DecodeOffset(j: Job, mem: array<byte>, ghost v: View, r0: Regs, ghost q0: seq<bit>)
      returns (halt: Option<Status>, m_off: nat, r: Regs, ghost q: seq<bit>)
    requires Sees(j, mem[..], v) && Refines(j.w, r0.bb, r0.bc, q0) && Rest(j, OffBit(1), v, r0, q0).Done?
    ensures r.olen == r0.olen && r.last == r0.last && Refines(j.w, r.bb, r.bc, q)
    ensures At(j, v, r, q).Fuel() < At(j, v, r0, q0).Fuel()
    ensures halt.Some? ==> Ends(Rest(j, OffBit(1), v, r0, q0), halt.value, v)
    ensures halt.None? ==>
              Rest(j, OffBit(1), v, r0, q0) == Rest(j, AfterOffset(m_off, r.last), v, r, q)
  {
    hide Run;
    var b: bit;
    halt, m_off, r, q := None, 1, r0, q0;
    while true
      invariant r.olen == r0.olen && r.last == r0.last && Refines(j.w, r.bb, r.bc, q)
      invariant Rest(j, OffBit(m_off), v, r, q) == Rest(j, OffBit(1), v, r0, q0)
      invariant At(j, v, r, q).Fuel() <= At(j, v, r0, q0).Fuel()
      decreases At(j, v, r, q).Fuel()
    {
      b, r, q := ReadBit(j, mem, v, OffBit(m_off), r, q);
      m_off := U32(m_off * 2 + b);
      if Overrun(j, r) {
        halt := Some(InputOverrun);
        return;
      }
      if j.Safe() && m_off > 0xffffff + 3 {
        halt := Some(LookbehindOverrun);
        return;
      }
      b, r, q := ReadBit(j, mem, v, OffStop(m_off), r, q);
      if b == 1 {
        return;
      }
      if !j.fmt.Nrv2b? {
        b, r, q := ReadBit(j, mem, v, OffMore(m_off), r, q);
        m_off := U32((m_off - 1) * 2 + b);
      }
    }
  }

  /** The rest of the length code, after its first bit. */
  method DecodeLength(j: Job, mem: array<byte>, ghost v: View, ghost off: nat, low: nat, r0: Regs, ghost q0: seq<bit>)
      returns (halt: Option<Status>, m_len: nat, r: Regs, ghost q: seq<bit>)
    requires Sees(j, mem[..], v) && Refines(j.w, r0.bb, r0.bc, q0) && Rest(j, Len(off, low), v, r0, q0).Done?
    ensures r.olen == r0.olen && r.last == r0.last && Refines(j.w, r.bb, r.bc, q)
    ensures At(j, v, r, q).Fuel() < At(j, v, r0, q0).Fuel()
    ensures halt.Some? ==> Ends(Rest(j, Len(off, low), v, r0, q0), halt.value, v)
    ensures halt.None? ==>
              Rest(j, Len(off, low), v, r0, q0) == Rest(j, Copy(off, m_len), v, r, q)
    ensures halt.None? && low <= 1 && Small(j) ==> 1 <= m_len <= j.mode.oend + 4
  {
    hide Run;
    var b: bit;
    halt := None;
    b, r, q := ReadBit(j, mem, v, Len(off, low), r0, q0);
    if j.fmt.Nrv2e? {
      if low != 0 {
        m_len := 1 + b;
        return;
      }
      if b == 1 {
        b, r, q := ReadBit(j, mem, v, LenShort(off), r, q);
        m_len := 3 + b;
        return;
      }
    } else {
      m_len := U32(low * 2 + b);
      if m_len != 0 {
        return;
      }
    }
    halt, m_len, r, q := DecodeLongLength(j, mem, v, off, r, q);
  }

  /** The loop for lengths that the short codes do not cover. */
  method DecodeLongLength(j: Job, mem: array<byte>, ghost v: View, ghost off: nat, r0: Regs, ghost q0: seq<bit>)
      returns (halt: Option<Status>, m_len: nat, r: Regs, ghost q: seq<bit>)
    requires Sees(j, mem[..], v) && Refines(j.w, r0.bb, r0.bc, q0) && Rest(j, LenBit(off, 1), v, r0, q0).Done?
    ensures r.olen == r0.olen && r.last == r0.last && Refines(j.w, r.bb, r.bc, q)
    ensures At(j, v, r, q).Fuel() < At(j, v, r0, q0).Fuel()
    ensures halt.Some? ==> Ends(Rest(j, LenBit(off, 1), v, r0, q0), halt.value, v)
    ensures halt.None? ==>
              Rest(j, LenBit(off, 1), v, r0, q0) == Rest(j, Copy(off, m_len), v, r, q)
    ensures halt.None? && Small(j) ==> 1 <= m_len <= j.mode.oend + 4
  {
    hide Run, Refines;
    var b: bit;
    halt, m_len, r, q := None, 1, r0, q0;
    while true
      invariant r.olen == r0.olen && r.last == r0.last && Refines(j.w, r.bb, r.bc, q)
      invariant Rest(j, LenBit(off, m_len), v, r, q) == Rest(j, LenBit(off, 1), v, r0, q0)
      invariant Small(j) ==> 1 <= m_len <= j.mode.oend + 1
      invariant At(j, v, r, q).Fuel() <= At(j, v, r0, q0).Fuel()
      decreases At(j, v, r, q).Fuel()
    {
      b, r, q := ReadBit(j, mem, v, LenBit(off, m_len), r, q);
      m_len := U32(m_len * 2 + b);
      if Overrun(j, r) {
        halt := Some(InputOverrun);
        return;
      }
      if j.Safe() && m_len >= j.mode.oend {
        halt := Some(OutputOverrun);
        return;
      }
      b, r, q := ReadBit(j, mem, v, LenStop(off, m_len), r, q);
      if b == 1 {
        m_len := U32(m_len + if j.fmt.Nrv2e? then 3 else 2);
        return;
      }
    }
  }

  /** The offset byte of a run that does not fault. */
  lemma OffByteRuns(j: Job, mem: seq<byte>, v: View, r: Regs, q: seq<bit>, m: nat)
    requires Sees(j, mem, v) && Rest(j, OffByte(m), v, r, q).Done?
    ensures if Overrun(j, r) then Ends(Rest(j, OffByte(m), v, r, q), InputOverrun, v)
            else
              && j.src + r.ilen < |mem|
              && var r' := r.(ilen := r.ilen + 1);
                 var raw := U32((m - 3) * 0x100 + mem[j.src + r.ilen]);
                 && At(j, v, r', q).Fuel() < At(j, v, r, q).Fuel()
                 && Rest(j, OffByte(m), v, r, q) ==
                    if raw == 0xffff_ffff then Rest(j, End, v, r', q)
                    else if j.fmt.Nrv2b? then Rest(j, Low(raw + 1), v, r'.(last := raw + 1), q)
                    else Rest(j, Len(raw / 2 + 1, 1 - raw % 2), v, r'.(last := raw / 2 + 1), q)
  {
    var st := At(j, v, r, q);
    assert Step(j.Cfg(), State(OffByte(m), r.last, st)) == OffByteStep(j.Cfg(), m, r.last, st);
  }

  /** m_off = (m_off-3)*256 + src[ilen++], and what follows from it. */
  method OffsetByte(j: Job, mem: array<byte>, ghost v: View, m: nat, r0: Regs, ghost q: seq<bit>)
      returns (halt: Option<Status>, end: bool, m_off: nat, m_len: nat, r: Regs)
    requires Sees(j, mem[..], v) && Rest(j, OffByte(m), v, r0, q).Done?
    ensures r.olen == r0.olen && r.bb == r0.bb && r.bc == r0.bc && m_len <= 1
    ensures At(j, v, r, q).Fuel() <= At(j, v, r0, q).Fuel()
    ensures halt.Some? ==> Ends(Rest(j, OffByte(m), v, r0, q), halt.value, v)
    ensures halt.None? && end ==> Rest(j, OffByte(m), v, r0, q) == Rest(j, End, v, r, q)
    ensures halt.None? && !end ==>
              r.last == m_off &&
              Rest(j, OffByte(m), v, r0, q) == Rest(j, if j.fmt.Nrv2b? then Low(m_off) else Len(m_off, m_len), v, r, q)
  {
    hide Run;
    halt, end, m_off, m_len, r := None, false, 0, 0, r0;
    OffByteRuns(j, mem[..], v, r, q, m);
    if Overrun(j, r) {
      halt := Some(InputOverrun);
      return;
    }
    m_off := U32((m - 3) * 0x100 + mem[j.src + r.ilen]);
    r := r.(ilen := r.ilen + 1);
    if m_off == 0xffff_ffff {
      end := true;
      return;
    }
    if !j.fmt.Nrv2b? {
      m_len := 1 - m_off % 2;
      m_off := m_off / 2;
    }
    m_off := m_off + 1;
    r := r.(last := m_off);
  }

  /** An offset and, for NRV2D and NRV2E, the first bit of the length; for NRV2B, that bit
      after the offset. */
  method DecodeMatch(j: Job, mem: array<byte>, ghost v: View, r0: Regs, ghost q0: seq<bit>)
      returns (halt: Option<Status>, end: bool, m_off: nat, m_len: nat, r: Regs, ghost q: seq<bit>)
    requires Sees(j, mem[..], v) && Refines(j.w, r0.bb, r0.bc, q0) && Rest(j, OffBit(1), v, r0, q0).Done?
    ensures r.olen == r0.olen && Refines(j.w, r.bb, r.bc, q) && m_len <= 1
    ensures At(j, v, r, q).Fuel() < At(j, v, r0, q0).Fuel()
    ensures halt.Some? ==> Ends(Rest(j, OffBit(1), v, r0, q0), halt.value, v)
    ensures halt.None? && end ==> Rest(j, OffBit(1), v, r0, q0) == Rest(j, End, v, r, q)
    ensures halt.None? && !end ==> Rest(j, OffBit(1), v, r0, q0) == Rest(j, Len(m_off, m_len), v, r, q)
  {
    hide Run;
    end, m_len := false, 0;
    halt, m_off, r, q := DecodeOffset(j, mem, v, r0, q0);
    if halt.Some? {
      return;
    }
    if m_off == 2 {
      m_off := r.last;
      if !j.fmt.Nrv2b? {
        m_len, r, q := ReadBit(j, mem, v, Low(m_off), r, q);
      }
    } else {
      halt, end, m_off, m_len, r := OffsetByte(j, mem, v, m_off, r, q);
      if halt.Some? || end {
        return;
      }
    }
    if j.fmt.Nrv2b? {
      m_len, r, q := ReadBit(j, mem, v, Low(m_off), r, q);
    }
  }

  lemma EndRuns(j: Job, v: View, r: Regs, q: seq<bit>)
    requires !v.Tape?
    ensures Rest(j, End, v, r, q) == Done(FinalStatus(j, r), At(j, v, r, q))
  {
  }

  function FinalStatus(j: Job, r: Regs): Status
  {
    if r.ilen == j.srcLen then Ok else if r.ilen < j.srcLen then InputNotConsumed else InputOverrun
  }

  // ------------------------------------------------- the instances that write output

  /** A literal that does not fault: one byte moves from input to output. */
  lemma LitRuns(j: Job, mem: seq<byte>, r: Regs, q: seq<bit>)
    requires !j.mode.Overlap? && Rest(j, Lit, Both(j, mem, r), r, q).Done?
    ensures var o := Rest(j, Lit, Both(j, mem, r), r, q);
            if Overrun(j, r) then Ends(o, InputOverrun, Both(j, mem, r))
            else if j.Safe() && r.olen >= j.mode.oend then Ends(o, OutputOverrun, Both(j, mem, r))
            else
              && j.src + r.ilen < |mem| && j.dst + r.olen < |mem|
              && var r' := r.(ilen := r.ilen + 1, olen := r.olen + 1);
                 var mem' := mem[j.dst + r.olen := mem[j.src + r.ilen]];
                 && o == Rest(j, Top, Both(j, mem', r'), r', q)
                 && At(j, Both(j, mem', r'), r', q).Fuel() < At(j, Both(j, mem, r), r, q).Fuel()
  {
    var st := At(j, Both(j, mem, r), r, q);
    assert Step(j.Cfg(), State(Lit, r.last, st)) == LitStep(j.Cfg(), r.last, st);
  }

  /** The literal loop, up to the zero bit that ends it. */
  method Literals(j: Job, mem: array<byte>, r0: Regs, ghost q0: seq<bit>)
      returns (halt: Option<Status>, r: Regs, ghost q: seq<bit>)
    requires !j.mode.Overlap? && Refines(j.w, r0.bb, r0.bc, q0)
    requires Rest(j, Top, Both(j, mem[..], r0), r0, q0).Done?
    modifies mem
    ensures r.last == r0.last && Refines(j.w, r.bb, r.bc, q)
    ensures At(j, Both(j, mem[..], r), r, q).Fuel() < At(j, Both(j, old(mem[..]), r0), r0, q0).Fuel()
    ensures halt.Some? ==> Ends(Rest(j, Top, Both(j, old(mem[..]), r0), r0, q0), halt.value, Both(j, mem[..], r))
    ensures halt.None? ==>
              Rest(j, Top, Both(j, old(mem[..]), r0), r0, q0) == Rest(j, OffBit(1), Both(j, mem[..], r), r, q)
  {
    hide Run;
    var b: bit;
    ghost var goal := Rest(j, Top, Both(j, mem[..], r0), r0, q0);
    halt := None;
    b, r, q := ReadBit(j, mem, Both(j, mem[..], r0), Top, r0, q0);
    while b == 1
      invariant r.last == r0.last && Refines(j.w, r.bb, r.bc, q)
      invariant Rest(j, if b == 1 then Lit else OffBit(1), Both(j, mem[..], r), r, q) == goal
      invariant At(j, Both(j, mem[..], r), r, q).Fuel() < At(j, Both(j, old(mem[..]), r0), r0, q0).Fuel()
      decreases At(j, Both(j, mem[..], r), r, q).Fuel()
    {
      LitRuns(j, mem[..], r, q);
      if Overrun(j, r) {
        halt := Some(InputOverrun);
        return;
      }
      if j.Safe() && r.olen >= j.mode.oend {
        halt := Some(OutputOverrun);
        return;
      }
      mem[j.dst + r.olen] := mem[j.src + r.ilen];
      r := r.(olen := r.olen + 1, ilen := r.ilen + 1);
      b, r, q := ReadBit(j, mem, Both(j, mem[..], r), Top, r, q);
    }
  }

  /** The bytes that the copy loop has still to write when it stands at m_len. */
  function Left(m_len: nat): nat { if m_len == 0 then 0x1_0000_0000 else m_len }

  ghost function Stored(j: Job, mem: seq<byte>, r: Regs, q: seq<bit>): Store { At(j, Both(j, mem, r), r, q) }

  /** One turn of the copy. */
  lemma CopyTurn(j: Job, mem: seq<byte>, r: Regs, q: seq<bit>, off: nat, n: nat)
    requires n > 0 && CopyMatch(Stored(j, mem, r, q), off, n).Some?
    ensures var from := j.dst + r.olen - off;
            && 0 <= from < |mem| && j.dst + r.olen < |mem|
            && CopyMatch(Stored(j, mem, r, q), off, n)
               == CopyMatch(Stored(j, mem[j.dst + r.olen := mem[from]], r.(olen := r.olen + 1), q), off, n - 1)
  {
    var st := Stored(j, mem, r, q);
    var from := j.dst + r.olen - off;
    assert st.view.Look(off) == Some(mem[from]);
    assert st.Put(mem[from]) == Some(Stored(j, mem[j.dst + r.olen := mem[from]], r.(olen := r.olen + 1), q));
  }

  lemma CopyNothing(st: Store, off: nat)
    ensures CopyMatch(st, off, 0) == Some(st)
  {
  }

  /** m_pos = dst + olen - m_off, and the do loop that copies m_len + 1 bytes upwards. */
  method CopyBytes(j: Job, mem: array<byte>, off: nat, n: nat, r0: Regs, ghost q: seq<bit>) returns (r: Regs)
    requires n < 0x1_0000_0000 && CopyMatch(Stored(j, mem[..], r0, q), off, CopyCount(n)).Some?
    modifies mem
    ensures r == r0.(olen := r.olen)
    ensures CopyMatch(Stored(j, old(mem[..]), r0, q), off, CopyCount(n)) == Some(Stored(j, mem[..], r, q))
  {
    hide CopyMatch;
    ghost var goal := CopyMatch(Stored(j, mem[..], r0, q), off, CopyCount(n));
    r := r0;
    CopyTurn(j, mem[..], r, q, off, CopyCount(n));
    var m_pos := j.dst + r.olen - off;
    mem[j.dst + r.olen] := mem[m_pos];
    r, m_pos := r.(olen := r.olen + 1), m_pos + 1;
    var m_len: int := n;
    while true
      invariant r == r0.(olen := r.olen) && m_pos == j.dst + r.olen - off && 0 <= m_len < 0x1_0000_0000
      invariant CopyMatch(Stored(j, mem[..], r, q), off, Left(m_len)) == goal
      decreases Left(m_len)
    {
      CopyTurn(j, mem[..], r, q, off, Left(m_len));
      mem[j.dst + r.olen] := mem[m_pos];
      r, m_pos := r.(olen := r.olen + 1), m_pos + 1;
      m_len := U32(m_len - 1);
      if m_len == 0 {
        CopyNothing(Stored(j, mem[..], r, q), off);
        return;
      }
    }
  }

  /** A match that does not fault: the checks, then the copy. */
  lemma CopyRuns(j: Job, v: View, r: Regs, q: seq<bit>, off: nat, n: nat)
    requires v.Olen() == r.olen && Rest(j, Copy(off, n), v, r, q).Done?
    ensures var n' := FinalLen(j.Cfg(), off, n);
            var o := Rest(j, Copy(off, n), v, r, q);
            if j.Safe() && U32(r.olen + n') > j.mode.oend then Ends(o, OutputOverrun, v)
            else if j.Safe() && off > r.olen then Ends(o, LookbehindOverrun, v)
            else
              && CopyMatch(At(j, v, r, q), off, CopyCount(n')).Some?
              && var st := CopyMatch(At(j, v, r, q), off, CopyCount(n')).value;
                 if j.Cfg().Clobbers(st) then Ends(o, OverlapOverrun, st.view)
                 else o == Run(j.Cfg(), State(Top, r.last, st))
  {
    var n' := FinalLen(j.Cfg(), off, n);
    assert Step(j.Cfg(), State(Copy(off, n), r.last, At(j, v, r, q)))
        == Transfer(j.Cfg(), off, n', r.last, At(j, v, r, q));
    hide CopyMatch;
  }

  ghost function Start(j: Job, v: View): Store { Store(j.w, [], 0, v) }

  /** ucl_nrv2b/2d/2e_decompress_8/le16/le32, fast or safe. Input and output may lie in any
      way in the memory, as long as the run stays inside it. */
  method Decompress(j: Job, mem: array<byte>) returns (status: Status, dstLen: nat)
    requires !j.mode.Overlap? && Decode(j.Cfg(), Start(j, Flat(mem[..], j.src, j.dst, 0))).Done?
    modifies mem
    ensures Ends(Decode(j.Cfg(), Start(j, Flat(old(mem[..]), j.src, j.dst, 0))),
                 status, Flat(mem[..], j.src, j.dst, dstLen))
  {
    hide Run, CopyMatch;
    ghost var goal := Decode(j.Cfg(), Start(j, Flat(mem[..], j.src, j.dst, 0)));
    var r := Regs(0, 0, 0, 0, 1);
    ghost var q := [];
    while true
      invariant Refines(j.w, r.bb, r.bc, q) && Rest(j, Top, Both(j, mem[..], r), r, q) == goal
      decreases Stored(j, mem[..], r, q).Fuel()
    {
      var halt, end, m_off, m_len;
      halt, r, q := Literals(j, mem, r, q);
      if halt.Some? {
        return halt.value, r.olen;
      }
      halt, end, m_off, m_len, r, q := DecodeMatch(j, mem, Both(j, mem[..], r), r, q);
      if halt.Some? {
        return halt.value, r.olen;
      }
      if end {
        EndRuns(j, Both(j, mem[..], r), r, q);
        return FinalStatus(j, r), r.olen;
      }
      halt, m_len, r, q := DecodeLength(j, mem, Both(j, mem[..], r), m_off, m_len, r, q);
      if halt.Some? {
        return halt.value, r.olen;
      }
      CopyRuns(j, Both(j, mem[..], r), r, q, m_off, m_len);
      m_len := FinalLen(j.Cfg(), m_off, m_len);
      if j.Safe() && U32(r.olen + m_len) > j.mode.oend {
        return OutputOverrun, r.olen;
      }
      if j.Safe() && m_off > r.olen {
        return LookbehindOverrun, r.olen;
      }
      r := CopyBytes(j, mem, m_off, m_len, r, q);
    }
  }

  // ------------------------------------------------------------------ TEST_OVERLAP

  lemma TestLitRuns(j: Job, mem: seq<byte>, src: seq<byte>, out: seq<byte>, r: Regs, q: seq<bit>)
    requires j.mode.Overlap? && Sees(j, mem, Split(src, out)) && |out| == r.olen
    requires Rest(j, Lit, Split(src, out), r, q).Done?
    ensures var o := Rest(j, Lit, Split(src, out), r, q);
            if Overrun(j, r) then Ends(o, InputOverrun, Split(src, out))
            else if r.olen >= j.mode.oend then Ends(o, OutputOverrun, Split(src, out))
            else if r.olen > j.mode.gap + r.ilen then Ends(o, OverlapOverrun, Split(src, out))
            else
              && r.ilen < |src|
              && var r' := r.(ilen := r.ilen + 1, olen := r.olen + 1);
                 && o == Rest(j, Top, Split(src, out + [src[r.ilen]]), r', q)
                 && At(j, Split(src, out + [src[r.ilen]]), r', q).Fuel() < At(j, Split(src, out), r, q).Fuel()
  {
    var st := At(j, Split(src, out), r, q);
    assert Step(j.Cfg(), State(Lit, r.last, st)) == LitStep(j.Cfg(), r.last, st);
  }

  /** The literal loop of TEST_OVERLAP: only the counters move. */
  method TestLiterals(j: Job, mem: array<byte>, ghost src: seq<byte>, ghost out0: seq<byte>,
                      r0: Regs, ghost q0: seq<bit>)
      returns (halt: Option<Status>, r: Regs, ghost q: seq<bit>, ghost out: seq<byte>)
    requires j.mode.Overlap? && Sees(j, mem[..], Split(src, out0)) && |out0| == r0.olen
    requires Refines(j.w, r0.bb, r0.bc, q0) && Rest(j, Top, Split(src, out0), r0, q0).Done?
    ensures r.last == r0.last && Refines(j.w, r.bb, r.bc, q) && |out| == r.olen
    ensures At(j, Split(src, out), r, q).Fuel() < At(j, Split(src, out0), r0, q0).Fuel()
    ensures halt.Some? ==> Ends(Rest(j, Top, Split(src, out0), r0, q0), halt.value, Split(src, out))
    ensures halt.None? ==>
              Rest(j, Top, Split(src, out0), r0, q0) == Rest(j, OffBit(1), Split(src, out), r, q)
  {
    hide Run;
    var b: bit;
    ghost var goal := Rest(j, Top, Split(src, out0), r0, q0);
    halt, out := None, out0;
    b, r, q := ReadBit(j, mem, Split(src, out), Top, r0, q0);
    while b == 1
      invariant r.last == r0.last && Refines(j.w, r.bb, r.bc, q) && |out| == r.olen
      invariant Rest(j, if b == 1 then Lit else OffBit(1), Split(src, out), r, q) == goal
      invariant At(j, Split(src, out), r, q).Fuel() < At(j, Split(src, out0), r0, q0).Fuel()
      decreases At(j, Split(src, out), r, q).Fuel()
    {
      TestLitRuns(j, mem[..], src, out, r, q);
      if Overrun(j, r) {
        halt := Some(InputOverrun);
        return;
      }
      if r.olen >= j.mode.oend {
        halt := Some(OutputOverrun);
        return;
      }
      if r.olen > j.mode.gap + r.ilen {
        halt := Some(OverlapOverrun);
        return;
      }
      out := out + [src[r.ilen]];
      r := r.(olen := r.olen + 1, ilen := r.ilen + 1);
      b, r, q := ReadBit(j, mem, Split(src, out), Top, r, q);
    }
  }

  /** The checks of a match in TEST_OVERLAP. */
  method TestMatch(j: Job, ghost src: seq<byte>, ghost out0: seq<byte>, r0: Regs, ghost q: seq<bit>, m_off: nat, n: nat)
      returns (halt: Option<Status>, r: Regs, ghost out: seq<byte>)
    requires j.mode.Overlap? && Small(j) && |out0| == r0.olen && 1 <= n <= j.mode.oend + 4
    requires Rest(j, Copy(m_off, n), Split(src, out0), r0, q).Done?
    ensures r == r0.(olen := |out|)
    ensures halt.Some? ==> Ends(Rest(j, Copy(m_off, n), Split(src, out0), r0, q), halt.value, Split(src, out))
    ensures halt.None? ==>
              Rest(j, Copy(m_off, n), Split(src, out0), r0, q) == Rest(j, Top, Split(src, out), r, q)
  {
    hide Run, CopyMatch;
    halt, r, out := None, r0, out0;
    CopyRuns(j, Split(src, out), r, q, m_off, n);
    var m_len := FinalLen(j.Cfg(), m_off, n);
    if U32(r.olen + m_len) > j.mode.oend {
      halt := Some(OutputOverrun);
      return;
    }
    if m_off > r.olen {
      halt := Some(LookbehindOverrun);
      return;
    }
    ghost var st := At(j, Split(src, out), r, q);
    CopyLength(st, m_off, m_len + 1);
    CopyKeeps(st, m_off, m_len + 1);
    out := CopyMatch(st, m_off, m_len + 1).value.view.out;
    r := r.(olen := r.olen + m_len + 1);
    if r.olen > j.mode.gap + r.ilen {
      halt := Some(OverlapOverrun);
    }
  }

  /** ucl_nrv2b/2d/2e_test_overlap_8/le16/le32 on buf and src_off. Nothing is written; the
      result is that of the decoder that checks for overlap, and the length it would have. */
  method TestOverlap(fmt: Format, w: Width, buf: array<byte>, srcOff: nat, srcLen: nat, oend: nat)
      returns (status: Status, dstLen: nat)
    requires oend < 0x8000_0000 - 4 && srcOff <= buf.Length
    requires Decode(Config(fmt, srcLen, Overlap(oend, srcOff)), Store(w, [], 0, Split(buf[srcOff..], []))).Done?
    ensures var o := Decode(Config(fmt, srcLen, Overlap(oend, srcOff)), Store(w, [], 0, Split(buf[srcOff..], [])));
            o.status == status && o.store.view.Split? && |o.store.view.out| == dstLen
  {
    hide Run;
    var j := Job(fmt, w, Overlap(oend, srcOff), srcOff, srcLen, 0);
    ghost var src, out := buf[srcOff..], [];
    ghost var goal := Decode(j.Cfg(), Start(j, Split(src, out)));
    if oend >= srcLen + srcOff {
      return OverlapOverrun, 0;
    }
    var r := Regs(0, 0, 0, 0, 1);
    ghost var q := [];
    while true
      invariant Refines(j.w, r.bb, r.bc, q) && |out| == r.olen && Rest(j, Top, Split(src, out), r, q) == goal
      decreases At(j, Split(src, out), r, q).Fuel()
    {
      var halt, end, m_off, m_len;
      halt, r, q, out := TestLiterals(j, buf, src, out, r, q);
      if halt.Some? {
        return halt.value, r.olen;
      }
      halt, end, m_off, m_len, r, q := DecodeMatch(j, buf, Split(src, out), r, q);
      if halt.Some? {
        return halt.value, r.olen;
      }
      if end {
        EndRuns(j, Split(src, out), r, q);
        return FinalStatus(j, r), r.olen;
      }
      halt, m_len, r, q := DecodeLength(j, buf, Split(src, out), m_off, m_len, r, q);
      if halt.Some? {
        return halt.value, r.olen;
      }
      halt, r, out := TestMatch(j, src, out, r, q, m_off, m_len);
      if halt.Some? {
        return halt.value, r.olen;
      }
    }
  }
}
