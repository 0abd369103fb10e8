/** The decompression routine of the self-extractor stub, register by register. It is proved
    to do what the C decoder does, on every block that the safe decoder of NRV2E accepts with
    room for less than 2^30 bytes. */
module StubDecoder {
  import opened Nrv
  import opened BitBuffer
  import opened Decoder
  import Simulation

  /** The 8-bit bit buffer of the stub never loses its sentinel. */
  predicate Holds8(bl: byte, q: seq<bit>) { Sentinel(bl, 8, q) }

  /** ebp holds the negated offset, as long as that fits the arithmetic shift. */
  predicate Negated(ebp: uint32, off: nat) { 1 <= off && (off <= 0x4000_0000 ==> ebp == 0x1_0000_0000 - off) }

  /** The run ends behind the end marker, not in a check. */
  ghost predicate Accepted(o: Outcome) { o.Done? && (o.status == Ok || o.status == InputNotConsumed) }

  /** An accepted run goes on behind every bit. */
  lemma AcceptedBit(j: Job, ctl: Ctl, v: View, r: Regs, q: seq<bit>)
    requires ctl.ReadsBit() && Accepted(Rest(j, ctl, v, r, q))
    ensures At(j, v, r, q).NextBit().Some?
    ensures var (b, st') := At(j, v, r, q).NextBit().value;
            && AfterBit(j.Cfg(), ctl, r.last, b, st').Go?
            && AfterBit(j.Cfg(), ctl, r.last, b, st').s.store == st'
            && AfterBit(j.Cfg(), ctl, r.last, b, st').s.last == r.last
            && Rest(j, ctl, v, r, q) == Run(j.Cfg(), AfterBit(j.Cfg(), ctl, r.last, b, st').s)
  {
    BitRuns(j, ctl, v, r, q);
  }

  /** A byte with a carry above it. */
  lemma ByteBits(v: nat)
    requires v < 0x200
    ensures Bits(v % 0x100, 8) == Bits(v, 8)
    ensures ShiftRight(v, 8) % 2 == v / 0x100
  {
    hide Bits, ShiftRight;
    assert Pow2(8) == 0x100;
    hide Pow2;
    ShiftNone(v / 0x100);
    Shift8(v, 0);
    if v >= 0x100 {
      assert v % 0x100 == v - 0x100;
      BitsWrap(v - 0x100, 8, 8);
    }
  }

  lemma ShiftNone(v: nat)
    ensures ShiftRight(v, 0) == v
  {
  }

  lemma LowNone(v: nat)
    ensures LowZero(v, 0)
  {
  }

  lemma EmptyByte(bl: byte)
    requires Holds8(bl, [])
    ensures bl == 0x80
  {
    SentinelEmpty(bl, 8);
    Low7(bl);
    assert Bits(bl, 8)[0] == 1;
    hide Bits, LowZero;
    ZeroLow(8);
    ZeroBits(0, 8);
    ZerosAt(8);
  }

  /** addb %bl,%bl: the carry is the next bit, and the byte is zero when none was left. */
  lemma AddByte(bl: byte, q: seq<bit>)
    requires Holds8(bl, q)
    ensures q == [] ==> bl == 0x80
    ensures q != [] ==> bl * 2 % 0x100 != 0 && bl / 0x80 == q[0] && Holds8(bl * 2 % 0x100, q[1..])
  {
    hide Bits, LowZero, ShiftRight;
    if q == [] {
      EmptyByte(bl);
    } else {
      SentinelStep(bl, 8, q);
      LowNone(bl * 2 / 0x100);
      Low8(bl * 2, 0);
      ByteBits(bl * 2);
    }
  }

  /** movb (%esi),%bl; incl %esi; adcb %bl,%bl, with the carry set. */
  lemma FetchByte(word: byte)
    ensures Holds8((word * 2 + 1) % 0x100, Bits(word, 8)[1..])
    ensures (word * 2 + 1) / 0x100 == Bits(word, 8)[0]
  {
    hide Bits, ShiftRight, Zeros;
    SentinelFetch(word, 8);
    ByteBits(word * 2 + 1);
  }

  /** The fetch of a control byte. */
  method Fetch(mem: array<byte>, esi0: nat, cf0: bit,
               ghost j: Job, ghost ctl: Ctl, ghost v: View, ghost r: Regs, ghost q: seq<bit>)
      returns (cf: bit, bl: byte, esi: nat, ghost r': Regs, ghost q': seq<bit>)
    requires cf0 == 1 && q == [] && j.w.W8? && esi0 == j.src + r.ilen
    requires Sees(j, mem[..], v) && ctl.ReadsBit() && Accepted(Rest(j, ctl, v, r, q))
    ensures Holds8(bl, q') && esi == j.src + r'.ilen && r' == r.(ilen := r'.ilen)
    ensures Read(j, ctl, v, r, q, cf, r', q')
  {
    hide Run, Bits;
    AcceptedBit(j, ctl, v, r, q);
    WordBytesAt(j, mem[..], v, r, q, 1);
    var word := mem[esi0];
    FetchByte(word);
    LittleEndianOf([word]);
    assert mem[..][esi0..esi0 + 1] == [word];
    var sum := word * 2 + cf0;
    bl, esi, cf := sum % 0x100, esi0 + 1, sum / 0x100;
    r', q' := r.(ilen := r.ilen + 1), Bits(word, 8)[1..];
  }

  /** The bit b was read at ctl, and the run goes on. */
  ghost predicate Read(j: Job, ctl: Ctl, v: View, r: Regs, q: seq<bit>, b: bit, r': Regs, q': seq<bit>)
    requires ctl.ReadsBit()
  {
    && At(j, v, r', q').Fuel() < At(j, v, r, q).Fuel()
    && var next := AfterBit(j.Cfg(), ctl, r.last, b, At(j, v, r', q'));
       next.Go? && Rest(j, ctl, v, r, q) == Rest(j, next.s.ctl, v, r', q')
  }

  /** addb %bl,%bl; jnz; and the fetch. */
  method GetBit(mem: array<byte>, bl0: byte, esi0: nat,
                ghost j: Job, ghost ctl: Ctl, ghost v: View, ghost r: Regs, ghost q: seq<bit>)
      returns (cf: bit, bl: byte, esi: nat, ghost r': Regs, ghost q': seq<bit>)
    requires Holds8(bl0, q) && j.w.W8? && esi0 == j.src + r.ilen
    requires Sees(j, mem[..], v) && ctl.ReadsBit() && Accepted(Rest(j, ctl, v, r, q))
    ensures Holds8(bl, q') && esi == j.src + r'.ilen && r' == r.(ilen := r'.ilen)
    ensures Read(j, ctl, v, r, q, cf, r', q')
  {
    hide Run;
    AddByte(bl0, q);
    cf, bl, esi := bl0 / 0x80, bl0 * 2 % 0x100, esi0;
    if bl == 0 {
      cf, bl, esi, r', q' := Fetch(mem, esi, cf, j, ctl, v, r, q);
    } else {
      AcceptedBit(j, ctl, v, r, q);
      r', q' := r, q[1..];
    }
  }

  /** m_off at the top of the offset loop, with the checks of SAFE passed so far. */
  predicate OffsetRange(eax: nat) { 1 <= eax <= 0x200_0005 }

  lemma OffsetStep(j: Job, m: nat, v: View, r: Regs, q: seq<bit>, b: bit, r': Regs, q': seq<bit>)
    requires !j.mode.Fast? && OffsetRange(m) && Read(j, OffBit(m), v, r, q, b, r', q')
    ensures 2 <= m * 2 + b <= 0x100_0002
    ensures Rest(j, OffBit(m), v, r, q) == Rest(j, OffStop(m * 2 + b), v, r', q')
  {
    assert U32(m * 2 + b) == m * 2 + b;
    hide Run;
  }

  /** From decompr_match to the break of its loop: eax is m_off. */
  method OffsetLoop(mem: array<byte>, bl0: byte, esi0: nat,
                    ghost j: Job, ghost v: View, ghost r0: Regs, ghost q0: seq<bit>)
      returns (eax: nat, bl: byte, esi: nat, ghost r: Regs, ghost q: seq<bit>)
    requires Holds8(bl0, q0) && j.w.W8? && !j.fmt.Nrv2b? && !j.mode.Fast? && esi0 == j.src + r0.ilen
    requires Sees(j, mem[..], v) && Accepted(Rest(j, OffBit(1), v, r0, q0))
    ensures Holds8(bl, q) && esi == j.src + r.ilen && r == r0.(ilen := r.ilen) && 2 <= eax <= 0x100_0002
    ensures At(j, v, r, q).Fuel() < At(j, v, r0, q0).Fuel()
    ensures Rest(j, OffBit(1), v, r0, q0) == Rest(j, AfterOffset(eax, r.last), v, r, q)
  {
    hide Run;
    var cf: bit;
    eax, bl, esi, r, q := 1, bl0, esi0, r0, q0;
    while true
      invariant Holds8(bl, q) && esi == j.src + r.ilen && r == r0.(ilen := r.ilen) && OffsetRange(eax)
      invariant At(j, v, r, q).Fuel() <= At(j, v, r0, q0).Fuel()
      invariant Rest(j, OffBit(1), v, r0, q0) == Rest(j, OffBit(eax), v, r, q)
      decreases At(j, v, r, q).Fuel()
    {
      ghost var r1, q1 := r, q;
      cf, bl, esi, r, q := GetBit(mem, bl, esi, j, OffBit(eax), v, r, q);
      OffsetStep(j, eax, v, r1, q1, cf, r, q);
      eax := eax + eax + cf;
      cf, bl, esi, r, q := GetBit(mem, bl, esi, j, OffStop(eax), v, r, q);
      if cf == 1 {
        return;
      }
      eax := eax - 1;
      cf, bl, esi, r, q := GetBit(mem, bl, esi, j, OffMore(eax + 1), v, r, q);
      eax := eax + eax + cf;
    }
  }

  /** Everything from decompr_match.decompr_mlen1: one more bit of ecx. */
  method OneBitLength(mem: array<byte>, bl0: byte, esi0: nat, ecx0: nat,
                      ghost j: Job, ghost ctl: Ctl, ghost off: nat, ghost v: View, ghost r0: Regs, ghost q0: seq<bit>)
      returns (ecx: nat, bl: byte, esi: nat, ghost r: Regs, ghost q: seq<bit>)
    requires Holds8(bl0, q0) && j.w.W8? && j.fmt.Nrv2e? && esi0 == j.src + r0.ilen
    requires (ecx0 == 0 && ctl == Len(off, 1)) || (ecx0 == 1 && ctl == LenShort(off))
    requires Sees(j, mem[..], v) && Accepted(Rest(j, ctl, v, r0, q0))
    ensures Holds8(bl, q) && esi == j.src + r.ilen && r == r0.(ilen := r.ilen)
    ensures At(j, v, r, q).Fuel() < At(j, v, r0, q0).Fuel()
    ensures ecx <= 3 && Rest(j, ctl, v, r0, q0) == Rest(j, Copy(off, ecx + 1), v, r, q)
  {
    hide Run;
    var cf: bit;
    cf, bl, esi, r, q := GetBit(mem, bl0, esi0, j, ctl, v, r0, q0);
    ecx := ecx0 + ecx0 + cf;
  }

  lemma LengthStep(j: Job, off: nat, m: nat, v: View, r: Regs, q: seq<bit>, b: bit, r': Regs, q': seq<bit>)
    requires Small(j) && 1 <= m <= j.mode.oend + 1 && Read(j, LenBit(off, m), v, r, q, b, r', q')
    ensures 2 <= m * 2 + b <= j.mode.oend
    ensures Rest(j, LenBit(off, m), v, r, q) == Rest(j, LenStop(off, m * 2 + b), v, r', q')
  {
    assert U32(m * 2 + b) == m * 2 + b;
    hide Run;
  }

  lemma LengthStop(j: Job, off: nat, m: nat, v: View, r: Regs, q: seq<bit>, b: bit, r': Regs, q': seq<bit>)
    requires Small(j) && j.fmt.Nrv2e? && m <= j.mode.oend && Read(j, LenStop(off, m), v, r, q, b, r', q')
    ensures Rest(j, LenStop(off, m), v, r, q) == Rest(j, if b == 1 then Copy(off, m + 3) else LenBit(off, m), v, r', q')
  {
    assert U32(m + 3) == m + 3;
    hide Run;
  }

  /** The loop at decompr_match..49.loop, and addl $2,%ecx. */
  method LengthLoop(mem: array<byte>, bl0: byte, esi0: nat,
                    ghost j: Job, ghost off: nat, ghost v: View, ghost r0: Regs, ghost q0: seq<bit>)
      returns (ecx: nat, bl: byte, esi: nat, ghost r: Regs, ghost q: seq<bit>)
    requires Holds8(bl0, q0) && j.w.W8? && j.fmt.Nrv2e? && Small(j) && esi0 == j.src + r0.ilen
    requires Sees(j, mem[..], v) && Accepted(Rest(j, LenBit(off, 1), v, r0, q0))
    ensures Holds8(bl, q) && esi == j.src + r.ilen && r == r0.(ilen := r.ilen)
    ensures At(j, v, r, q).Fuel() < At(j, v, r0, q0).Fuel()
    ensures ecx <= j.mode.oend + 2 && Rest(j, LenBit(off, 1), v, r0, q0) == Rest(j, Copy(off, ecx + 1), v, r, q)
  {
    hide Run;
    var cf: bit;
    ecx, bl, esi, r, q := 1, bl0, esi0, r0, q0;
    while true
      invariant Holds8(bl, q) && esi == j.src + r.ilen && r == r0.(ilen := r.ilen)
      invariant 1 <= ecx <= j.mode.oend + 1
      invariant At(j, v, r, q).Fuel() <= At(j, v, r0, q0).Fuel()
      invariant Rest(j, LenBit(off, 1), v, r0, q0) == Rest(j, LenBit(off, ecx), v, r, q)
      decreases At(j, v, r, q).Fuel()
    {
      ghost var r1, q1 := r, q;
      cf, bl, esi, r, q := GetBit(mem, bl, esi, j, LenBit(off, ecx), v, r, q);
      LengthStep(j, off, ecx, v, r1, q1, cf, r, q);
      ecx := ecx + ecx + cf;
      r1, q1 := r, q;
      cf, bl, esi, r, q := GetBit(mem, bl, esi, j, LenStop(off, ecx), v, r, q);
      LengthStop(j, off, ecx, v, r1, q1, cf, r, q);
      if cf == 1 {
        ecx := ecx + 2;
        return;
      }
    }
  }

  /** From decompr_match.decompr_got_off: a length whose first bit is zero. */
  method GotOffset(mem: array<byte>, bl0: byte, esi0: nat,
                   ghost j: Job, ghost off: nat, ghost v: View, ghost r0: Regs, ghost q0: seq<bit>)
      returns (ecx: nat, bl: byte, esi: nat, ghost r: Regs, ghost q: seq<bit>)
    requires Holds8(bl0, q0) && j.w.W8? && j.fmt.Nrv2e? && Small(j) && esi0 == j.src + r0.ilen
    requires Sees(j, mem[..], v) && Accepted(Rest(j, Len(off, 0), v, r0, q0))
    ensures Holds8(bl, q) && esi == j.src + r.ilen && r == r0.(ilen := r.ilen)
    ensures At(j, v, r, q).Fuel() < At(j, v, r0, q0).Fuel()
    ensures ecx <= j.mode.oend + 3 && Rest(j, Len(off, 0), v, r0, q0) == Rest(j, Copy(off, ecx + 1), v, r, q)
  {
    hide Run;
    var cf: bit;
    ecx := 1;
    cf, bl, esi, r, q := GetBit(mem, bl0, esi0, j, Len(off, 0), v, r0, q0);
    if cf == 1 {
      ecx, bl, esi, r, q := OneBitLength(mem, bl, esi, ecx, j, LenShort(off), off, v, r, q);
    } else {
      ecx, bl, esi, r, q := LengthLoop(mem, bl, esi, j, off, v, r, q);
    }
  }

  /** sarl: half of a 32-bit value, with its sign kept. */
  function ShiftArithmetic(x: uint32): uint32 { x / 2 + if x >= 0x8000_0000 then 0x8000_0000 else 0 }

  /** xorl $-1; sarl: the negated offset, and the first bit of the length in the carry. */
  lemma NegatedOffset(raw: uint32)
    requires raw != 0xffff_ffff
    ensures Negated(ShiftArithmetic(0xffff_ffff - raw), raw / 2 + 1)
    ensures (0xffff_ffff - raw) % 2 == 1 - raw % 2
  {
  }

  /** From decompr_match to got_len: the offset in ebp and the length, less two, in ecx. */
  method DecodeMatch(mem: array<byte>, bl0: byte, esi0: nat, ebp0: uint32,
                     ghost j: Job, ghost v: View, ghost r0: Regs, ghost q0: seq<bit>)
      returns (end: bool, ecx: nat, ebp: uint32, bl: byte, esi: nat, ghost r: Regs, ghost q: seq<bit>)
    requires Holds8(bl0, q0) && Negated(ebp0, r0.last)
    requires j.w.W8? && j.fmt.Nrv2e? && Small(j) && esi0 == j.src + r0.ilen
    requires Sees(j, mem[..], v) && Accepted(Rest(j, OffBit(1), v, r0, q0))
    ensures Holds8(bl, q) && esi == j.src + r.ilen && r.olen == r0.olen && Negated(ebp, r.last)
    ensures At(j, v, r, q).Fuel() < At(j, v, r0, q0).Fuel()
    ensures end ==> Rest(j, OffBit(1), v, r0, q0) == Rest(j, End, v, r, q)
    ensures !end ==> ecx <= j.mode.oend + 3
    ensures !end ==> Rest(j, OffBit(1), v, r0, q0) == Rest(j, Copy(r.last, ecx + 1), v, r, q)
  {
    hide Run, Holds8, LowZero, Bits;
    var eax: nat;
    var cf: bit;
    end, ecx, ebp := false, 0, ebp0;
    eax, bl, esi, r, q := OffsetLoop(mem, bl0, esi0, j, v, r0, q0);
    if eax < 3 {
      cf, bl, esi, r, q := GetBit(mem, bl, esi, j, Low(r.last), v, r, q);
    } else {
      OffByteRuns(j, mem[..], v, r, q, eax);
      eax := (eax - 3) * 0x100 + mem[esi];
      esi := esi + 1;
      ghost var raw := eax;
      assert U32(raw) == raw;
      eax := 0xffff_ffff - eax;
      r := r.(ilen := r.ilen + 1);
      if eax == 0 {
        end := true;
        return;
      }
      NegatedOffset(raw);
      cf, ebp := eax % 2, ShiftArithmetic(eax);
      r := r.(last := raw / 2 + 1);
    }
    if cf == 1 {
      ecx, bl, esi, r, q := OneBitLength(mem, bl, esi, 0, j, Len(r.last, 1), r.last, v, r, q);
    } else {
      ecx, bl, esi, r, q := GotOffset(mem, bl, esi, j, r.last, v, r, q);
    }
  }

  /** rep movsb: ecx bytes, upwards, from esi to edi. */
  method RepMovsb(mem: array<byte>, from: nat, edi0: nat, n: nat,
                  ghost j: Job, ghost off: nat, ghost r0: Regs, ghost q: seq<bit>)
      returns (edi: nat, ghost r: Regs)
    requires from == edi0 - off && edi0 == j.dst + r0.olen && off <= edi0
    requires CopyMatch(Stored(j, mem[..], r0, q), off, n).Some?
    modifies mem
    ensures edi == j.dst + r.olen && r == r0.(olen := r.olen)
    ensures CopyMatch(Stored(j, old(mem[..]), r0, q), off, n) == Some(Stored(j, mem[..], r, q))
  {
    hide CopyMatch;
    var esi, ecx := from, n;
    edi, r := edi0, r0;
    while ecx > 0
      invariant r == r0.(olen := r.olen) && edi == j.dst + r.olen && esi == edi - off
      invariant CopyMatch(Stored(j, mem[..], r, q), off, ecx) == CopyMatch(Stored(j, old(mem[..]), r0, q), off, n)
    {
      CopyTurn(j, mem[..], r, q, off, ecx);
      mem[edi] := mem[esi];
      esi, edi, ecx := esi + 1, edi + 1, ecx - 1;
      r := r.(olen := r.olen + 1);
    }
    CopyNothing(Stored(j, mem[..], r, q), off);
  }

  /** An accepted run at the copy: ebp and ecx give the same copy. */
  lemma AcceptedCopy(j: Job, mem: seq<byte>, r: Regs, q: seq<bit>, ebp: uint32, ecx: nat)
    requires j.fmt.Nrv2e? && j.mode.Safe? && j.mode.oend < 0x4000_0000 && ecx <= j.mode.oend + 3
    requires Negated(ebp, r.last) && Accepted(Rest(j, Copy(r.last, ecx + 1), Both(j, mem, r), r, q))
    requires r.olen <= j.mode.oend + 1
    ensures r.olen + ecx + 2 + (if ebp < 0x1_0000_0000 - 0x500 then 1 else 0) <= j.mode.oend + 1
    ensures r.last <= r.olen && ebp == 0x1_0000_0000 - r.last
    ensures var n := ecx + 2 + if ebp < 0x1_0000_0000 - 0x500 then 1 else 0;
            var copied := CopyMatch(Stored(j, mem, r, q), r.last, n);
            && copied.Some?
            && Rest(j, Copy(r.last, ecx + 1), Both(j, mem, r), r, q)
               == Run(j.Cfg(), State(Top, r.last, copied.value))
  {
    hide Run, CopyMatch;
    CopyRuns(j, Both(j, mem, r), r, q, r.last, ecx + 1);
    var n := ecx + 1 + if r.last > 0x500 then 1 else 0;
    assert FinalLen(j.Cfg(), r.last, ecx + 1) == n && U32(n) == n && U32(r.olen + n) == r.olen + n;
  }

  /** What decompr_end leaves in eax. */
  function ExitCode(status: Status): uint32
    requires status == Ok || status == InputNotConsumed || status == InputOverrun
  {
    match status
    case Ok => 0
    case InputOverrun => 0xffff_ff37
    case InputNotConsumed => 0xffff_ff33
  }

  /** cmpl %edx,%esi and the moves into eax that its flags select. */
  function CompareEnd(esi: nat, edx: nat): uint32
  {
    if esi == edx then 0 else if esi > edx then 0xffff_ff37 else 0xffff_ff33
  }

  /** From decompr_match to the end of the copy. */
  method MatchBlock(mem: array<byte>, bl0: byte, esi0: nat, edi0: nat, ebp0: uint32,
                    ghost j: Job, ghost r0: Regs, ghost q0: seq<bit>)
      returns (end: bool, ebp: uint32, bl: byte, esi: nat, edi: nat, ghost r: Regs, ghost q: seq<bit>)
    requires Holds8(bl0, q0) && Negated(ebp0, r0.last) && esi0 == j.src + r0.ilen && edi0 == j.dst + r0.olen
    requires j.w.W8? && j.fmt.Nrv2e? && j.mode.Safe? && r0.olen <= j.mode.oend + 1 && j.mode.oend < 0x4000_0000
    requires Accepted(Rest(j, OffBit(1), Both(j, mem[..], r0), r0, q0))
    modifies mem
    ensures Holds8(bl, q) && Negated(ebp, r.last) && esi == j.src + r.ilen && edi == j.dst + r.olen
    ensures r.olen <= j.mode.oend + 1
    ensures Stored(j, mem[..], r, q).Fuel() < Stored(j, old(mem[..]), r0, q0).Fuel()
    ensures Rest(j, OffBit(1), Both(j, old(mem[..]), r0), r0, q0)
         == Rest(j, if end then End else Top, Both(j, mem[..], r), r, q)
  {
    hide Run, CopyMatch;
    var ecx: nat;
    end, ecx, ebp, bl, esi, r, q := DecodeMatch(mem, bl0, esi0, ebp0, j, Both(j, mem[..], r0), r0, q0);
    edi := edi0;
    if end {
      return;
    }
    AcceptedCopy(j, mem[..], r, q, ebp, ecx);
    var carry := if ebp < 0x1_0000_0000 - 0x500 then 1 else 0;
    ecx := ecx + 2 + carry;
    ghost var st, off := Stored(j, mem[..], r, q), r.last;
    edi, r := RepMovsb(mem, edi + ebp - 0x1_0000_0000, edi, ecx, j, r.last, r, q);
    Simulation.CopyLength(st, off, ecx);
  }

  /** ucl_nrv2e_decompress_asm_small_8: size0 bytes at readbuf are decompressed to writebuf. */
  method Decompress(mem: array<byte>, readbuf: nat, size0: nat, writebuf: nat, ghost oend: nat)
      returns (eax: uint32, destLen: nat)
    requires oend < 0x4000_0000
    requires Accepted(Decode(Config(Nrv2e, size0, Safe(oend)), Store(W8, [], 0, Flat(mem[..], readbuf, writebuf, 0))))
    modifies mem
    ensures var o := Decode(Config(Nrv2e, size0, Safe(oend)),
                            Store(W8, [], 0, Flat(old(mem[..]), readbuf, writebuf, 0)));
            && eax == ExitCode(o.status)
            && o.store.view == Flat(mem[..], readbuf, writebuf, destLen)
  {
    hide Run;
    ghost var j := Job(Nrv2e, W8, Safe(oend), readbuf, size0, writebuf);
    ghost var r, q := Regs(0, 0, 0, 0, 1), [];
    ghost var goal := Rest(j, Top, Both(j, mem[..], r), r, q);
    var esi, edi := readbuf, writebuf;
    var ebp: uint32 := 0xffff_ffff;
    var bl: byte, cf: bit;
    cf, bl, esi, r, q := Fetch(mem, esi, 1, j, Top, Both(j, mem[..], r), r, q);
    while true
      invariant Holds8(bl, q) && Negated(ebp, r.last) && esi == j.src + r.ilen && edi == j.dst + r.olen
      invariant r.olen <= oend + 1
      invariant Rest(j, if cf == 1 then Lit else OffBit(1), Both(j, mem[..], r), r, q) == goal
      decreases Stored(j, mem[..], r, q).Fuel()
    {
      if cf == 1 {
        LitRuns(j, mem[..], r, q);
        mem[edi] := mem[esi];
        esi, edi := esi + 1, edi + 1;
        r := r.(ilen := r.ilen + 1, olen := r.olen + 1);
      } else {
        var end;
        end, ebp, bl, esi, edi, r, q := MatchBlock(mem, bl, esi, edi, ebp, j, r, q);
        if end {
          EndRuns(j, Both(j, mem[..], r), r, q);
          destLen := edi - writebuf;
          eax := CompareEnd(esi, readbuf + size0);
          return;
        }
      }
      cf, bl, esi, r, q := GetBit(mem, bl, esi, j, Top, Both(j, mem[..], r), r, q);
    }
  }
}
