/** The decoder inverts the compressor's coding. */
module RoundTrip {
  import opened Nrv
  import opened Simulation
  import opened Layout
  import opened PrefixCode
  import opened Tokens
  import Safety

  /** What the control words of a stream look like: their width, and how many bits of the last
      one are unused. */
  datatype Grain = Grain(w: Width, fill: nat)

  function GrainOf(w: Width, ops: seq<Op>): Grain { Grain(w, Fill(w, ops)) }

  function OnTape(g: Grain, ops: seq<Op>, out: seq<byte>): Store { Store(g.w, [], g.fill, Tape(ops, out)) }

  predicate HasByte(ops: seq<Op>) { exists i | 0 <= i < |ops| :: ops[i].Byte? }

  lemma HasByteLater(a: seq<Op>, ops: seq<Op>)
    requires HasByte(ops)
    ensures HasByte(a + ops)
  {
    var i :| 0 <= i < |ops| && ops[i].Byte?;
    assert (a + ops)[|a| + i].Byte?;
  }

  /** One bit from the tape. */
  lemma TapeBit(c: Config, g: Grain, ctl: Ctl, last: nat, b: bit, ops: seq<Op>, out: seq<byte>)
    requires ctl.ReadsBit()
    requires AfterBit(c, ctl, last, b, OnTape(g, ops, out)).Go?
    ensures Run(c, State(ctl, last, OnTape(g, [Bit(b)] + ops, out)))
         == Run(c, AfterBit(c, ctl, last, b, OnTape(g, ops, out)).s)
  {
    assert ([Bit(b)] + ops)[1..] == ops;
    assert OnTape(g, [Bit(b)] + ops, out).NextBit() == Some((b, OnTape(g, ops, out)));
  }

  lemma OffsetBit(c: Config, g: Grain, h: nat, last: nat, b: bit, ops: seq<Op>, out: seq<byte>)
    requires 2 * h + b <= 0x100_0002 && HasByte(ops)
    ensures Run(c, State(OffBit(h), last, OnTape(g, [Bit(b)] + ops, out)))
         == Run(c, State(OffStop(2 * h + b), last, OnTape(g, ops, out)))
  {
    hide Run, Step;
    assert !c.Exhausted(OnTape(g, ops, out));
    TapeBit(c, g, OffBit(h), last, b, ops, out);
  }

  lemma OffsetStop(c: Config, g: Grain, m: nat, last: nat, b: bit, ops: seq<Op>, out: seq<byte>)
    ensures Run(c, State(OffStop(m), last, OnTape(g, [Bit(b)] + ops, out)))
         == Run(c, State(AfterStop(c.fmt, m, last, b), last, OnTape(g, ops, out)))
  {
    TapeBit(c, g, OffStop(m), last, b, ops, out);
  }

  lemma OffsetMore(c: Config, g: Grain, m: nat, last: nat, b: bit, ops: seq<Op>, out: seq<byte>)
    requires 1 <= m <= 0x100_0002
    ensures Run(c, State(OffMore(m), last, OnTape(g, [Bit(b)] + ops, out)))
         == Run(c, State(OffBit((m - 1) * 2 + b), last, OnTape(g, ops, out)))
  {
    hide Run, Step;
    TapeBit(c, g, OffMore(m), last, b, ops, out);
  }

  function AfterStop(fmt: Format, m: nat, last: nat, b: bit): Ctl
  {
    if b == 1 then (if m == 2 then Low(last) else OffByte(m))
    else if fmt.Nrv2b? then OffBit(m) else OffMore(m)
  }

  /** The two bits that each turn of the loop reads. */
  lemma OffsetTurn(c: Config, g: Grain, h: nat, last: nat, ops: seq<Op>, out: seq<byte>)
    requires |ops| >= 2 && ops[0].Bit? && ops[1].Bit? && HasByte(ops[2..])
    requires 2 * h + ops[0].b <= 0x100_0002
    ensures Run(c, State(OffBit(h), last, OnTape(g, ops, out)))
         == Run(c, State(AfterStop(c.fmt, 2 * h + ops[0].b, last, ops[1].b), last, OnTape(g, ops[2..], out)))
  {
    hide Run;
    assert ops == [ops[0]] + ops[1..] && ops[1..] == [ops[1]] + ops[2..];
    HasByteLater([ops[1]], ops[2..]);
    OffsetBit(c, g, h, last, ops[0].b, ops[1..], out);
    OffsetStop(c, g, 2 * h + ops[0].b, last, ops[1].b, ops[2..], out);
  }

  lemma OffsetHead(c: Config, g: Grain, h: nat, last: nat, ops: seq<Op>, m: nat, rest: seq<Op>, out: seq<byte>)
    requires h >= 1 && Read(!c.fmt.Nrv2b?, h, ops) == Some((m, rest))
    requires m <= 0x100_0002 && HasByte(rest)
    ensures |ops| >= 2 && ops[0].Bit? && ops[1].Bit? && 2 * h + ops[0].b <= m
    ensures Run(c, State(OffBit(h), last, OnTape(g, ops, out)))
         == Run(c, State(AfterStop(c.fmt, 2 * h + ops[0].b, last, ops[1].b), last, OnTape(g, ops[2..], out)))
  {
    hide Run;
    ReadSuffix(!c.fmt.Nrv2b?, h, ops);
    assert ops[2..] == ops[2..|ops| - |rest|] + rest;
    HasByteLater(ops[2..|ops| - |rest|], rest);
    OffsetTurn(c, g, h, last, ops, out);
  }

  /** Reading a codeword of an offset takes the decoder to the break of its loop. */
  lemma {:induction false} OffsetRun(c: Config, g: Grain, h: nat, last: nat, ops: seq<Op>, m: nat, rest: seq<Op>,
                                     out: seq<byte>)
    requires h >= 1 && Read(!c.fmt.Nrv2b?, h, ops) == Some((m, rest))
    requires m <= 0x100_0002 && HasByte(rest)
    ensures Run(c, State(OffBit(h), last, OnTape(g, ops, out)))
         == Run(c, State(AfterStop(c.fmt, m, last, 1), last, OnTape(g, rest, out)))
    decreases |ops|
  {
    hide Run;
    OffsetHead(c, g, h, last, ops, m, rest, out);
    var m' := 2 * h + ops[0].b;
    if ops[1].b == 0 {
      if c.fmt.Nrv2b? {
        OffsetRun(c, g, m', last, ops[2..], m, rest, out);
      } else {
        assert ops[2..] == [ops[2]] + ops[3..];
        OffsetMore(c, g, m', last, ops[2].b, ops[3..], out);
        OffsetRun(c, g, (m' - 1) * 2 + ops[2].b, last, ops[3..], m, rest, out);
      }
    }
  }

  lemma {:induction false} ReadSuffix(wide: bool, h: nat, ops: seq<Op>)
    requires h >= 1 && Read(wide, h, ops).Some?
    ensures var (m, rest) := Read(wide, h, ops).value;
            |rest| + 2 <= |ops| && rest == ops[|ops| - |rest|..] && 2 * h + ops[0].b <= m
            && (ops[1].b == 0 && wide ==> (2 * h + ops[0].b - 1) * 2 + ops[2].b <= m)
    decreases |ops|
  {
    var m := 2 * h + ops[0].b;
    if ops[1].b == 0 {
      if wide {
        ReadSuffix(wide, (m - 1) * 2 + ops[2].b, ops[3..]);
      } else {
        ReadSuffix(wide, m, ops[2..]);
      }
    }
  }

  function AfterTurn(c: Config, off: nat, m: nat, b: bit): Ctl
  {
    if b == 1 then Copy(off, m + c.Bias()) else LenBit(off, m)
  }

  lemma LengthTurn(c: Config, g: Grain, off: nat, h: nat, last: nat, ops: seq<Op>, out: seq<byte>)
    requires |ops| >= 2 && ops[0].Bit? && ops[1].Bit? && HasByte(ops[2..])
    requires 2 * h + ops[0].b < 0x8000_0000 && !c.Above(2 * h + ops[0].b + 1)
    ensures Run(c, State(LenBit(off, h), last, OnTape(g, ops, out)))
         == Run(c, State(AfterTurn(c, off, 2 * h + ops[0].b, ops[1].b), last, OnTape(g, ops[2..], out)))
  {
    hide Run, Step;
    var m := 2 * h + ops[0].b;
    assert ops == [ops[0]] + ops[1..] && ops[1..] == [ops[1]] + ops[2..];
    HasByteLater([ops[1]], ops[2..]);
    assert U32(h * 2 + ops[0].b) == m && U32(m + c.Bias()) == m + c.Bias();
    assert !c.Exhausted(OnTape(g, ops[1..], out));
    TapeBit(c, g, LenBit(off, h), last, ops[0].b, ops[1..], out);
    TapeBit(c, g, LenStop(off, m), last, ops[1].b, ops[2..], out);
  }

  lemma LengthHead(c: Config, g: Grain, off: nat, h: nat, last: nat, ops: seq<Op>, m: nat, rest: seq<Op>,
                   out: seq<byte>)
    requires h >= 1 && Read(false, h, ops) == Some((m, rest)) && HasByte(rest)
    requires m < 0x8000_0000 && !c.Above(m + 1)
    ensures |ops| >= 2 && ops[0].Bit? && ops[1].Bit? && 2 * h + ops[0].b <= m
    ensures Run(c, State(LenBit(off, h), last, OnTape(g, ops, out)))
         == Run(c, State(AfterTurn(c, off, 2 * h + ops[0].b, ops[1].b), last, OnTape(g, ops[2..], out)))
  {
    hide Run;
    ReadSuffix(false, h, ops);
    assert ops[2..] == ops[2..|ops| - |rest|] + rest;
    HasByteLater(ops[2..|ops| - |rest|], rest);
    LengthTurn(c, g, off, h, last, ops, out);
  }

  /** Reading a codeword of a length. */
  lemma {:induction false} LengthRun(c: Config, g: Grain, off: nat, h: nat, last: nat, ops: seq<Op>, m: nat,
                                     rest: seq<Op>, out: seq<byte>)
    requires h >= 1 && Read(false, h, ops) == Some((m, rest)) && HasByte(rest)
    requires m < 0x8000_0000 && !c.Above(m + 1)
    ensures Run(c, State(LenBit(off, h), last, OnTape(g, ops, out)))
         == Run(c, State(Copy(off, m + c.Bias()), last, OnTape(g, rest, out)))
    decreases |ops|
  {
    hide Run;
    LengthHead(c, g, off, h, last, ops, m, rest, out);
    if ops[1].b == 0 {
      LengthRun(c, g, off, 2 * h + ops[0].b, last, ops[2..], m, rest, out);
    }
  }

  /** Reading the rest of a length, after its first bit. */
  lemma TailRun(c: Config, g: Grain, off: nat, n: nat, last: nat, rest: seq<Op>, out: seq<byte>)
    requires 1 <= n < 0x8000_0000 && !c.Above(n) && HasByte(rest)
    ensures Run(c, State(Len(off, LowBit(c.fmt, n)), last, OnTape(g, LenTail(c.fmt, n) + rest, out)))
         == Run(c, State(Copy(off, n), last, OnTape(g, rest, out)))
  {
    hide Run;
    var low := LowBit(c.fmt, n);
    var ops := LenTail(c.fmt, n) + rest;
    if LenTail(c.fmt, n) == [LenTail(c.fmt, n)[0]] {
      TapeBit(c, g, Len(off, low), last, LenTail(c.fmt, n)[0].b, rest, out);
    } else if c.fmt.Nrv2e? && n <= 4 {
      assert ops == [Bit(1)] + ([Bit(n - 3)] + rest);
      TapeBit(c, g, Len(off, 0), last, 1, [Bit(n - 3)] + rest, out);
      TapeBit(c, g, LenShort(off), last, n - 3, rest, out);
    } else {
      LongTail(c, g, off, n, last, rest, out);
    }
  }

  lemma LongTail(c: Config, g: Grain, off: nat, n: nat, last: nat, rest: seq<Op>, out: seq<byte>)
    requires c.Bias() + 2 <= n < 0x8000_0000 && !c.Above(n) && HasByte(rest)
    ensures Run(c, State(Len(off, 0), last, OnTape(g, ([Bit(0)] + Code(false, n - c.Bias())) + rest, out)))
         == Run(c, State(Copy(off, n), last, OnTape(g, rest, out)))
  {
    hide Run;
    var m := n - c.Bias();
    assert ([Bit(0)] + Code(false, m)) + rest == [Bit(0)] + (Code(false, m) + rest);
    TapeBit(c, g, Len(off, 0), last, 0, Code(false, m) + rest, out);
    CodeIsBijective(false, Code(false, m) + rest, m, rest);
    LengthRun(c, g, off, 1, last, Code(false, m) + rest, m, rest, out);
  }

  /** Reading an offset and the first bit of the length. */
  lemma OffsetOpsRun(c: Config, g: Grain, last: nat, off: nat, low: bit, rest: seq<Op>, out: seq<byte>)
    requires 1 <= off < 0x8000_0000 && HasByte(rest)
    ensures Run(c, State(OffBit(1), last, OnTape(g, OffsetOps(c.fmt, last, off, low) + rest, out)))
         == Run(c, State(Len(off, low), off, OnTape(g, rest, out)))
  {
    hide Run;
    if off == last {
      SameOffset(c, g, last, low, rest, out);
    } else if c.fmt.Nrv2b? {
      NewOffset2b(c, g, last, off, low, rest, out);
    } else {
      NewOffset2d(c, g, last, off, low, rest, out);
    }
  }

  lemma SameOffset(c: Config, g: Grain, last: nat, low: bit, rest: seq<Op>, out: seq<byte>)
    requires HasByte(rest)
    ensures Run(c, State(OffBit(1), last, OnTape(g, [Bit(0), Bit(1), Bit(low)] + rest, out)))
         == Run(c, State(Len(last, low), last, OnTape(g, rest, out)))
  {
    hide Run;
    var ops := [Bit(0), Bit(1), Bit(low)] + rest;
    assert ops[2..] == [Bit(low)] + rest;
    HasByteLater([Bit(low)], rest);
    OffsetTurn(c, g, 1, last, ops, out);
    TapeBit(c, g, Low(last), last, low, rest, out);
  }

  /** A codeword other than that of 2, and the data byte after it. */
  lemma NewOffset(c: Config, g: Grain, last: nat, m: nat, x: byte, ops: seq<Op>, out: seq<byte>)
    requires 3 <= m <= 0x100_0002
    ensures Run(c, State(OffBit(1), last, OnTape(g, Code(!c.fmt.Nrv2b?, m) + ([Byte(x)] + ops), out)))
         == Run(c, AfterOffByte(c, m, last, x, OnTape(g, ops, out)).s)
  {
    var rest := [Byte(x)] + ops;
    assert rest[0].Byte? && rest[1..] == ops;
    CodeIsBijective(!c.fmt.Nrv2b?, Code(!c.fmt.Nrv2b?, m) + rest, m, rest);
    OffsetRun(c, g, 1, last, Code(!c.fmt.Nrv2b?, m) + rest, m, rest, out);
    assert Step(c, State(OffByte(m), last, OnTape(g, rest, out))) == AfterOffByte(c, m, last, x, OnTape(g, ops, out));
  }

  lemma NewOffset2b(c: Config, g: Grain, last: nat, off: nat, low: bit, rest: seq<Op>, out: seq<byte>)
    requires c.fmt.Nrv2b? && 1 <= off < 0x8000_0000 && off != last && HasByte(rest)
    ensures Run(c, State(OffBit(1), last, OnTape(g, OffsetOps(c.fmt, last, off, low) + rest, out)))
         == Run(c, State(Len(off, low), off, OnTape(g, rest, out)))
  {
    hide Run;
    var m := 3 + (off - 1) / 0x100;
    var ops := [Bit(low)] + rest;
    var x: byte := (off - 1) % 0x100;
    assert OffsetOps(c.fmt, last, off, low) + rest == Code(false, m) + ([Byte(x)] + ops);
    hide Code, OffsetOps, HasByte;
    NewOffset(c, g, last, m, x, ops, out);
    TapeBit(c, g, Low(off), off, low, rest, out);
  }

  /** The offset byte carries the low bits of the offset and the first bit of the length. */
  lemma RawOffset(off: nat, low: bit)
    requires 1 <= off < 0x8000_0000
    ensures var raw := U32((3 + (off - 1) / 0x80 - 3) * 0x100 + ((off - 1) % 0x80 * 2 + 1 - low));
            raw < 0xffff_ffff && raw / 2 + 1 == off && 1 - raw % 2 == low
  {
    assert (off - 1) / 0x80 * 0x100 + ((off - 1) % 0x80 * 2 + 1 - low) == (off - 1) * 2 + 1 - low;
  }

  lemma NewOffset2d(c: Config, g: Grain, last: nat, off: nat, low: bit, rest: seq<Op>, out: seq<byte>)
    requires !c.fmt.Nrv2b? && 1 <= off < 0x8000_0000 && off != last
    ensures Run(c, State(OffBit(1), last, OnTape(g, OffsetOps(c.fmt, last, off, low) + rest, out)))
         == Run(c, State(Len(off, low), off, OnTape(g, rest, out)))
  {
    hide Run;
    var m := 3 + (off - 1) / 0x80;
    var x: byte := (off - 1) % 0x80 * 2 + 1 - low;
    assert OffsetOps(c.fmt, last, off, low) + rest == Code(true, m) + ([Byte(x)] + rest);
    hide Code, OffsetOps, U32;
    RawOffset(off, low);
    NewOffset(c, g, last, m, x, rest, out);
  }

  lemma EndRun(c: Config, g: Grain, last: nat, out: seq<byte>)
    ensures Run(c, State(Top, last, OnTape(g, EndOps(c.fmt), out))) == Done(Ok, OnTape(g, [], out))
  {
    hide Run;
    var code := Code(!c.fmt.Nrv2b?, END_CODE);
    assert EndOps(c.fmt) == [Bit(0)] + (code + ([Byte(0xff)] + []));
    hide Code;
    TapeBit(c, g, Top, last, 0, code + ([Byte(0xff)] + []), out);
    NewOffset(c, g, last, END_CODE, 0xff, [], out);
    EndStops(c, g, last, out);
  }

  lemma EndStops(c: Config, g: Grain, last: nat, out: seq<byte>)
    ensures Run(c, State(End, last, OnTape(g, [], out))) == Done(Ok, OnTape(g, [], out))
  {
  }

  // ------------------------------------------------------------------ whole tokens

  lemma {:induction false} CopyExtends(st: Store, off: nat, n: nat)
    requires st.view.Tape? && 1 <= off <= |st.view.tout|
    ensures CopyMatch(st, off, n)
         == Some(st.(view := Tape(st.view.ops, Extend(st.view.tout, off, n))))
    decreases n
  {
    if n > 0 {
      CopyExtends(st.Put(st.view.Look(off).value).value, off, n - 1);
    }
  }

  /** The input that is left is short enough for the check of TEST_OVERLAP to pass. */
  predicate Paced(c: Config, g: Grain, olen: nat, rest: seq<Op>)
  {
    c.mode.Overlap? ==> olen + Unread(g.w, g.fill, rest) <= c.mode.gap + c.srcLen
  }

  lemma LitRun(c: Config, g: Grain, b: byte, last: nat, rest: seq<Op>, out: seq<byte>)
    requires !c.Above(|out| + 1) && Paced(c, g, |out| + 1, rest)
    ensures Run(c, State(Top, last, OnTape(g, [Bit(1), Byte(b)] + rest, out)))
         == Run(c, State(Top, last, OnTape(g, rest, out + [b])))
  {
    var ops := [Byte(b)] + rest;
    assert [Bit(1), Byte(b)] + rest == [Bit(1)] + ops;
    TapeBit(c, g, Top, last, 1, ops, out);
    assert ops[0] == Byte(b) && ops[1..] == rest;
    assert !c.Exhausted(OnTape(g, ops, out));
    assert Step(c, State(Ctl.Lit, last, OnTape(g, ops, out))) == Go(State(Top, last, OnTape(g, rest, out + [b])));
  }

  lemma CopyRun(c: Config, g: Grain, t: Token, last: nat, rest: seq<Op>, out: seq<byte>)
    requires t.Match? && Codable(c.fmt, t) && 1 <= t.off <= |out| && |out| + t.len < 0x8000_0000
    requires !c.Above(|out| + t.len - 1) && Paced(c, g, |out| + t.len, rest)
    ensures Run(c, State(Copy(t.off, CodedLen(c.fmt, t)), last, OnTape(g, rest, out)))
         == Run(c, State(Top, last, OnTape(g, rest, Extend(out, t.off, t.len))))
  {
    assert FinalLen(c, t.off, CodedLen(c.fmt, t)) == t.len - 1;
    hide FinalLen, CodedLen;
    TransferRun(c, g, t.off, t.len - 1, last, rest, out);
    CopyGoes(c, t.off, CodedLen(c.fmt, t), t.len - 1, last, OnTape(g, rest, out));
    hide *;
  }

  lemma CopyGoes(c: Config, off: nat, n: nat, n': nat, last: nat, st: Store)
    requires FinalLen(c, off, n) == n' && Transfer(c, off, n', last, st).Go?
    ensures Run(c, State(Copy(off, n), last, st)) == Run(c, Transfer(c, off, n', last, st).s)
  {
  }

  lemma TransferRun(c: Config, g: Grain, off: nat, n: nat, last: nat, rest: seq<Op>, out: seq<byte>)
    requires 1 <= n && 1 <= off <= |out| && |out| + n < 0x8000_0000
    requires !c.Above(|out| + n) && Paced(c, g, |out| + n + 1, rest)
    ensures Transfer(c, off, n, last, OnTape(g, rest, out))
         == Go(State(Top, last, OnTape(g, rest, Extend(out, off, n + 1))))
  {
    CopyExtends(OnTape(g, rest, out), off, n + 1);
    assert !c.Clobbers(OnTape(g, rest, Extend(out, off, n + 1)));
  }

  /** Reading the code of a match, up to the copy. */
  lemma CodeRun(c: Config, g: Grain, t: Token, last: nat, rest: seq<Op>, out: seq<byte>)
    requires t.Match? && Codable(c.fmt, t) && Within(t, |out|) && HasByte(rest)
    requires !c.Above(CodedLen(c.fmt, t)) && |out| + t.len < 0x8000_0000
    ensures Run(c, State(Top, last, OnTape(g, TokenOps(c.fmt, last, t) + rest, out)))
         == Run(c, State(Copy(t.off, CodedLen(c.fmt, t)), t.off, OnTape(g, rest, out)))
  {
    hide Run;
    var n := CodedLen(c.fmt, t);
    var tail := LenTail(c.fmt, n) + rest;
    var ops := OffsetOps(c.fmt, last, t.off, LowBit(c.fmt, n)) + tail;
    assert TokenOps(c.fmt, last, t) + rest == [Bit(0)] + ops;
    HasByteLater(LenTail(c.fmt, n), rest);
    TapeBit(c, g, Top, last, 0, ops, out);
    OffsetOpsRun(c, g, last, t.off, LowBit(c.fmt, n), tail, out);
    TailRun(c, g, t.off, n, t.off, rest, out);
  }

  /** How far a token may take the output: a match is let through with one byte too many. */
  predicate Admits(c: Config, t: Token, olen: nat)
  {
    if t.Lit? then !c.Above(olen + 1) else !c.Above(olen + t.len - 1)
  }

  lemma TokenRun(c: Config, g: Grain, t: Token, last: nat, rest: seq<Op>, out: seq<byte>)
    requires Codable(c.fmt, t) && Within(t, |out|) && HasByte(rest)
    requires Admits(c, t, |out|) && |Apply(t, out)| < 0x8000_0000 && Paced(c, g, |Apply(t, out)|, rest)
    ensures Run(c, State(Top, last, OnTape(g, TokenOps(c.fmt, last, t) + rest, out)))
         == Run(c, State(Top, LastAfter(last, t), OnTape(g, rest, Apply(t, out))))
  {
    hide Run;
    match t
    case Lit(b) => LitRun(c, g, b, last, rest, out);
    case Match(off, len) =>
      CodeRun(c, g, t, last, rest, out);
      CopyRun(c, g, t, off, rest, out);
  }

  /** The token is admitted and, for TEST_OVERLAP, what follows it is paced. */
  predicate Clears(c: Config, g: Grain, t: Token, last: nat, ts: seq<Token>, olen: nat)
    requires AllCodable(c.fmt, ts)
  {
    Admits(c, t, olen) && Paced(c, g, olen + t.Size(), Encode(c.fmt, ts, LastAfter(last, t)))
  }

  predicate Passes(c: Config, g: Grain, ts: seq<Token>, last: nat, olen: nat)
    requires AllCodable(c.fmt, ts)
  {
    ts != [] ==>
      && Clears(c, g, ts[0], last, ts[1..], olen)
      && Passes(c, g, ts[1..], LastAfter(last, ts[0]), olen + ts[0].Size())
  }

  lemma {:induction false} EncodeHasByte(fmt: Format, ts: seq<Token>, last: nat)
    requires AllCodable(fmt, ts)
    ensures HasByte(Encode(fmt, ts, last))
  {
    if ts == [] {
      var ops := EndOps(fmt);
      assert ops[|ops| - 1].Byte?;
    } else {
      EncodeHasByte(fmt, ts[1..], LastAfter(last, ts[0]));
      HasByteLater(TokenOps(fmt, last, ts[0]), Encode(fmt, ts[1..], LastAfter(last, ts[0])));
    }
  }

  /** The decoder about to read the code of `ts`. */
  function Before(g: Grain, fmt: Format, ts: seq<Token>, last: nat, out: seq<byte>): State
    requires AllCodable(fmt, ts)
  {
    State(Top, last, OnTape(g, Encode(fmt, ts, last), out))
  }

  lemma EncodeTurn(c: Config, g: Grain, t: Token, ts: seq<Token>, last: nat, out: seq<byte>)
    requires Codable(c.fmt, t) && AllCodable(c.fmt, ts) && Within(t, |out|)
    requires |out| + t.Size() < 0x8000_0000 && Clears(c, g, t, last, ts, |out|)
    ensures Run(c, State(Top, last, OnTape(g, TokenOps(c.fmt, last, t) + Encode(c.fmt, ts, LastAfter(last, t)), out)))
         == Run(c, Before(g, c.fmt, ts, LastAfter(last, t), Apply(t, out)))
  {
    hide Run;
    EncodeHasByte(c.fmt, ts, LastAfter(last, t));
    TokenRun(c, g, t, last, Encode(c.fmt, ts, LastAfter(last, t)), out);
  }

  /** Decoding the tape of a token list gives its expansion. */
  lemma {:induction false} EncodeRun(c: Config, g: Grain, ts: seq<Token>, last: nat, out: seq<byte>)
    requires Valid(c.fmt, ts, |out|) && Total(ts, |out|) < 0x8000_0000
    requires Passes(c, g, ts, last, |out|)
    ensures Run(c, Before(g, c.fmt, ts, last, out)) == Done(Ok, OnTape(g, [], Expand(ts, out)))
    decreases |ts|
  {
    hide Run;
    if ts == [] {
      EndRun(c, g, last, out);
    } else {
      EncodeTurn(c, g, ts[0], ts[1..], last, out);
      hide Clears;
      EncodeRun(c, g, ts[1..], LastAfter(last, ts[0]), Apply(ts[0], out));
    }
  }

  // --------------------------------------------------------------------- streams

  /** The compressed block for a token list. */
  function Compressed(fmt: Format, w: Width, ts: seq<Token>): seq<byte>
    requires AllCodable(fmt, ts)
  {
    Lay(w, Encode(fmt, ts, 1), 0)
  }

  function Input(w: Width, src: seq<byte>): Store { Store(w, [], 0, Split(src, [])) }

  /** A compressed block, with any bytes behind it, holds the tape of its token list. */
  lemma CompressedHolds(fmt: Format, w: Width, ts: seq<Token>, tail: seq<byte>)
    requires AllCodable(fmt, ts)
    ensures var z := Compressed(fmt, w, ts);
            Holds(Input(w, z + tail), OnTape(GrainOf(w, Encode(fmt, ts, 1)), Encode(fmt, ts, 1), []), |z|)
  {
    LayHolds(w, Encode(fmt, ts, 1), tail);
  }

  lemma LayHolds(w: Width, ops: seq<Op>, tail: seq<byte>)
    ensures Holds(Input(w, Lay(w, ops, 0) + tail), OnTape(GrainOf(w, ops), ops, []), |Lay(w, ops, 0)|)
  {
    hide Lay, Filler, Loose, ControlBits;
    FillerFills(w, ControlBits(ops));
    var z := Lay(w, ops, 0);
    assert (z + tail)[0..|z|] == z;
  }

  lemma DecodeCompressed(c: Config, w: Width, ts: seq<Token>, tail: seq<byte>)
    requires Valid(c.fmt, ts, 0) && Total(ts, 0) < 0x8000_0000
    requires c.srcLen == |Compressed(c.fmt, w, ts)| && Passes(c, GrainOf(w, Encode(c.fmt, ts, 1)), ts, 1, 0)
    requires c.mode.Overlap? ==> c.mode.oend < c.mode.gap + c.srcLen
    ensures var r := Decode(c, Input(w, Compressed(c.fmt, w, ts) + tail));
            && r.Done? && r.status == Ok && r.store.view.Split?
            && r.store.view.out == Expand(ts, []) && r.store.pos == c.srcLen
  {
    var g := GrainOf(w, Encode(c.fmt, ts, 1));
    var z := Compressed(c.fmt, w, ts);
    var s := State(Top, 1, Input(w, z + tail));
    CompressedHolds(c.fmt, w, ts, tail);
    EncodeRun(c, g, ts, 1, []);
    HoldsRun(c, s, Before(g, c.fmt, ts, 1, []));
    OkAtEnd(c, s);
  }

  lemma {:induction false} OkAtEnd(c: Config, s: State)
    requires Run(c, s).Done? && Run(c, s).status == Ok && s.store.view.Split?
    ensures Run(c, s).store.view.Split? && Run(c, s).store.pos == c.srcLen
    decreases s.store.Fuel(), Rank(s.ctl)
  {
    if Step(c, s).Go? {
      SplitStays(c, s);
      OkAtEnd(c, Step(c, s).s);
    }
  }

  lemma SplitStays(c: Config, s: State)
    requires s.store.view.Split? && Step(c, s).Go?
    ensures Step(c, s).s.store.view.Split?
  {
    if s.ctl.Copy? {
      CopyKeeps(s.store, s.ctl.off, CopyCount(FinalLen(c, s.ctl.off, s.ctl.n)));
    }
  }

  lemma {:induction false} TotalGrows(fmt: Format, ts: seq<Token>, olen: nat)
    requires AllCodable(fmt, ts) && ts != []
    ensures Total(ts, olen) > olen
  {
    if |ts| > 1 {
      TotalGrows(fmt, ts[1..], olen + ts[0].Size());
    }
  }

  predicate EndsInMatch(ts: seq<Token>) { ts != [] && ts[|ts| - 1].Match? }

  /** The output lengths that SAFE lets through. */
  lemma {:induction false} FittingPasses(c: Config, g: Grain, ts: seq<Token>, last: nat, olen: nat)
    requires Valid(c.fmt, ts, olen) && !c.mode.Overlap?
    requires c.mode.Safe? ==>
               Total(ts, olen) <= c.mode.oend || (Total(ts, olen) == c.mode.oend + 1 && EndsInMatch(ts))
    ensures Passes(c, g, ts, last, olen)
    decreases |ts|
  {
    if ts != [] {
      var rest := ts[1..];
      assert rest == [] ==> Total(rest, olen + ts[0].Size()) == Total(ts, olen);
      if rest != [] {
        assert rest[|rest| - 1] == ts[|ts| - 1];
        TotalGrows(c.fmt, rest, olen + ts[0].Size());
        FittingPasses(c, g, rest, LastAfter(last, ts[0]), olen + ts[0].Size());
      }
      hide Encode;
    }
  }

  /** The decoder inverts the compressor's coding, for every format, control word width and
      valid token list: SAFE with exactly enough room, and the fast decoder, accept the block,
      consume all of it, and give back the expansion. */
  lemma DecodeInvertsEncode(fmt: Format, w: Width, ts: seq<Token>, oend: nat, tail: seq<byte>)
    requires Valid(fmt, ts, 0) && Total(ts, 0) < 0x8000_0000 && Total(ts, 0) <= oend
    ensures forall mode | mode in {Fast, Safe(oend)} ::
              var z := Compressed(fmt, w, ts);
              var r := Decode(Config(fmt, |z|, mode), Input(w, z + tail));
              && r.Done? && r.status == Ok && r.store.view.Split?
              && r.store.view.out == Expand(ts, []) && r.store.pos == |z|
  {
    forall mode | mode in {Fast, Safe(oend)}
      ensures var z := Compressed(fmt, w, ts);
              var r := Decode(Config(fmt, |z|, mode), Input(w, z + tail));
              && r.Done? && r.status == Ok && r.store.view.Split?
              && r.store.view.out == Expand(ts, []) && r.store.pos == |z|
    {
      var c := Config(fmt, |Compressed(fmt, w, ts)|, mode);
      var g := GrainOf(w, Encode(fmt, ts, 1));
      FittingPasses(c, g, ts, 1, 0);
      DecodeCompressed(c, w, ts, tail);
    }
  }

  lemma EarlierClears(c: Config, g: Grain, ts: seq<Token>, last: nat, olen: nat)
    requires AllCodable(c.fmt, ts) && c.mode.Safe? && |ts| >= 2 && Total(ts, olen) == c.mode.oend + 1
    ensures Clears(c, g, ts[0], last, ts[1..], olen)
    ensures ts[1..][|ts[1..]| - 1] == ts[|ts| - 1] && Total(ts[1..], olen + ts[0].Size()) == c.mode.oend + 1
  {
    TotalGrows(c.fmt, ts[1..], olen + ts[0].Size());
  }

  /** The last token is a literal for which there is no room. */
  lemma {:induction false} LastLiteralFails(c: Config, g: Grain, ts: seq<Token>, last: nat, out: seq<byte>)
    requires Valid(c.fmt, ts, |out|) && Total(ts, |out|) < 0x8000_0000 && c.mode.Safe?
    requires ts != [] && ts[|ts| - 1].Lit? && Total(ts, |out|) == c.mode.oend + 1
    ensures var r := Run(c, Before(g, c.fmt, ts, last, out));
            r.Done? && r.status == OutputOverrun
    decreases |ts|
  {
    hide Run;
    var rest := ts[1..];
    if rest == [] {
      LitFails(c, g, ts[0].b, last, Encode(c.fmt, rest, last), out);
    } else {
      EarlierClears(c, g, ts, last, |out|);
      hide Clears, Encode, Codable;
      EncodeTurn(c, g, ts[0], rest, last, out);
      LastLiteralFails(c, g, rest, LastAfter(last, ts[0]), Apply(ts[0], out));
    }
  }

  lemma LitFails(c: Config, g: Grain, b: byte, last: nat, rest: seq<Op>, out: seq<byte>)
    requires c.mode.Safe? && |out| == c.mode.oend
    ensures var r := Run(c, State(Top, last, OnTape(g, [Bit(1), Byte(b)] + rest, out)));
            r == Done(OutputOverrun, OnTape(g, [Byte(b)] + rest, out))
  {
    var ops := [Byte(b)] + rest;
    assert [Bit(1), Byte(b)] + rest == [Bit(1)] + ops;
    TapeBit(c, g, Top, last, 1, ops, out);
    assert ops[0] == Byte(b);
    assert !c.Exhausted(OnTape(g, ops, out));
  }

  /** The output check of SAFE is one byte off for matches: a block decodes exactly when its
      output fits, or is one byte longer than the room and ends in a match. */
  lemma AcceptsExactly(fmt: Format, w: Width, ts: seq<Token>, oend: nat, tail: seq<byte>)
    requires Valid(fmt, ts, 0) && Total(ts, 0) < 0x8000_0000
    requires oend < 0x8000_0000 - 4 && |tail| >= w.Bytes()
    ensures var z := Compressed(fmt, w, ts);
            var r := Decode(Config(fmt, |z|, Safe(oend)), Input(w, z + tail));
            && r.Done?
            && (r.status == Ok <==> Total(ts, 0) <= oend || (Total(ts, 0) == oend + 1 && EndsInMatch(ts)))
  {
    var g := GrainOf(w, Encode(fmt, ts, 1));
    var z := Compressed(fmt, w, ts);
    var c := Config(fmt, |z|, Safe(oend));
    var s := State(Top, 1, Input(w, z + tail));
    Safety.SafeRun(c, s, s.store.view);
    if Total(ts, 0) <= oend || (Total(ts, 0) == oend + 1 && EndsInMatch(ts)) {
      FittingPasses(c, g, ts, 1, 0);
      DecodeCompressed(c, w, ts, tail);
    } else if Run(c, s).status == Ok {
      LongOutputFails(c, w, ts, tail);
    }
  }

  lemma LongOutputFails(c: Config, w: Width, ts: seq<Token>, tail: seq<byte>)
    requires Valid(c.fmt, ts, 0) && Total(ts, 0) < 0x8000_0000
    requires c.mode.Safe? && c.srcLen == |Compressed(c.fmt, w, ts)|
    requires Total(ts, 0) > c.mode.oend && !(Total(ts, 0) == c.mode.oend + 1 && EndsInMatch(ts))
    ensures var r := Run(c, State(Top, 1, Input(w, Compressed(c.fmt, w, ts) + tail)));
            r.Done? && r.status == Ok ==> r.store.Olen() > c.mode.oend + 1
  {
    var g := GrainOf(w, Encode(c.fmt, ts, 1));
    var fast := Config(c.fmt, c.srcLen, Fast);
    var s := State(Top, 1, Input(w, Compressed(c.fmt, w, ts) + tail));
    CompressedHolds(c.fmt, w, ts, tail);
    if Total(ts, 0) == c.mode.oend + 1 {
      LastLiteralFails(c, g, ts, 1, []);
      HoldsRun(c, s, Before(g, c.fmt, ts, 1, []));
    } else if Run(c, s).Done? && Run(c, s).status == Ok {
      RelaxRun(c, fast, s, Run(c, s).store);
      FittingPasses(fast, g, ts, 1, 0);
      DecodeCompressed(fast, w, ts, tail);
      ExpandLength(ts, []);
    }
  }
}
