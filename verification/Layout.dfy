/** How a list of bits and data bytes is laid out as a byte stream with control words of a
    given width, and why the decoder reads the same list back from every such stream. */
module Layout {
  import opened Nrv

  /** The value of a list of bits, most significant first. */
  function Value(q: seq<bit>): (v: nat)
    ensures v < Pow2(|q|)
  {
    if q == [] then 0 else 2 * Value(q[..|q| - 1]) + q[|q| - 1]
  }

  /** The k low bytes of v, low byte first. */
  function WordBytes(v: nat, k: nat): (s: seq<byte>)
    ensures |s| == k
  {
    if k == 0 then [] else [v % 0x100] + WordBytes(v / 0x100, k - 1)
  }

  /** The next n bits of the list, filled up with zeros. */
  function Take(ops: seq<Op>, n: nat): (q: seq<bit>)
    ensures |q| == n
    decreases |ops|, n
  {
    if n == 0 then []
    else if ops == [] then [0] + Take(ops, n - 1)
    else if ops[0].Bit? then [ops[0].b] + Take(ops[1..], n - 1)
    else Take(ops[1..], n)
  }

  /** The stream for `ops`, when the first `a` of its bits are in a control word that lies
      earlier. A control word stands where its first bit is needed. */
  function Lay(w: Width, ops: seq<Op>, a: nat): seq<byte>
  {
    if ops == [] then []
    else if ops[0].Byte? then [ops[0].x] + Lay(w, ops[1..], a)
    else if a > 0 then Lay(w, ops[1..], a - 1)
    else
      var k := w.Bytes();
      WordBytes(Value(Take(ops, 8 * k)), k) + Lay(w, ops[1..], 8 * k - 1)
  }

  lemma {:induction false} BitsOfValue(q: seq<bit>)
    ensures Bits(Value(q), |q|) == q
  {
    if q != [] {
      BitsOfValue(q[..|q| - 1]);
    }
  }

  lemma WordRoundTrip(v: nat, k: nat)
    requires k == 1 || k == 2 || k == 4
    requires v < Pow2(8 * k)
    ensures LittleEndian(WordBytes(v, k)) == v
  {
    assert Pow2(8) == 0x100;
    Pow2Add(8, 8);
    Pow2Add(16, 16);
    LittleEndianBytes(v, k);
  }

  lemma {:induction false} Pow2Add(m: nat, n: nat)
    ensures Pow2(m + n) == Pow2(m) * Pow2(n)
  {
    if m > 0 {
      Pow2Add(m - 1, n);
      assert Pow2(m) * Pow2(n) == 2 * (Pow2(m - 1) * Pow2(n));
    }
  }

  lemma {:induction false} LittleEndianBytes(v: nat, k: nat)
    ensures v < Pow2(8 * k) ==> LittleEndian(WordBytes(v, k)) == v
  {
    if k > 0 {
      Pow2Add(8, 8 * (k - 1));
      assert Pow2(8) == 0x100;
      LittleEndianBytes(v / 0x100, k - 1);
      assert WordBytes(v, k)[1..] == WordBytes(v / 0x100, k - 1);
    }
  }

  /** No data byte is left when nothing is left of the stream. */
  lemma {:induction false} LayEmpty(w: Width, ops: seq<Op>, a: nat)
    requires Lay(w, ops, a) == []
    ensures forall i | 0 <= i < |ops| :: ops[i].Bit?
  {
    if ops != [] {
      LayEmpty(w, ops[1..], if a > 0 then a - 1 else 0);
      assert ops == [ops[0]] + ops[1..];
    }
  }

  /** Control words are filled up, so a stream has at most one word more than it has bits. */
  lemma {:induction false} LayLength(w: Width, ops: seq<Op>, a: nat)
    ensures 8 * |Lay(w, ops, a)| + a <= Cost(ops) + (if a < 8 * w.Bytes() then 8 * w.Bytes() - 1 else a)
  {
    if ops != [] {
      if ops[0].Byte? {
        LayLength(w, ops[1..], a);
      } else if a > 0 {
        LayLength(w, ops[1..], a - 1);
      } else {
        LayLength(w, ops[1..], 8 * w.Bytes() - 1);
      }
    }
  }

  /** A stream is not shorter than the bits it carries. */
  lemma {:induction false} LayIsLong(w: Width, ops: seq<Op>, a: nat)
    ensures 8 * |Lay(w, ops, a)| + a >= Cost(ops)
  {
    if ops != [] {
      if ops[0].Byte? {
        LayIsLong(w, ops[1..], a);
      } else if a > 0 {
        LayIsLong(w, ops[1..], a - 1);
      } else {
        LayIsLong(w, ops[1..], 8 * w.Bytes() - 1);
      }
    }
  }

  /** How many bits of the last control word are unused after n bits. */
  function Filler(w: Width, n: nat): nat { if Loose(w, n) == 0 then 0 else 8 * w.Bytes() - Loose(w, n) }

  lemma FillerFills(w: Width, n: nat)
    ensures Filler(w, n) < 8 * w.Bytes() && Loose(w, n + Filler(w, n)) == 0
  {
    Whole8(n / 8, n % 8);
    Whole16(n / 16, n % 16);
    Whole32(n / 32, n % 32);
  }

  lemma Whole8(m: nat, r: nat)
    requires r < 8
    ensures (8 * m + r + (8 - r)) % 8 == 0
  {
  }

  lemma Whole16(m: nat, r: nat)
    requires r < 16
    ensures (16 * m + r + (16 - r)) % 16 == 0
  {
  }

  lemma Whole32(m: nat, r: nat)
    requires r < 32
    ensures (32 * m + r + (32 - r)) % 32 == 0
  {
  }

  function Fill(w: Width, ops: seq<Op>): nat { Filler(w, ControlBits(ops)) }

  lemma OneBitLess(w: Width, n: nat)
    requires n >= 1
    ensures if Loose(w, n) == 0 then
              Loose(w, n - 1) == 8 * w.Bytes() - 1 && WordsOf(w, n) == w.Bytes() + WordsOf(w, n - 1)
            else Loose(w, n - 1) == Loose(w, n) - 1 && WordsOf(w, n) == WordsOf(w, n - 1)
  {
    Step8(n);
    Step16(n);
    Step32(n);
  }

  lemma Step8(n: nat)
    requires n >= 1
    ensures if n % 8 == 0 then (n - 1) % 8 == 7 && n / 8 == 1 + (n - 1) / 8
            else (n - 1) % 8 == n % 8 - 1 && n / 8 == (n - 1) / 8
  {
  }

  lemma Step16(n: nat)
    requires n >= 1
    ensures if n % 16 == 0 then (n - 1) % 16 == 15 && n / 16 == 1 + (n - 1) / 16
            else (n - 1) % 16 == n % 16 - 1 && n / 16 == (n - 1) / 16
  {
  }

  lemma Step32(n: nat)
    requires n >= 1
    ensures if n % 32 == 0 then (n - 1) % 32 == 31 && n / 32 == 1 + (n - 1) / 32
            else (n - 1) % 32 == n % 32 - 1 && n / 32 == (n - 1) / 32
  {
  }

  /** What one unit adds to the rest. */
  lemma UnreadTurn(w: Width, fill: nat, ops: seq<Op>)
    requires ops != []
    ensures var n, rest := ControlBits(ops) + fill, Unread(w, fill, ops[1..]);
            if ops[0].Byte? then ControlBits(ops[1..]) == ControlBits(ops) && Unread(w, fill, ops) == 1 + rest
            else
              && n >= 1 && ControlBits(ops[1..]) + fill == n - 1
              && if Loose(w, n) == 0 then
                   Unread(w, fill, ops) == w.Bytes() + rest && Loose(w, n - 1) == 8 * w.Bytes() - 1
                 else Unread(w, fill, ops) == rest && Loose(w, n - 1) == Loose(w, n) - 1
  {
    hide WordsOf, Loose, DataBytes, ControlBits;
    CountTurn(ops);
    if ops[0].Bit? {
      OneBitLess(w, ControlBits(ops) + fill);
    }
  }

  lemma CountTurn(ops: seq<Op>)
    requires ops != []
    ensures DataBytes(ops) == (if ops[0].Bit? then 0 else 1) + DataBytes(ops[1..])
    ensures ControlBits(ops) == (if ops[0].Bit? then 1 else 0) + ControlBits(ops[1..])
  {
  }

  lemma NothingUnread(w: Width, fill: nat)
    requires fill < 8 * w.Bytes()
    ensures Unread(w, fill, []) == 0
  {
  }

  /** The length of what is left of a stream. */
  lemma {:induction false} LayIsUnread(w: Width, ops: seq<Op>, a: nat, fill: nat)
    requires fill < 8 * w.Bytes() && a == Loose(w, ControlBits(ops) + fill)
    ensures |Lay(w, ops, a)| == Unread(w, fill, ops)
  {
    hide Unread, ControlBits, Loose;
    if ops == [] {
      NothingUnread(w, fill);
    } else {
      UnreadTurn(w, fill, ops);
      if ops[0].Byte? {
        LayIsUnread(w, ops[1..], a, fill);
      } else if a > 0 {
        LayIsUnread(w, ops[1..], a - 1, fill);
      } else {
        LayIsUnread(w, ops[1..], 8 * w.Bytes() - 1, fill);
      }
    }
  }

  // ------------------------------------------------------------ a stream and its tape

  /** Store s holds, up to srcLen, what is left of the stream of the tape of t. */
  predicate Holds(s: Store, t: Store, srcLen: nat)
  {
    && t.view.Tape?
    && s.view.Split?
    && s.view.out == t.view.tout
    && s.pos <= srcLen <= |s.view.src|
    && t.w == s.w && t.pos < 8 * s.w.Bytes()
    && |s.queue| == Loose(s.w, ControlBits(t.view.ops) + t.pos) < 8 * s.w.Bytes()
    && s.queue == Take(t.view.ops, |s.queue|)
    && s.view.src[s.pos..srcLen] == Lay(s.w, t.view.ops, |s.queue|)
  }

  lemma HoldsBit(s: Store, t: Store, srcLen: nat)
    requires Holds(s, t, srcLen) && t.NextBit().Some?
    ensures s.NextBit().Some? && s.NextBit().value.0 == t.NextBit().value.0
    ensures Holds(s.NextBit().value.1, t.NextBit().value.1, srcLen)
  {
    hide Unread, ControlBits, Lay, Take, WordBytes, Value, Bits, LittleEndian, Loose;
    var ops := t.view.ops;
    UnreadTurn(s.w, t.pos, ops);
    LayBit(s.w, ops, |s.queue|);
    if s.queue == [] {
      var k := s.w.Bytes();
      var q := Take(ops, 8 * k);
      Behind(s.view.src, s.pos, srcLen, WordBytes(Value(q), k), Lay(s.w, ops[1..], 8 * k - 1));
      WordReads(s.w, q);
    }
  }

  /** The layout and the queue when the next unit is a bit. */
  lemma LayBit(w: Width, ops: seq<Op>, a: nat)
    requires ops != [] && ops[0].Bit? && a < 8 * w.Bytes()
    ensures a > 0 ==> Lay(w, ops, a) == Lay(w, ops[1..], a - 1) && Take(ops, a) == [ops[0].b] + Take(ops[1..], a - 1)
    ensures var k := w.Bytes();
            && Take(ops, 8 * k) == [ops[0].b] + Take(ops[1..], 8 * k - 1)
            && (a == 0 ==> Lay(w, ops, a) == WordBytes(Value(Take(ops, 8 * k)), k) + Lay(w, ops[1..], 8 * k - 1))
  {
    hide WordBytes, Value;
  }

  lemma Behind(src: seq<byte>, pos: nat, srcLen: nat, word: seq<byte>, rest: seq<byte>)
    requires pos <= srcLen <= |src| && src[pos..srcLen] == word + rest
    ensures pos + |word| <= srcLen && src[pos..pos + |word|] == word && src[pos + |word|..srcLen] == rest
  {
    assert src[pos..srcLen][..|word|] == word && src[pos..srcLen][|word|..] == rest;
  }

  lemma WordReads(w: Width, q: seq<bit>)
    requires |q| == 8 * w.Bytes()
    ensures |WordBytes(Value(q), w.Bytes())| == w.Bytes()
    ensures Bits(LittleEndian(WordBytes(Value(q), w.Bytes())), 8 * w.Bytes()) == q
  {
    WordRoundTrip(Value(q), w.Bytes());
    BitsOfValue(q);
  }

  lemma HoldsByte(s: Store, t: Store, srcLen: nat)
    requires Holds(s, t, srcLen) && t.NextByte().Some?
    ensures s.NextByte().Some? && s.NextByte().value.0 == t.NextByte().value.0
    ensures Holds(s.NextByte().value.1, t.NextByte().value.1, srcLen)
  {
    var ops := t.view.ops;
    var rest := Lay(s.w, ops[1..], |s.queue|);
    var src := s.view.src;
    assert src[s.pos..srcLen] == [ops[0].x] + rest;
    assert src[s.pos] == src[s.pos..srcLen][0];
    assert src[s.pos + 1..srcLen] == src[s.pos..srcLen][1..] == rest;
  }

  lemma HoldsChecks(s: Store, t: Store, c: Config)
    requires Holds(s, t, c.srcLen)
    ensures s.Olen() == t.Olen()
    ensures c.Exhausted(s) ==> c.Exhausted(t)
    ensures c.Clobbers(s) <==> c.Clobbers(t)
    ensures t.Finish(c.srcLen) == Ok ==> s.Finish(c.srcLen) == Ok
  {
    if s.pos >= c.srcLen {
      LayEmpty(s.w, t.view.ops, |s.queue|);
    }
    LayIsUnread(s.w, t.view.ops, |s.queue|, t.pos);
    assert c.srcLen - s.pos == |Lay(s.w, t.view.ops, |s.queue|)|;
  }

  lemma {:induction false} HoldsCopy(s: Store, t: Store, srcLen: nat, off: nat, n: nat)
    requires Holds(s, t, srcLen) && CopyMatch(t, off, n).Some?
    ensures CopyMatch(s, off, n).Some?
    ensures Holds(CopyMatch(s, off, n).value, CopyMatch(t, off, n).value, srcLen)
    decreases n
  {
    hide Lay, Take, Loose, ControlBits;
    if n > 0 {
      var b := t.view.Look(off).value;
      HoldsCopy(s.Put(b).value, t.Put(b).value, srcLen, off, n - 1);
    }
  }

  lemma HoldsStep(c: Config, s: State, t: State)
    requires s.ctl == t.ctl && s.last == t.last && Holds(s.store, t.store, c.srcLen)
    requires Step(c, t).Go?
    ensures Step(c, s).Go?
    ensures Step(c, s).s.ctl == Step(c, t).s.ctl && Step(c, s).s.last == Step(c, t).s.last
    ensures Holds(Step(c, s).s.store, Step(c, t).s.store, c.srcLen)
  {
    hide Lay, Take, Loose, ControlBits;
    HoldsChecks(s.store, t.store, c);
    if s.ctl.ReadsBit() {
      HoldsBit(s.store, t.store, c.srcLen);
      var (b, t') := t.store.NextBit().value;
      var s' := s.store.NextBit().value.1;
      HoldsChecks(s', t', c);
      AfterBitGoes(c, s.ctl, s.last, b, s', t');
    } else if s.ctl.Copy? {
      HoldsTransfer(c, s.ctl.off, FinalLen(c, s.ctl.off, s.ctl.n), s.last, s.store, t.store);
    } else {
      HoldsByte(s.store, t.store, c.srcLen);
    }
  }

  lemma HoldsTransfer(c: Config, off: nat, n: nat, last: nat, s: Store, t: Store)
    requires Holds(s, t, c.srcLen)
    requires Transfer(c, off, n, last, t).Go?
    ensures Transfer(c, off, n, last, s).Go?
    ensures Transfer(c, off, n, last, s).s.ctl == Top && Transfer(c, off, n, last, s).s.last == last
    ensures Holds(Transfer(c, off, n, last, s).s.store, Transfer(c, off, n, last, t).s.store, c.srcLen)
  {
    var n' := CopyCount(n);
    HoldsCopy(s, t, c.srcLen, off, n');
    HoldsChecks(CopyMatch(s, off, n').value, CopyMatch(t, off, n').value, c);
    HoldsChecks(s, t, c);
  }

  lemma AfterBitGoes(c: Config, ctl: Ctl, last: nat, b: bit, s: Store, t: Store)
    requires ctl.ReadsBit() && (c.Exhausted(s) ==> c.Exhausted(t))
    requires AfterBit(c, ctl, last, b, t).Go?
    ensures AfterBit(c, ctl, last, b, s) == Go(AfterBit(c, ctl, last, b, t).s.(store := s))
  {
  }

  lemma HoldsHalt(c: Config, s: State, t: State)
    requires s.ctl == t.ctl && s.last == t.last && Holds(s.store, t.store, c.srcLen)
    requires Step(c, t).Halt? && Step(c, t).status in {Ok, OutputOverrun, OverlapOverrun}
    ensures Step(c, s).Halt? && Step(c, s).status == Step(c, t).status
    ensures Holds(Step(c, s).store, Step(c, t).store, c.srcLen)
  {
    hide Lay, Take, Loose, ControlBits;
    HoldsChecks(s.store, t.store, c);
    if s.ctl.ReadsBit() {
      HoldsBit(s.store, t.store, c.srcLen);
      HoldsChecks(s.store.NextBit().value.1, t.store.NextBit().value.1, c);
    } else if s.ctl.Copy? {
      var n := CopyCount(FinalLen(c, s.ctl.off, s.ctl.n));
      if CopyMatch(t.store, s.ctl.off, n).Some? {
        HoldsCopy(s.store, t.store, c.srcLen, s.ctl.off, n);
        HoldsChecks(CopyMatch(s.store, s.ctl.off, n).value, CopyMatch(t.store, s.ctl.off, n).value, c);
      }
    }
  }

  /** The decoder does the same on a stream as on its tape, on success and when the output
      would be too long. */
  lemma {:induction false} HoldsRun(c: Config, s: State, t: State)
    requires s.ctl == t.ctl && s.last == t.last && Holds(s.store, t.store, c.srcLen)
    requires Run(c, t).Done? && Run(c, t).status in {Ok, OutputOverrun, OverlapOverrun}
    ensures Run(c, s).Done? && Run(c, s).status == Run(c, t).status
    ensures Holds(Run(c, s).store, Run(c, t).store, c.srcLen)
    decreases t.store.Fuel(), Rank(t.ctl)
  {
    if Step(c, t).Go? {
      HoldsStep(c, s, t);
      HoldsRun(c, Step(c, s).s, Step(c, t).s);
    } else {
      HoldsHalt(c, s, t);
    }
  }
}
