/** The output side of the compressor: the bit buffer that reserves a control word where its
    first bit is needed, the two prefix codes, and the coding of runs and matches. */
module Compressor {
  import opened Nrv
  import opened BitBuffer
  import opened Layout
  import opened PrefixCode
  import opened Tokens
  import opened RoundTrip

  /** The finished stream, when `fut` is still to be put: the reserved word at p gets the k
      bits of b and the next bits of `fut`. */
  function Finish(w: Width, out: seq<byte>, p: nat, k: nat, b: nat, fut: seq<Op>): seq<byte>
    requires k <= 8 * w.Bytes() && (k > 0 ==> p + w.Bytes() <= |out|)
  {
    if k == 0 then out + Lay(w, fut, 0)
    else
      var free := 8 * w.Bytes() - k;
      out[..p] + WordBytes(Value(Bits(b, k) + Take(fut, free)), w.Bytes()) + out[p + w.Bytes()..]
      + Lay(w, fut, free)
  }

  lemma {:induction false} ValueOfBits(v: nat, n: nat)
    requires v < Pow2(n)
    ensures Value(Bits(v, n)) == v
  {
    if n > 0 {
      ValueOfBits(v / 2, n - 1);
      assert Bits(v, n)[..n - 1] == Bits(v / 2, n - 1);
    }
  }

  /** One bit more at the front of what is still to be put. */
  lemma PutFirst(w: Width, x: bit, fut: seq<Op>, n: nat)
    ensures Take([Bit(x)] + fut, n + 1) == [x] + Take(fut, n)
    ensures Lay(w, [Bit(x)] + fut, n + 1) == Lay(w, fut, n)
    ensures Lay(w, [Bit(x)] + fut, 0)
         == WordBytes(Value(Take([Bit(x)] + fut, 8 * w.Bytes())), w.Bytes()) + Lay(w, fut, 8 * w.Bytes() - 1)
  {
    assert ([Bit(x)] + fut)[1..] == fut;
  }

  lemma BitsShift(b: nat, k: nat, x: bit)
    ensures Bits(2 * b + x, k + 1) == Bits(b, k) + [x]
  {
  }

  /** A bit into a word with room. */
  lemma FinishShift(w: Width, out: seq<byte>, p: nat, k: nat, b: nat, x: bit, fut: seq<Op>)
    requires 0 < k < 8 * w.Bytes() && p + w.Bytes() <= |out|
    ensures Finish(w, out, p, k + 1, 2 * b + x, fut) == Finish(w, out, p, k, b, [Bit(x)] + fut)
  {
    hide Lay, Take, Value, Bits, WordBytes;
    var free := 8 * w.Bytes() - k;
    PutFirst(w, x, fut, free - 1);
    BitsShift(b, k, x);
    assert Bits(2 * b + x, k + 1) + Take(fut, free - 1) == Bits(b, k) + Take([Bit(x)] + fut, free);
  }

  /** The first bit of all reserves a word. */
  lemma FinishReserve(w: Width, out: seq<byte>, hole: seq<byte>, x: bit, fut: seq<Op>)
    requires |hole| == w.Bytes()
    ensures Finish(w, out + hole, |out|, 1, x, fut) == Finish(w, out, 0, 0, 0, [Bit(x)] + fut)
  {
    PutFirst(w, x, fut, 8 * w.Bytes() - 1);
    assert Bits(x, 1) == [x];
    hide Lay, Take, Value, Bits, WordBytes;
    assert (out + hole)[..|out|] == out && (out + hole)[|out| + w.Bytes()..] == [];
  }

  /** Both cases of a bit for which the current word has room. */
  lemma FinishPut(w: Width, out: seq<byte>, p: nat, k: nat, b: nat, hole: seq<byte>, x: bit, fut: seq<Op>)
    requires k < 8 * w.Bytes() && (k > 0 ==> p + w.Bytes() <= |out|) && b < Pow2(k)
    requires |hole| == if k == 0 then w.Bytes() else 0
    ensures Finish(w, out + hole, if k == 0 then |out| else p, k + 1, 2 * b + x, fut)
         == Finish(w, out, p, k, b, [Bit(x)] + fut)
  {
    if k == 0 {
      FinishReserve(w, out, hole, x, fut);
      hide Lay, Take, Value, Bits;
    } else {
      hide Finish;
      assert out + hole == out;
      FinishShift(w, out, p, k, b, x, fut);
    }
  }

  /** A bit when the word is full: the word is written, and the next one reserved. */
  lemma FinishFull(w: Width, out: seq<byte>, p: nat, b: nat, hole: seq<byte>, x: bit, fut: seq<Op>)
    requires p + w.Bytes() <= |out| && |hole| == w.Bytes() && b < Pow2(8 * w.Bytes())
    ensures var written := out[..p] + WordBytes(b, w.Bytes()) + out[p + w.Bytes()..];
            Finish(w, written + hole, |out|, 1, x, fut) == Finish(w, out, p, 8 * w.Bytes(), b, [Bit(x)] + fut)
  {
    var written := out[..p] + WordBytes(b, w.Bytes()) + out[p + w.Bytes()..];
    var bits := Bits(b, 8 * w.Bytes());
    FinishReserve(w, written, hole, x, fut);
    ValueOfBits(b, 8 * w.Bytes());
    assert bits + Take([Bit(x)] + fut, 0) == bits;
  }

  /** A data byte goes behind everything that is reserved. */
  lemma FinishByte(w: Width, out: seq<byte>, p: nat, k: nat, b: nat, x: byte, fut: seq<Op>)
    requires k <= 8 * w.Bytes() && (k > 0 ==> p + w.Bytes() <= |out|)
    ensures Finish(w, out + [x], p, k, b, fut) == Finish(w, out, p, k, b, [Byte(x)] + fut)
  {
    hide Value, Bits, WordBytes;
    var ops := [Byte(x)] + fut;
    assert ops[1..] == fut;
    if k > 0 {
      var free := 8 * w.Bytes() - k;
      assert Take(ops, free) == Take(fut, free) && Lay(w, ops, free) == [x] + Lay(w, fut, free);
      hide Take, Lay;
      assert (out + [x])[..p] == out[..p];
      assert (out + [x])[p + w.Bytes()..] == out[p + w.Bytes()..] + [x];
    }
  }

  /** What the finishing of a new state says, when it puts one unit more than the old one. */
  lemma Extends(w: Width, out0: seq<byte>, p0: nat, k0: nat, b0: nat,
                out1: seq<byte>, p1: nat, k1: nat, b1: nat, ops: seq<Op>, op: Op)
    requires k0 <= 8 * w.Bytes() && (k0 > 0 ==> p0 + w.Bytes() <= |out0|)
    requires k1 <= 8 * w.Bytes() && (k1 > 0 ==> p1 + w.Bytes() <= |out1|)
    requires forall fut: seq<Op> :: Finish(w, out0, p0, k0, b0, fut) == Lay(w, ops + fut, 0)
    requires forall fut: seq<Op> :: Finish(w, out1, p1, k1, b1, fut) == Finish(w, out0, p0, k0, b0, [op] + fut)
    ensures forall fut: seq<Op> :: Finish(w, out1, p1, k1, b1, fut) == Lay(w, (ops + [op]) + fut, 0)
  {
    forall fut: seq<Op>
      ensures Finish(w, out1, p1, k1, b1, fut) == Lay(w, (ops + [op]) + fut, 0)
    {
      assert ops + ([op] + fut) == (ops + [op]) + fut;
    }
  }

  lemma {:induction false} Pow2Grows(m: nat, n: nat)
    requires m <= n
    ensures Pow2(m) <= Pow2(n)
  {
    if m < n {
      Pow2Grows(m, n - 1);
    }
  }

  /** The buffer of a word with room does not wrap. */
  lemma ShiftFits(b: uint32, k: nat, x: bit)
    requires b < Pow2(k) && k < 32
    ensures U32(b * 2 + x) == 2 * b + x < Pow2(k + 1)
  {
    Pow32();
    Pow2Grows(k + 1, 32);
  }

  lemma WordBytesAre(b: uint32)
    ensures WordBytes(b, 1) == [b % 0x100]
    ensures WordBytes(b, 2) == [b % 0x100, b / 0x100 % 0x100]
    ensures WordBytes(b, 4) == [b % 0x100, b / 0x100 % 0x100, b / 0x1_0000 % 0x100, b / 0x100_0000 % 0x100]
  {
    assert b / 0x100 / 0x100 == b / 0x1_0000 && b / 0x1_0000 / 0x100 == b / 0x100_0000;
  }

  /** x & y. */
  function And(x: nat, y: nat): nat
  {
    if x == 0 || y == 0 then 0 else x % 2 * (y % 2) + 2 * And(x / 2, y / 2)
  }

  /** (x & y) ? 1 : 0. */
  function Selected(x: nat, y: nat): bit { if And(x, y) != 0 then 1 else 0 }

  /** A mask of one bit selects that bit. */
  lemma {:induction false} AndPow2(v: nat, e: nat)
    ensures And(v, Pow2(e)) != 0 <==> ShiftRight(v, e) % 2 == 1
  {
    if v == 0 {
      ShiftZero(e);
    } else if e > 0 {
      AndPow2(v / 2, e - 1);
    }
  }

  lemma {:induction false} ShiftZero(e: nat)
    ensures ShiftRight(0, e) == 0
  {
    if e > 0 {
      ShiftZero(e - 1);
    }
  }

  lemma {:induction false} ShiftOnce(v: nat, e: nat)
    ensures ShiftRight(v, e + 1) == ShiftRight(v, e) / 2
  {
    if e > 0 {
      ShiftOnce(v / 2, e - 1);
    }
  }

  lemma {:induction false} ShiftOfTop(v: nat, e: nat)
    ensures v < Pow2(e) ==> ShiftRight(v, e) == 0
    ensures Pow2(e) <= v < Pow2(e + 1) ==> ShiftRight(v, e) == 1
  {
    if e > 0 {
      ShiftOfTop(v / 2, e - 1);
    }
  }

  /** The part of UCL_COMPRESS_T that coding uses. The buffer that bb_op points to the end of
      is a sequence here; a reserved word holds zeros until it is written. */
  class Output {
    const fmt: Format
    const w: Width
    const max_match: uint32
    var out: seq<byte>
    var bb_b: uint32
    var bb_k: nat
    var bb_p: nat
    var last_m_off: nat
    ghost var emitted: seq<Op>

    /** Whatever is put after it, the stream will be that of everything put so far and of it. */
    ghost predicate Valid()
      reads this`out, this`bb_b, this`bb_k, this`bb_p, this`emitted
    {
      && max_match >= 8
      && bb_k <= 8 * w.Bytes()
      && (bb_k > 0 ==> bb_p + w.Bytes() <= |out|)
      && bb_b < Pow2(bb_k)
      && forall fut: seq<Op> :: Finish(w, out, bb_p, bb_k, bb_b, fut) == Lay(w, emitted + fut, 0)
    }

    /** bbConfig, and the start of ucl_nrv_99_compress. */
    constructor (fmt: Format, w: Width, max_match: uint32)
      requires max_match >= 8
      ensures Valid() && emitted == [] && last_m_off == 1
      ensures this.fmt == fmt && this.w == w && this.max_match == max_match
    {
      this.fmt, this.w, this.max_match := fmt, w, max_match;
      out, bb_b, bb_k, bb_p, last_m_off := [], 0, 0, 0, 1;
      emitted := [];
      new;
      forall fut: seq<Op>
        ensures Finish(w, out, bb_p, bb_k, bb_b, fut) == Lay(w, emitted + fut, 0)
      {
        assert emitted + fut == fut;
      }
    }

    /** bbWriteBits. */
    method WriteBits()
      requires bb_k == 8 * w.Bytes() && bb_p + w.Bytes() <= |out|
      modifies this`out
      ensures out == old(out)[..bb_p] + WordBytes(bb_b, w.Bytes()) + old(out)[bb_p + w.Bytes()..]
    {
      out := out[bb_p := bb_b % 0x100];
      if w != W8 {
        out := out[bb_p + 1 := bb_b / 0x100 % 0x100];
        if w == W32 {
          out := out[bb_p + 2 := bb_b / 0x1_0000 % 0x100];
          out := out[bb_p + 3 := bb_b / 0x100_0000 % 0x100];
        }
      }
      WordBytesAre(bb_b);
    }

    /** bbPutBit while the control word has room; the very first bit reserves a word. */
    method PutBitInWord(bit: bit)
      requires Valid() && bb_k < 8 * w.Bytes()
      modifies this`out, this`bb_b, this`bb_k, this`bb_p, this`emitted
      ensures Valid() && emitted == old(emitted) + [Bit(bit)] && bb_k == old(bb_k) + 1
    {
      hide Finish;
      ghost var out0, p0, k0, b0 := out, bb_p, bb_k, bb_b;
      ShiftFits(bb_b, bb_k, bit);
      if bb_k == 0 {
        bb_p := |out|;
        out := out + seq(w.Bytes(), _ => 0);
      }
      bb_b := U32(bb_b * 2 + bit);
      bb_k := bb_k + 1;
      ghost var hole := out[|out0|..];
      assert out == out0 + hole;
      forall fut: seq<Op>
        ensures Finish(w, out, bb_p, bb_k, bb_b, fut) == Finish(w, out0, p0, k0, b0, [Bit(bit)] + fut)
      {
        FinishPut(w, out0, p0, k0, b0, hole, bit, fut);
      }
      Extends(w, out0, p0, k0, b0, out, bb_p, bb_k, bb_b, emitted, Bit(bit));
      emitted := emitted + [Bit(bit)];
    }

    /** bbPutBit when the control word is full. */
    method PutBitInNextWord(bit: bit)
      requires Valid() && bb_k == 8 * w.Bytes()
      modifies this`out, this`bb_b, this`bb_k, this`bb_p, this`emitted
      ensures Valid() && emitted == old(emitted) + [Bit(bit)] && bb_k > 0
    {
      hide Finish;
      ghost var out0, p0, b0 := out, bb_p, bb_b;
      WriteBits();
      ghost var written := out;
      ghost var hole: seq<byte> := seq(w.Bytes(), _ => 0);
      bb_p := |out|;
      out := out + seq(w.Bytes(), _ => 0);
      bb_b := bit;
      bb_k := 1;
      assert out == written + hole;
      forall fut: seq<Op>
        ensures Finish(w, out, bb_p, bb_k, bb_b, fut) == Finish(w, out0, p0, 8 * w.Bytes(), b0, [Bit(bit)] + fut)
      {
        FinishFull(w, out0, p0, b0, hole, bit, fut);
      }
      Extends(w, out0, p0, 8 * w.Bytes(), b0, out, bb_p, bb_k, bb_b, emitted, Bit(bit));
      emitted := emitted + [Bit(bit)];
    }

    /** bbPutBit. */
    method PutBit(bit: bit)
      requires Valid()
      modifies this`out, this`bb_b, this`bb_k, this`bb_p, this`emitted
      ensures Valid() && emitted == old(emitted) + [Bit(bit)] && bb_k > 0
    {
      if bb_k < 8 * w.Bytes() {
        PutBitInWord(bit);
      } else {
        PutBitInNextWord(bit);
      }
    }

    /** bbPutByte. */
    method PutByte(x: byte)
      requires Valid()
      modifies this`out, this`emitted
      ensures Valid() && emitted == old(emitted) + [Byte(x)]
    {
      ghost var out0 := out;
      out := out + [x];
      forall fut: seq<Op>
        ensures Finish(w, out, bb_p, bb_k, bb_b, fut) == Finish(w, out0, bb_p, bb_k, bb_b, [Byte(x)] + fut)
      {
        FinishByte(w, out0, bb_p, bb_k, bb_b, x, fut);
      }
      Extends(w, out0, bb_p, bb_k, bb_b, out, bb_p, bb_k, bb_b, emitted, Byte(x));
      emitted := emitted + [Byte(x)];
    }

    /** bbFlushBits with filler bits of zero: the output is the stream of what was put. */
    method FlushBits()
      requires Valid()
      modifies this`out, this`bb_b, this`bb_k, this`bb_p, this`emitted
      ensures out == Lay(w, old(emitted), 0) && bb_k == 0
    {
      hide Finish;
      ghost var ops := emitted;
      assert emitted + [] == emitted;
      FinishNothing(w, out, bb_p, bb_k, bb_b);
      if bb_k > 0 {
        while bb_k != 8 * w.Bytes()
          invariant Valid() && bb_k > 0 && Lay(w, emitted, 0) == Lay(w, ops, 0)
          decreases 8 * w.Bytes() - bb_k
        {
          assert emitted + [] == emitted;
          FinishFiller(w, out, bb_p, bb_k, bb_b);
          PutBitInWord(0);
        }
        assert emitted + [] == emitted;
        FinishWhole(w, out, bb_p, bb_b);
        WriteBits();
        bb_k := 0;
      }
    }

    method PutBits(b1: bit, b2: bit)
      requires Valid()
      modifies this`out, this`bb_b, this`bb_k, this`bb_p, this`emitted
      ensures Valid() && emitted == old(emitted) + [Bit(b1), Bit(b2)]
    {
      PutBit(b1);
      PutBit(b2);
    }

    /** The body of the loop of code_prefix_ss11. */
    method NarrowTurn(i: nat, t0: nat) returns (t: nat)
      requires Valid() && t0 >= 2
      modifies this`out, this`bb_b, this`bb_k, this`bb_p, this`emitted
      ensures Valid() && t == t0 / 2 && emitted == old(emitted) + [Bit(Selected(i, t)), Bit(0)]
    {
      t := t0 / 2;
      PutBits(Selected(i, t), 0);
    }

    /** code_prefix_ss11: the bits above the last one. */
    method HighBits11(i: uint32)
      requires Valid() && 4 <= i < 0x8000_0000
      modifies this`out, this`bb_b, this`bb_k, this`bb_p, this`emitted
      ensures Valid() && emitted == old(emitted) + Path(false, i / 2)
    {
      assert Path(false, 1) == [];
      hide Path, Valid, Pow2, ShiftRight, Selected;
      var t, e := TopBit(i);
      ShiftOfTop(i, e);
      while t > 2
        invariant Valid() && e >= 1 && t == Pow2(e) && ShiftRight(i, e) >= 1
        invariant emitted == old(emitted) + Path(false, ShiftRight(i, e))
        decreases e
      {
        NarrowStep(i, e);
        t := NarrowTurn(i, t);
        e := e - 1;
      }
      NarrowEnd(i, e);
    }

    /** code_prefix_ss11. */
    method CodePrefix11(i0: uint32)
      requires Valid() && i0 + 2 < 0x8000_0000
      modifies this`out, this`bb_b, this`bb_k, this`bb_p, this`emitted
      ensures Valid() && emitted == old(emitted) + Code(false, i0 + 2)
    {
      hide Valid;
      var i := i0;
      if i >= 2 {
        i := i + 2;
        HighBits11(i);
      }
      PutBits(i % 2, 1);
    }

    /** The body of the loop of code_prefix_ss12. */
    method WideTurn(i: nat, t0: nat, ghost j: nat) returns (t: nat)
      requires Valid() && j >= 1 && t0 == Pow2(2 * j + 1)
      modifies this`out, this`bb_b, this`bb_k, this`bb_p, this`emitted
      ensures Valid() && t == Pow2(2 * j - 1)
      ensures emitted == old(emitted)
                         + [Bit(Selected(i, Pow2(2 * j))), Bit(0), Bit(Selected(i, Pow2(2 * j - 1)))]
    {
      t := t0 / 2;
      assert t == Pow2(2 * j) == 2 * Pow2(2 * j - 1);
      PutBits(Selected(i, t), 0);
      t := t / 2;
      PutBit(Selected(i, t));
    }

    /** code_prefix_ss12: the bits above the last one, and what is left of i. */
    method HighBits12(i0: uint32) returns (i: nat)
      requires Valid() && 2 <= i0 < 0x2000_0000
      modifies this`out, this`bb_b, this`bb_k, this`bb_p, this`emitted
      ensures Valid() && emitted == old(emitted) + Path(true, i0 / 2 + 1) && i % 2 == i0 % 2
    {
      hide Valid, Pow2, WideHead, Path, Level, Selected;
      var t: nat;
      ghost var k: nat, j: nat;
      i, t, k := LevelOf(i0);
      j := k;
      WideStart(i0, i, k);
      while t > 2
        invariant Valid() && j <= k && t == Pow2(2 * j + 1)
        invariant emitted == old(emitted) + WideHead(i, j, k - j)
        decreases j
      {
        WideStep(i, j, k - j);
        t := WideTurn(i, t, j);
        j := j - 1;
      }
      WideDone(j);
    }

    /** code_prefix_ss12. */
    method CodePrefix12(i0: uint32)
      requires Valid() && i0 < 0x2000_0000
      modifies this`out, this`bb_b, this`bb_k, this`bb_p, this`emitted
      ensures Valid() && emitted == old(emitted) + Code(true, i0 + 2)
    {
      hide Valid;
      var i: nat := i0;
      if i >= 2 {
        i := HighBits12(i0);
      }
      PutBits(i % 2, 1);
    }

    /** The loop that subtracts the sizes of the levels below that of i. */
    method LevelOf(i0: uint32) returns (i: nat, t: nat, ghost k: nat)
      requires 2 <= i0 < 0x2000_0000
      ensures t == Pow2(2 * k + 1) && i < t && i + Level(true, k) == i0 + 2
    {
      i, t, k := i0, 2, 0;
      while true
        invariant t == Pow2(2 * k + 1) && t <= i && i + Level(true, k) == i0 + 2
        decreases i
      {
        LevelSize(k);
        i := i - t;
        t := t * 4;
        k := k + 1;
        assert Pow2(2 * k + 1) == 4 * Pow2(2 * k - 1);
        if i < t {
          return;
        }
      }
    }

    /** The loop that finds the power of two at the top of i. */
    method TopBit(i: uint32) returns (t: nat, ghost e: nat)
      requires 4 <= i < 0x8000_0000
      ensures e >= 1 && t == Pow2(e) && t <= i < 2 * t
    {
      t, e := 8, 3;
      while i >= t
        invariant e >= 3 && t == Pow2(e) && t / 2 <= i
        decreases 2 * i - t
      {
        t, e := t * 2, e + 1;
      }
      t, e := t / 2, e - 1;
    }

    /** The offset part of code_match for NRV2B, with the first bit of the length. */
    method CodeOffset2b(m_off: nat, low: bit)
      requires Valid() && fmt.Nrv2b? && 1 <= m_off < 0x8000_0000
      modifies this`out, this`bb_b, this`bb_k, this`bb_p, this`emitted
      ensures Valid() && emitted == old(emitted) + OffsetOps(fmt, last_m_off, m_off, low)
    {
      hide Valid;
      if m_off == last_m_off {
        PutBits(0, 1);
      } else {
        CodePrefix11(1 + (m_off - 1) / 0x100);
        PutByte((m_off - 1) % 0x100);
      }
      PutBit(low);
      hide Code;
    }

    /** The offset part of code_match for NRV2D and NRV2E; the first bit of the length goes
        into the data byte, inverted, or after a repeated offset. */
    method CodeOffset2d(m_off: nat, low: bit)
      requires Valid() && !fmt.Nrv2b? && 1 <= m_off < 0x8000_0000
      modifies this`out, this`bb_b, this`bb_k, this`bb_p, this`emitted
      ensures Valid() && emitted == old(emitted) + OffsetOps(fmt, last_m_off, m_off, low)
    {
      hide Valid;
      if m_off == last_m_off {
        PutBits(0, 1);
        PutBit(low);
      } else {
        CodePrefix12(1 + (m_off - 1) / 0x80);
        PutByte((m_off - 1) % 0x80 * 2 + 1 - low);
      }
      hide Code;
    }

    /** The length part of code_match for NRV2B and NRV2D. */
    method CodeLen2b(m_len: nat)
      requires Valid() && !fmt.Nrv2e? && 1 <= m_len < 0x8000_0000
      modifies this`out, this`bb_b, this`bb_k, this`bb_p, this`emitted
      ensures Valid() && emitted == old(emitted) + LenTail(fmt, m_len)
    {
      hide Valid;
      var m_low := if m_len >= 4 then 0 else m_len;
      PutBit(m_low % 2);
      if m_len >= 4 {
        CodePrefix11(m_len - 4);
      }
      hide Code;
    }

    /** The length part of code_match for NRV2E. */
    method CodeLen2e(m_len: nat)
      requires Valid() && fmt.Nrv2e? && 1 <= m_len < 0x8000_0000
      modifies this`out, this`bb_b, this`bb_k, this`bb_p, this`emitted
      ensures Valid() && emitted == old(emitted) + LenTail(fmt, m_len)
    {
      hide Valid;
      if m_len <= 2 {
        PutBit(m_len - 1);
      } else if m_len <= 4 {
        PutBits(1, m_len - 3);
      } else {
        PutBit(0);
        CodePrefix11(m_len - 5);
      }
      hide Code;
    }

    /** code_match, which calls itself for what is too long. */
    method CodeMatch(len: nat, m_off: nat)
      requires Valid() && Codable(fmt, Match(m_off, len)) && m_off < 0x8000_0000 && len < 0x8000_0000
      modifies this`out, this`bb_b, this`bb_k, this`bb_p, this`emitted, this`last_m_off
      ensures Valid() && last_m_off == m_off
      ensures emitted == old(emitted) + PartsOps(fmt, old(last_m_off), Match(m_off, len), max_match)
      decreases len
    {
      hide Valid, TokenOps, PartsOps, Codable;
      HasLimit();
      var m_len: nat := len;
      ghost var whole := emitted + PartsOps(fmt, last_m_off, Match(m_off, len), max_match);
      while m_len > max_match
        invariant Valid() && m_len <= len && Codable(fmt, Match(m_off, m_len))
        invariant emitted + PartsOps(fmt, last_m_off, Match(m_off, m_len), max_match) == whole
      {
        PartsTurn(fmt, last_m_off, m_off, m_len, max_match);
        ghost var ops := PartsOps(fmt, m_off, Match(m_off, m_len - (max_match - 3)), max_match);
        LeftGroup(emitted, TokenOps(fmt, last_m_off, Match(m_off, max_match - 3)), ops);
        CodeMatch(max_match - 3, m_off);
        m_len := m_len - (max_match - 3);
      }
      PartsEnd(fmt, last_m_off, m_off, m_len, max_match);
      CodePart(m_len, m_off);
    }

    lemma HasLimit()
      requires Valid()
      ensures max_match >= 8
    {
    }

    /** One match that is not too long. */
    method CodePart(len: nat, m_off: nat)
      requires Valid() && Codable(fmt, Match(m_off, len)) && m_off < 0x8000_0000 && len < 0x8000_0000
      modifies this`out, this`bb_b, this`bb_k, this`bb_p, this`emitted, this`last_m_off
      ensures Valid() && last_m_off == m_off
      ensures emitted == old(emitted) + TokenOps(fmt, old(last_m_off), Match(m_off, len))
    {
      hide Valid, OffsetOps, LenTail, TokenOps, CodedLen;
      MatchOps(fmt, last_m_off, m_off, len);
      CodeOffsetAndLen(m_off, len - 1 - if m_off > Near(fmt) then 1 else 0);
      last_m_off := m_off;
    }

    method CodeOffsetAndLen(m_off: nat, m_len: nat)
      requires Valid() && 1 <= m_off < 0x8000_0000 && 1 <= m_len < 0x8000_0000
      modifies this`out, this`bb_b, this`bb_k, this`bb_p, this`emitted
      ensures Valid()
      ensures emitted == old(emitted)
                         + ([Bit(0)] + OffsetOps(fmt, last_m_off, m_off, LowBit(fmt, m_len)) + LenTail(fmt, m_len))
    {
      hide Valid, OffsetOps, LenTail, LowBit;
      Regroup(emitted, [Bit(0)], OffsetOps(fmt, last_m_off, m_off, LowBit(fmt, m_len)), LenTail(fmt, m_len));
      PutBit(0);
      CodeOffset(m_off, m_len);
      if fmt.Nrv2e? {
        CodeLen2e(m_len);
      } else {
        CodeLen2b(m_len);
      }
    }

    method CodeOffset(m_off: nat, m_len: nat)
      requires Valid() && 1 <= m_off < 0x8000_0000 && m_len >= 1
      modifies this`out, this`bb_b, this`bb_k, this`bb_p, this`emitted
      ensures Valid() && emitted == old(emitted) + OffsetOps(fmt, last_m_off, m_off, LowBit(fmt, m_len))
    {
      hide Valid, OffsetOps;
      if fmt.Nrv2b? {
        CodeOffset2b(m_off, if 1 < m_len < 4 then 1 else 0);
      } else if fmt.Nrv2d? {
        CodeOffset2d(m_off, if 1 < m_len < 4 then 1 else 0);
      } else {
        CodeOffset2d(m_off, if m_len <= 2 then 1 else 0);
      }
    }

    /** A literal of code_run, or a match. */
    method CodeToken(t: Token)
      requires Valid() && Codable(fmt, t)
      requires t.Match? ==> t.off < 0x8000_0000 && t.len < 0x8000_0000
      modifies this`out, this`bb_b, this`bb_k, this`bb_p, this`emitted, this`last_m_off
      ensures Valid() && last_m_off == LastAfter(old(last_m_off), t)
      ensures emitted == old(emitted) + PartsOps(fmt, old(last_m_off), t, max_match)
    {
      HasLimit();
      hide Valid;
      match t {
        case Lit(b) =>
          PutBit(1);
          PutByte(b);
        case Match(off, len) =>
          CodeMatch(len, off);
      }
    }

    /** The end marker. */
    method CodeEnd()
      requires Valid()
      modifies this`out, this`bb_b, this`bb_k, this`bb_p, this`emitted
      ensures Valid() && emitted == old(emitted) + EndOps(fmt)
    {
      hide Valid, Code, Path;
      PutBit(0);
      if fmt.Nrv2b? {
        CodePrefix11(0x100_0000);
      } else {
        CodePrefix12(0x100_0000);
      }
      PutByte(0xff);
    }
  }

  /** The coding loop of ucl_nrv_99_compress for the tokens that match finding has chosen: the
      output is the compressed block, with the matches split that are longer than conf.max_match.
      A limit below eight is an invalid argument. */
  method Compress(fmt: Format, w: Width, max_match: uint32, ts: seq<Token>) returns (r: Option<seq<byte>>)
    requires AllCodable(fmt, ts)
    requires forall i | 0 <= i < |ts| :: ts[i].Match? ==> ts[i].off < 0x8000_0000 && ts[i].len < 0x8000_0000
    ensures r.None? <==> max_match < 8
    ensures r.Some? ==> AllCodable(fmt, Shortened(ts, max_match))
    ensures r.Some? ==> r.value == Compressed(fmt, w, Shortened(ts, max_match))
  {
    hide TokenOps, PartsOps, EndOps, Parts, Output.Valid;
    if max_match < 8 {
      return None;
    }
    var c := new Output(fmt, w, max_match);
    var i := 0;
    assert ts[0..] == ts;
    SplitCodes(fmt, ts, max_match);
    while i < |ts|
      invariant 0 <= i <= |ts| && fresh(c) && c.Valid() && c.fmt == fmt && c.w == w && c.max_match == max_match
      invariant AllCodable(fmt, ts[i..]) && AllCodable(fmt, Shortened(ts[i..], max_match))
      invariant c.emitted + Encode(fmt, Shortened(ts[i..], max_match), c.last_m_off)
             == Encode(fmt, Shortened(ts, max_match), 1)
    {
      SplitTurn(fmt, ts, i, max_match, c.last_m_off);
      ghost var last, rest := c.last_m_off, ts[i + 1..];
      LeftGroup(c.emitted, PartsOps(fmt, last, ts[i], max_match),
                Encode(fmt, Shortened(rest, max_match), LastAfter(last, ts[i])));
      c.CodeToken(ts[i]);
      i := i + 1;
    }
    assert ts[i..] == [] && Encode(fmt, Shortened(ts[i..], max_match), c.last_m_off) == EndOps(fmt);
    c.CodeEnd();
    c.FlushBits();
    return Some(c.out);
  }

  lemma {:induction false} SplitCodes(fmt: Format, ts: seq<Token>, max: nat)
    requires max >= 8 && AllCodable(fmt, ts)
    ensures AllCodable(fmt, Shortened(ts, max))
  {
    hide Parts, Encode, PartsOps;
    if ts != [] {
      SplitCodes(fmt, ts[1..], max);
      PartsCode(fmt, ts[0], max, Shortened(ts[1..], max), 1);
    }
  }

  /** One turn of the coding loop. */
  lemma SplitTurn(fmt: Format, ts: seq<Token>, i: nat, max: nat, last: nat)
    requires max >= 8 && i < |ts| && AllCodable(fmt, ts[i..])
    ensures Codable(fmt, ts[i]) && AllCodable(fmt, ts[i + 1..])
    ensures AllCodable(fmt, Shortened(ts[i..], max)) && AllCodable(fmt, Shortened(ts[i + 1..], max))
    ensures Encode(fmt, Shortened(ts[i..], max), last)
         == PartsOps(fmt, last, ts[i], max) + Encode(fmt, Shortened(ts[i + 1..], max), LastAfter(last, ts[i]))
  {
    assert ts[i..][0] == ts[i] && ts[i..][1..] == ts[i + 1..];
    hide Parts, Encode, PartsOps, Codable;
    SplitCodes(fmt, ts[i + 1..], max);
    PartsCode(fmt, ts[i], max, Shortened(ts[i + 1..], max), last);
  }

  lemma PartsTurn(fmt: Format, last: nat, off: nat, len: nat, max: nat)
    requires len > max >= 8 && Codable(fmt, Match(off, len))
    ensures Codable(fmt, Match(off, max - 3)) && Codable(fmt, Match(off, len - (max - 3)))
    ensures PartsOps(fmt, last, Match(off, max - 3), max) == TokenOps(fmt, last, Match(off, max - 3))
    ensures PartsOps(fmt, last, Match(off, len), max)
         == TokenOps(fmt, last, Match(off, max - 3)) + PartsOps(fmt, off, Match(off, len - (max - 3)), max)
  {
    hide TokenOps;
  }

  lemma PartsEnd(fmt: Format, last: nat, off: nat, len: nat, max: nat)
    requires max >= 8 && len <= max && Codable(fmt, Match(off, len))
    ensures PartsOps(fmt, last, Match(off, len), max) == TokenOps(fmt, last, Match(off, len))
  {
    hide TokenOps;
  }

  lemma LeftGroup(a: seq<Op>, b: seq<Op>, c: seq<Op>)
    ensures a + (b + c) == (a + b) + c
  {
  }

  lemma PowTwo(e: nat)
    ensures e >= 1 ==> Pow2(e) == 2 * Pow2(e - 1) && (Pow2(e) <= 2 <==> e == 1)
    ensures ShiftRight(e, 1) == e / 2
  {
  }

  /** One more turn of the loop of code_prefix_ss11. */
  lemma PathTurn(v: nat, e: nat)
    requires e >= 1 && ShiftRight(v, e) >= 1
    ensures ShiftRight(v, e - 1) >= 1
    ensures Path(false, ShiftRight(v, e)) + [Bit(Selected(v, Pow2(e) / 2)), Bit(0)]
         == Path(false, ShiftRight(v, e - 1))
  {
    AndPow2(v, e - 1);
    ShiftOnce(v, e - 1);
  }

  lemma Regroup(a: seq<Op>, b: seq<Op>, c: seq<Op>, d: seq<Op>)
    ensures ((a + b) + c) + d == a + (b + c + d)
  {
  }

  lemma MatchOps(fmt: Format, last: nat, off: nat, len: nat)
    requires Codable(fmt, Match(off, len))
    ensures var n := len - 1 - if off > Near(fmt) then 1 else 0;
            TokenOps(fmt, last, Match(off, len))
            == [Bit(0)] + OffsetOps(fmt, last, off, LowBit(fmt, n)) + LenTail(fmt, n)
  {
    hide OffsetOps, LenTail;
  }

  lemma NarrowStep(v: nat, e: nat)
    requires e >= 1 && Pow2(e) > 2 && ShiftRight(v, e) >= 1
    ensures e >= 2 && Pow2(e) / 2 == Pow2(e - 1) && ShiftRight(v, e - 1) >= 1
    ensures Path(false, ShiftRight(v, e)) + [Bit(Selected(v, Pow2(e) / 2)), Bit(0)]
         == Path(false, ShiftRight(v, e - 1))
  {
    hide Path, ShiftRight, Selected;
    PathTurn(v, e);
    PowTwo(e);
  }

  lemma NarrowEnd(v: nat, e: nat)
    requires e >= 1 && Pow2(e) <= 2
    ensures ShiftRight(v, e) == v / 2
  {
    PowTwo(e);
    PowTwo(v);
  }

  /** What code_prefix_ss12 has put after n turns of its loop, when j are left. */
  function WideHead(v: nat, j: nat, n: nat): seq<Op>
  {
    Path(true, Level(true, n) / 2 + ShiftRight(v, 2 * j + 1))
  }

  lemma WideEnds(v: nat, k: nat)
    requires v < Pow2(2 * k + 1)
    ensures WideHead(v, k, 0) == []
    ensures WideHead(v, 0, k) == Path(true, (v + Level(true, k)) / 2)
    ensures Level(true, k) % 2 == 0
  {
    ShiftOfTop(v, 2 * k + 1);
    PowTwo(v);
    LevelEven(k);
  }

  /** One more turn of the loop of code_prefix_ss12. */
  lemma WideHeadTurn(v: nat, j: nat, n: nat)
    requires j >= 1
    ensures WideHead(v, j, n) + [Bit(Selected(v, Pow2(2 * j))), Bit(0), Bit(Selected(v, Pow2(2 * j - 1)))]
         == WideHead(v, j - 1, n + 1)
  {
    AndPow2(v, 2 * j);
    AndPow2(v, 2 * j - 1);
    ShiftOnce(v, 2 * j);
    ShiftOnce(v, 2 * j - 1);
    LevelEven(n);
    var h := Level(true, n) / 2 + ShiftRight(v, 2 * j + 1);
    var h' := Level(true, n + 1) / 2 + ShiftRight(v, 2 * j - 1);
    assert h' / 2 + 1 == 2 * h + Selected(v, Pow2(2 * j));
  }

  lemma WideStart(i0: nat, i: nat, k: nat)
    requires i < Pow2(2 * k + 1) && i + Level(true, k) == i0 + 2
    ensures WideHead(i, k, 0) == [] && WideHead(i, 0, k) == Path(true, i0 / 2 + 1) && i % 2 == i0 % 2
  {
    hide WideHead, Path;
    WideEnds(i, k);
  }

  lemma WideStep(v: nat, j: nat, n: nat)
    requires Pow2(2 * j + 1) > 2
    ensures j >= 1
    ensures WideHead(v, j, n) + [Bit(Selected(v, Pow2(2 * j))), Bit(0), Bit(Selected(v, Pow2(2 * j - 1)))]
         == WideHead(v, j - 1, n + 1)
  {
    hide WideHead, Selected;
    PowTwo(2 * j + 1);
    WideHeadTurn(v, j, n);
  }

  lemma WideDone(j: nat)
    requires Pow2(2 * j + 1) <= 2
    ensures j == 0
  {
    PowTwo(2 * j + 1);
  }

  lemma {:induction false} LevelEven(k: nat)
    ensures Level(true, k) % 2 == 0
  {
    if k > 0 {
      LevelEven(k - 1);
    }
  }

  lemma FinishNothing(w: Width, out: seq<byte>, p: nat, k: nat, b: nat)
    requires k <= 8 * w.Bytes() && (k > 0 ==> p + w.Bytes() <= |out|)
    ensures k == 0 ==> Finish(w, out, p, k, b, []) == out
  {
  }

  /** Bits of zero at the end do not change the stream while they fit into its last word. */
  lemma FinishFiller(w: Width, out: seq<byte>, p: nat, k: nat, b: nat)
    requires 0 < k < 8 * w.Bytes() && p + w.Bytes() <= |out|
    ensures Finish(w, out, p, k, b, [Bit(0)]) == Finish(w, out, p, k, b, [])
  {
    var ops := [Bit(0)];
    assert ops[1..] == [];
    var free := 8 * w.Bytes() - k;
    assert Take(ops, free) == Take([], free);
    assert Lay(w, ops, free) == Lay(w, [], free - 1) == Lay(w, [], free);
  }

  lemma FinishWhole(w: Width, out: seq<byte>, p: nat, b: nat)
    requires p + w.Bytes() <= |out| && b < Pow2(8 * w.Bytes())
    ensures Finish(w, out, p, 8 * w.Bytes(), b, [])
         == out[..p] + WordBytes(b, w.Bytes()) + out[p + w.Bytes()..]
  {
    ValueOfBits(b, 8 * w.Bytes());
    var bits := Bits(b, 8 * w.Bytes());
    assert bits + Take([], 0) == bits;
  }
}
