/** len_of_coded_match: the compressor's estimate of the bits that a match costs. */
module Estimate {
  import opened Nrv
  import opened BitBuffer
  import opened PrefixCode
  import opened Tokens
  import opened InPlace
  import opened Compressor

  /** A codeword of ss11 has at most two bits for every bit of its number. */
  lemma {:induction false} NarrowBound(m: nat, n: nat)
    requires n >= 1 && 2 <= m <= Pow2(n) + 1
    ensures |Code(false, m)| <= 2 * n
    decreases n
  {
    if m >= 4 {
      NarrowBound(m / 2, n - 1);
    }
  }

  lemma {:induction false} WideBound(m: nat, n: nat)
    requires 2 <= m <= Pow2(2 * n) + 2
    ensures |Code(true, m)| <= 2 + 3 * n
    decreases n
  {
    if m >= 4 {
      assert Pow2(2 * n) == 4 * Pow2(2 * n - 2);
      var g := m / 2 / 2 + 1;
      WideBound(g, n - 1);
      assert |Path(true, m / 2)| == |Code(true, g)| + 1;
    }
  }

  lemma {:induction false} ShiftedOut(v: nat, e: nat)
    requires ShiftRight(v, e) == 0
    ensures v < Pow2(e)
  {
    if e > 0 {
      ShiftedOut(v / 2, e - 1);
    }
  }

  lemma CodeCost(wide: bool, m: nat)
    requires m >= 2
    ensures Cost(Code(wide, m)) == |Code(wide, m)|
  {
    CodeIsBits(wide, m);
    BitsCost(Code(wide, m));
  }

  lemma TailCost(fmt: Format, n: nat)
    requires n >= 1
    ensures Cost(LenTail(fmt, n)) == |LenTail(fmt, n)|
  {
    CodeIsBits(false, if n >= 5 then n - if fmt.Nrv2e? then 3 else 2 else 2);
    if !fmt.Nrv2e? && n == 4 {
      CodeIsBits(false, 2);
    }
    BitsCost(LenTail(fmt, n));
  }

  /** Bits of an offset that is not repeated, with the first bit of the length. */
  lemma OffsetCost(fmt: Format, last: nat, off: nat, low: bit)
    requires off >= 1
    ensures Cost(OffsetOps(fmt, last, off, low)) ==
            if off == last then 3
            else if fmt.Nrv2b? then |Code(false, 3 + (off - 1) / 0x100)| + 9
            else |Code(true, 3 + (off - 1) / 0x80)| + 8
  {
    if off == last {
      BitsCost([Bit(0), Bit(1), Bit(low)]);
    } else if fmt.Nrv2b? {
      var code, rest := Code(false, 3 + (off - 1) / 0x100), [Byte((off - 1) % 0x100), Bit(low)];
      CodeCost(false, 3 + (off - 1) / 0x100);
      CostConcat(code, rest);
      assert rest[1..] == [Bit(low)] && Cost([Bit(low)]) == 1;
    } else {
      CodeCost(true, 3 + (off - 1) / 0x80);
      CostConcat(Code(true, 3 + (off - 1) / 0x80), [Byte((off - 1) % 0x80 * 2 + 1 - low)]);
      assert Cost([Byte((off - 1) % 0x80 * 2 + 1 - low)]) == 8;
    }
  }

  lemma MatchCost(fmt: Format, last: nat, t: Token)
    requires Codable(fmt, t) && t.Match?
    ensures Cost(TokenOps(fmt, last, t))
         == 1 + Cost(OffsetOps(fmt, last, t.off, LowBit(fmt, CodedLen(fmt, t)))) + |LenTail(fmt, CodedLen(fmt, t))|
  {
    var n := CodedLen(fmt, t);
    var offset := OffsetOps(fmt, last, t.off, LowBit(fmt, n));
    CostConcat([Bit(0)] + offset, LenTail(fmt, n));
    CostConcat([Bit(0)], offset);
    assert Cost([Bit(0)]) == 1;
    TailCost(fmt, n);
  }

  /** The bits of the offset, for an offset that is not repeated. */
  method OffsetEstimate(fmt: Format, m_off: nat) returns (b: nat)
    requires m_off >= 1
    ensures fmt.Nrv2b? ==> |Code(false, 3 + (m_off - 1) / 0x100)| + 9 <= b
    ensures !fmt.Nrv2b? ==> |Code(true, 3 + (m_off - 1) / 0x80)| + 8 <= b
  {
    ghost var n := 0;
    if fmt.Nrv2b? {
      var x := (m_off - 1) / 0x100;
      b := 11;
      while x > 0
        invariant x == ShiftRight((m_off - 1) / 0x100, n) && b == 11 + 2 * n
      {
        ShiftOnce((m_off - 1) / 0x100, n);
        b, x, n := b + 2, x / 2, n + 1;
      }
      ShiftedOut((m_off - 1) / 0x100, n);
      NarrowBound(3 + (m_off - 1) / 0x100, n + 1);
    } else {
      var x := (m_off - 1) / 0x80;
      b := 10;
      while x > 0
        invariant x == ShiftRight((m_off - 1) / 0x80, 2 * n) && b == 10 + 3 * n
      {
        ShiftOnce((m_off - 1) / 0x80, 2 * n);
        ShiftOnce((m_off - 1) / 0x80, 2 * n + 1);
        b, x, n := b + 3, x / 4, n + 1;
      }
      ShiftedOut((m_off - 1) / 0x80, 2 * n);
      WideBound(3 + (m_off - 1) / 0x80, n);
    }
  }

  /** The bits of a length that has no short code: two for every bit of y, at least two. */
  method LengthEstimate(y: nat) returns (b: nat)
    ensures |Code(false, y + 2)| <= b
  {
    var x := y / 2;
    b := 2;
    ghost var n := 1;
    assert ShiftRight(y, 1) == x;
    while x > 0
      invariant n >= 1 && x == ShiftRight(y, n) && b == 2 * n
    {
      ShiftOnce(y, n);
      b, x, n := b + 2, x / 2, n + 1;
    }
    ShiftedOut(y, n);
    NarrowBound(y + 2, n);
  }

  /** len_of_coded_match; None is its -1. The estimate is never below the bits that
      code_match then puts, for every match that the coder takes. */
  method LenOfCodedMatch(fmt: Format, last: nat, maxOffset: nat, m_len: nat, m_off: nat) returns (b: Option<nat>)
    requires m_off >= 1
    ensures b.None? <==> !Codable(fmt, Match(m_off, m_len)) || m_off > maxOffset
    ensures b.Some? ==> Cost(TokenOps(fmt, last, Match(m_off, m_len))) <= b.value
  {
    if m_len < 2 || (m_len == 2 && m_off > Near(fmt)) || m_off > maxOffset {
      return None;
    }
    var n := m_len - 2 - if m_off > Near(fmt) then 1 else 0;
    MatchCost(fmt, last, Match(m_off, m_len));
    OffsetCost(fmt, last, m_off, LowBit(fmt, n + 1));
    var bits := 3;
    if m_off != last {
      bits := OffsetEstimate(fmt, m_off);
    }
    bits := bits + 2;
    if fmt.Nrv2e? {
      if n < 2 {
        return Some(bits);
      }
      if n < 4 {
        return Some(bits + 1);
      }
      n := n - 4;
    } else {
      if n < 3 {
        return Some(bits);
      }
      n := n - 3;
    }
    var more := LengthEstimate(n);
    return Some(bits + more);
  }
}
