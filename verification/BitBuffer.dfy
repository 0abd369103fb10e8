/** The bit buffers of getbit.h, and the queue of bits that each of them stands for. */
module BitBuffer {
  import opened Nrv

  type uint32 = x: int | 0 <= x < 0x1_0000_0000

  /** What a macro computes from the buffer and from the word it would fetch. */
  datatype Got = Got(b: bit, bb: uint32, bc: nat, fetched: bool)

  /** getbit_8, the form that is compiled. */
  function GetBit8(bb: uint32, word: byte): Got
  {
    var fetched := bb % 0x80 == 0;
    var bb' := if fetched then word * 2 + 1 else U32(bb * 2);
    Got(bb' / 0x100 % 2, bb', 0, fetched)
  }

  /** getbit_8, second form: doubles first, and tests the low byte. */
  function GetBit8Doubling(bb: uint32, word: byte): Got
  {
    var twice := U32(bb * 2);
    if twice % 0x100 != 0 then Got(twice / 0x100 % 2, twice, 0, false)
    else Got((word * 2 + 1) / 0x100 % 2, word * 2 + 1, 0, true)
  }

  /** getbit_8, third form: one shift for both cases. */
  function GetBit8Shared(bb: uint32, word: byte): Got
  {
    var twice := U32(bb * 2);
    var fetched := twice % 0x100 == 0;
    var bb' := if fetched then word * 2 + 1 else twice;
    Got(bb' / 0x100 % 2, bb', 0, fetched)
  }

  function GetBit16(bb: uint32, word: nat): Got
    requires word < 0x1_0000
  {
    var twice := U32(bb * 2);
    if twice % 0x1_0000 != 0 then Got(twice / 0x1_0000 % 2, twice, 0, false)
    else Got((word * 2 + 1) / 0x1_0000 % 2, word * 2 + 1, 0, true)
  }

  /** v >> n. */
  function ShiftRight(v: nat, n: nat): nat { if n == 0 then v else ShiftRight(v / 2, n - 1) }

  /** getbit_le32 keeps the word and counts the bits that are left in bc. */
  function GetBit32(bb: uint32, bc: nat, word: uint32): Got
  {
    if bc > 0 then Got(ShiftRight(bb, bc - 1) % 2, bb, bc - 1, false)
    else Got(ShiftRight(word, 31) % 2, word, 31, true)
  }

  function Zeros(n: nat): (q: seq<bit>)
    ensures |q| == n
  {
    if n == 0 then [] else Zeros(n - 1) + [0]
  }

  /** The low n bits of the buffer are the queue, then a one, then zeros. */
  predicate Sentinel(bb: nat, n: nat, q: seq<bit>)
  {
    |q| < n && Bits(bb, n) == q + [1] + Zeros(n - 1 - |q|)
  }

  /** The buffer stands for the queue q. At the start it is zero, without a one. */
  predicate Refines(w: Width, bb: uint32, bc: nat, q: seq<bit>)
  {
    match w
    case W8 => Sentinel(bb, 8, q) || (q == [] && bb == 0)
    case W16 => Sentinel(bb, 16, q) || (q == [] && bb == 0)
    case W32 => bc == |q| < 32 && q == Bits(bb, bc)
  }

  /** Dropping the first of n + 1 bits. */
  lemma {:induction false} BitsTail(v: nat, n: nat)
    ensures Bits(v, n + 1)[1..] == Bits(v, n)
    ensures Bits(v, n + 1)[0] == ShiftRight(v, n) % 2
  {
    if n > 0 {
      BitsTail(v / 2, n - 1);
    }
  }

  /** Bits above the k-th do not matter. */
  lemma {:induction false} BitsWrap(v: nat, k: nat, n: nat)
    requires n <= k
    ensures Bits(v + Pow2(k), n) == Bits(v, n)
  {
    if n > 0 {
      assert (v + Pow2(k)) / 2 == v / 2 + Pow2(k - 1) && (v + Pow2(k)) % 2 == v % 2;
      BitsWrap(v / 2, k - 1, n - 1);
    }
  }

  lemma Pow2By4(n: nat)
    ensures Pow2(n + 4) == 16 * Pow2(n)
  {
    assert Pow2(n + 4) == 2 * Pow2(n + 3) && Pow2(n + 2) == 2 * Pow2(n + 1);
  }

  lemma Pow32()
    ensures Pow2(32) == 0x1_0000_0000
  {
    assert Pow2(8) == 0x100;
    Pow2By4(8);
    Pow2By4(12);
    Pow2By4(16);
    Pow2By4(20);
    Pow2By4(24);
    Pow2By4(28);
  }

  lemma BitsWrap32(v: nat, n: nat)
    requires n <= 32
    ensures Bits(v + 0x1_0000_0000, n) == Bits(v, n)
  {
    Pow32();
    BitsWrap(v, 32, n);
  }

  lemma BitsDouble(v: nat, n: nat)
    ensures Bits(v * 2, n + 1) == Bits(v, n) + [0]
  {
  }

  lemma BitsOfDouble(bb: uint32, n: nat)
    requires n < 32
    ensures Bits(U32(bb * 2), n + 1) == Bits(bb, n) + [0]
  {
    hide Bits;
    var twice: nat := bb * 2;
    BitsDouble(bb, n);
    if twice >= 0x1_0000_0000 {
      BitsWrap32(twice - 0x1_0000_0000, n + 1);
    }
  }

  predicate LowZero(v: nat, n: nat) { n == 0 || (v % 2 == 0 && LowZero(v / 2, n - 1)) }

  lemma {:induction false} ZeroBits(v: nat, n: nat)
    ensures Bits(v, n) == Zeros(n) <==> LowZero(v, n)
  {
    if n > 0 {
      ZeroBits(v / 2, n - 1);
      assert Bits(v, n)[..n - 1] == Bits(v / 2, n - 1) && Bits(v, n)[n - 1] == v % 2;
      assert Zeros(n)[..n - 1] == Zeros(n - 1) && Zeros(n)[n - 1] == 0;
    }
  }

  lemma Low2(v: nat, n: nat)
    ensures LowZero(v, n + 2) <==> v % 4 == 0 && LowZero(v / 4, n)
  {
    assert LowZero(v, n + 2) <==> v % 2 == 0 && LowZero(v / 2, n + 1);
    assert v / 2 / 2 == v / 4;
  }

  lemma Low4(v: nat, n: nat)
    ensures LowZero(v, n + 4) <==> v % 0x10 == 0 && LowZero(v / 0x10, n)
  {
    Low2(v, n + 2);
    Low2(v / 4, n);
    assert v / 4 / 4 == v / 0x10;
    assert v % 0x10 == v / 4 % 4 * 4 + v % 4;
  }

  lemma Low8(v: nat, n: nat)
    ensures LowZero(v, n + 8) <==> v % 0x100 == 0 && LowZero(v / 0x100, n)
  {
    Low4(v, n + 4);
    Low4(v / 0x10, n);
    assert v / 0x10 / 0x10 == v / 0x100;
    assert v % 0x100 == v / 0x10 % 0x10 * 0x10 + v % 0x10;
  }

  lemma Low3(v: nat)
    ensures LowZero(v, 3) <==> v % 8 == 0
  {
    Low2(v, 1);
    assert v % 8 == v / 4 % 2 * 4 + v % 4;
  }

  lemma Low7(v: nat)
    ensures LowZero(v, 7) <==> v % 0x80 == 0
  {
    Low4(v, 3);
    Low3(v / 0x10);
    hide LowZero;
    Mod80(v);
  }

  lemma Mod80(v: nat)
    ensures v % 0x80 == v / 0x10 % 8 * 0x10 + v % 0x10
  {
  }

  lemma Low16(v: nat)
    ensures LowZero(v, 16) <==> v % 0x1_0000 == 0
  {
    Low8(v, 8);
    Low8(v / 0x100, 0);
    assert v % 0x1_0000 == v / 0x100 % 0x100 * 0x100 + v % 0x100;
  }

  lemma Shift2(v: nat, n: nat)
    ensures ShiftRight(v, n + 2) == ShiftRight(v / 4, n)
  {
    assert ShiftRight(v, n + 2) == ShiftRight(v / 2, n + 1);
    assert v / 2 / 2 == v / 4;
  }

  lemma Shift8(v: nat, n: nat)
    ensures ShiftRight(v, n + 8) == ShiftRight(v / 0x100, n)
  {
    Shift2(v, n + 6);
    Shift2(v / 4, n + 4);
    Shift2(v / 4 / 4, n + 2);
    Shift2(v / 4 / 4 / 4, n);
  }

  lemma Shift16(v: nat)
    ensures ShiftRight(v, 16) == v / 0x1_0000
  {
    Shift8(v, 8);
    Shift8(v / 0x100, 0);
  }

  /** The step that all sentinel buffers make while bits are left. */
  lemma SentinelStep(bb: uint32, n: nat, q: seq<bit>)
    requires q != [] && Sentinel(bb, n, q) && n < 32
    ensures Sentinel(U32(bb * 2), n, q[1..])
    ensures ShiftRight(U32(bb * 2), n) % 2 == q[0]
    ensures !LowZero(bb, n - 1) && !LowZero(U32(bb * 2), n)
  {
    var twice := U32(bb * 2);
    BitsOfDouble(bb, n);
    BitsTail(twice, n);
    assert Bits(twice, n) == q[1..] + [1] + (Zeros(n - 1 - |q|) + [0]);
    ZeroBits(bb, n - 1);
    BitsTail(bb, n - 1);
    ZeroBits(twice, n);
    ZerosAt(n - 1);
    ZerosAt(n);
    assert Bits(bb, n - 1)[|q| - 1] == 1;
    assert Bits(twice, n)[|q| - 1] == 1;
  }

  lemma {:induction false} ZerosAt(n: nat)
    ensures forall i | 0 <= i < n :: Zeros(n)[i] == 0
  {
    if n > 0 {
      ZerosAt(n - 1);
    }
  }

  /** Fetching a word of n bits into a sentinel buffer. */
  lemma SentinelFetch(word: nat, n: nat)
    requires n > 0
    ensures Sentinel(word * 2 + 1, n, Bits(word, n)[1..])
    ensures ShiftRight(word * 2 + 1, n) % 2 == Bits(word, n)[0]
  {
    assert Bits(word * 2 + 1, n + 1) == Bits(word, n) + [1];
    BitsTail(word * 2 + 1, n);
  }

  /** An empty buffer is one whose low n - 1 bits are zero. */
  lemma SentinelEmpty(bb: uint32, n: nat)
    requires 0 < n < 32 && (Sentinel(bb, n, []) || bb == 0)
    ensures LowZero(bb, n - 1) && LowZero(U32(bb * 2), n)
  {
    if bb == 0 {
      ZeroLow(n - 1);
      ZeroLow(n);
    } else {
      var zeros := Zeros(n - 1);
      BitsTail(bb, n - 1);
      assert Bits(bb, n - 1) == ([1] + zeros)[1..] == zeros;
      ZeroBits(bb, n - 1);
      BitsOfDouble(bb, n);
      BitsTail(U32(bb * 2), n);
      assert Bits(U32(bb * 2), n) == ([1] + (zeros + [0]))[1..] == Zeros(n);
      ZeroBits(U32(bb * 2), n);
    }
  }

  lemma {:induction false} ZeroLow(n: nat)
    ensures LowZero(0, n)
  {
    if n > 0 {
      ZeroLow(n - 1);
    }
  }

  /** getbit_8 takes the first bit of its queue, or fetches a byte when the queue is empty. */
  lemma GetBit8Refines(bb: uint32, q: seq<bit>, word: byte)
    requires Refines(W8, bb, 0, q)
    ensures Takes(W8, GetBit8(bb, word), q, word)
  {
    Low7(bb);
    Shift8(U32(bb * 2), 0);
    Shift8(word * 2 + 1, 0);
    if q == [] {
      SentinelEmpty(bb, 8);
      SentinelFetch(word, 8);
    } else {
      SentinelStep(bb, 8, q);
    }
  }

  /** The buffer after a macro stands for the queue without its first bit, which is the bit
      that the macro gave; an empty queue is first filled with the bits of the word. */
  predicate Takes(w: Width, g: Got, q: seq<bit>, word: nat)
  {
    var q' := if q == [] then Bits(word, 8 * w.Bytes()) else q;
    g.fetched == (q == []) && g.b == q'[0] && Refines(w, g.bb, g.bc, q'[1..])
  }

  lemma GetBit16Refines(bb: uint32, q: seq<bit>, word: nat)
    requires Refines(W16, bb, 0, q) && word < 0x1_0000
    ensures Takes(W16, GetBit16(bb, word), q, word)
  {
    var twice := U32(bb * 2);
    Low16(twice);
    Shift16(twice);
    Shift16(word * 2 + 1);
    if q == [] {
      SentinelEmpty(bb, 16);
      SentinelFetch(word, 16);
    } else {
      SentinelStep(bb, 16, q);
    }
  }

  lemma GetBit32Refines(bb: uint32, bc: nat, q: seq<bit>, word: uint32)
    requires Refines(W32, bb, bc, q)
    ensures Takes(W32, GetBit32(bb, bc, word), q, word)
  {
    if q == [] {
      BitsTail(word, 31);
    } else {
      BitsTail(bb, bc - 1);
    }
  }

  /** The three forms of getbit_8 agree on every buffer that the decoder can have. */
  lemma FormsAgree(bb: uint32, q: seq<bit>, word: byte)
    requires Refines(W8, bb, 0, q)
    ensures GetBit8(bb, word) == GetBit8Doubling(bb, word) == GetBit8Shared(bb, word)
  {
    Low7(bb);
    Low8(U32(bb * 2), 0);
    if q == [] {
      SentinelEmpty(bb, 8);
    } else {
      SentinelStep(bb, 8, q);
    }
  }
}
