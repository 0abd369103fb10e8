/** ucl_crc32: the CRC-32 of section 8 of RFC 1952, a byte at a time with a table. */
module Crc {
  import opened CrcTable

  const ONES: bv32 := 0xffff_ffff

  function Word(b: bool): bv32 { if b then 1 else 0 }

  function Xor(a: bv32, b: bv32): bv32 { a ^ b }

  /** The division, bit by bit. */
  function Divide(c: bv32, bits: seq<bool>): bv32
    decreases |bits|
  {
    if bits == [] then c else Divide(Step(Xor(c, Word(bits[0]))), bits[1..])
  }

  predicate Odd(x: bv8) { x & 1 == 1 }

  /** The n low bits, lowest first. */
  function LowBits(x: bv8, n: nat): (q: seq<bool>)
    ensures |q| == n
    decreases n
  {
    if n == 0 then [] else [Odd(x)] + LowBits(x >> 1, n - 1)
  }

  /** The bits of a message, in the order in which they are divided. */
  function MessageBits(data: seq<bv8>): seq<bool>
  {
    if data == [] then [] else LowBits(data[0], 8) + MessageBits(data[1..])
  }

  /** The division starts from, and ends in, the complement of the value passed on. */
  function Checksum(seed: bv32, data: seq<bv8>): bv32
  {
    Xor(Divide(Xor(seed, ONES), MessageBits(data)), ONES)
  }

  // --------------------------------------------------------------------- linearity

  lemma ShiftXor(a: bv32, b: bv32)
    ensures (a ^ b) >> 1 == (a >> 1) ^ (b >> 1)
    ensures (a ^ b) & 1 == (a & 1) ^ (b & 1)
    ensures a & 1 == 0 || a & 1 == 1
  {
  }

  lemma XorMoves(a: bv32, b: bv32, p: bv32)
    ensures (a ^ b) ^ p == (a ^ p) ^ b == a ^ (b ^ p)
    ensures (a ^ p) ^ (b ^ p) == a ^ b
  {
  }

  lemma PlainStepXor(a: bv32, b: bv32)
    ensures Step(a ^ b) == Step(a) ^ Step(b)
  {
    ShiftXor(a, b);
    ShiftXor(b, a);
    XorMoves(a >> 1, b >> 1, POLY);
  }

  lemma XorIs(a: bv32, b: bv32)
    ensures Xor(a, b) == a ^ b
  {
  }

  lemma StepXor(a: bv32, b: bv32)
    ensures Step(Xor(a, b)) == Xor(Step(a), Step(b))
  {
    hide Xor, Step;
    PlainStepXor(a, b);
    XorIs(a, b);
    XorIs(Step(a), Step(b));
  }

  lemma Steps2Xor(a: bv32, b: bv32)
    ensures Steps2(Xor(a, b)) == Xor(Steps2(a), Steps2(b))
  {
    hide Xor, Step;
    StepXor(a, b);
    StepXor(Step(a), Step(b));
  }

  lemma Steps4Xor(a: bv32, b: bv32)
    ensures Steps4(Xor(a, b)) == Xor(Steps4(a), Steps4(b))
  {
    hide Xor, Steps2;
    Steps2Xor(a, b);
    Steps2Xor(Steps2(a), Steps2(b));
  }

  lemma Steps8Xor(a: bv32, b: bv32)
    ensures Steps8(Xor(a, b)) == Xor(Steps8(a), Steps8(b))
  {
    hide Xor, Steps4;
    Steps4Xor(a, b);
    Steps4Xor(Steps4(a), Steps4(b));
  }

  function Low(c: bv32): bv32 { c & 0xff }

  function High(c: bv32): bv32 { c >> 8 }

  function Upper(c: bv32): bv32 { c & 0xffff_ff00 }

  lemma Steps8OfUpper(c: bv32)
    ensures Steps8(Upper(c)) == High(c)
  {
  }

  lemma LowAndUpper(c: bv32)
    ensures c == Xor(Low(c), Upper(c)) && Low(c) < 0x100
  {
  }

  lemma HighOfByte(c: bv32, x: bv8)
    ensures High(Xor(c, x as bv32)) == High(c)
  {
  }

  /** UCL_DO1. */
  function Do1(c: bv32, x: bv8): bv32 { Xor(Table(Low(Xor(c, x as bv32))), High(c)) }

  /** A table step is eight steps of the division. */
  lemma TableStep(c: bv32, x: bv8)
    ensures Do1(c, x) == Steps8(Xor(c, x as bv32))
  {
    hide Xor, Table, Steps8, Low, High, Upper;
    var y := Xor(c, x as bv32);
    HighOfByte(c, x);
    LowAndUpper(y);
    Steps8Xor(Low(y), Upper(y));
    Steps8OfUpper(y);
    TableIs(Low(y));
  }

  // ------------------------------------------------------------------ bytes and bits

  function Steps(c: bv32, n: nat): bv32
    decreases n
  {
    if n == 0 then c else Steps(Step(c), n - 1)
  }

  lemma EightSteps(c: bv32)
    ensures Steps8(c) == Steps(c, 8)
  {
    hide Step;
  }

  function Shifted(x: bv8, n: nat): bv8
    decreases n
  {
    if n == 0 then x else Shifted(x >> 1, n - 1)
  }

  lemma ShiftedOut(x: bv8)
    ensures Shifted(x, 8) == 0
  {
  }

  function Even(y: bv8): bv32 { y as bv32 & 0xfe }

  lemma SplitByte(y: bv8)
    ensures y as bv32 == Xor(Word(Odd(y)), Even(y))
  {
  }

  lemma EvenStep(y: bv8)
    ensures Step(Even(y)) == (y >> 1) as bv32
  {
  }

  lemma XorAssociates(a: bv32, b: bv32, c: bv32)
    ensures Xor(a, Xor(b, c)) == Xor(Xor(a, b), c)
  {
  }

  /** The lowest bit of y is used up by the first step, the others by the later ones. */
  lemma Peel(c: bv32, y: bv8)
    ensures Step(Xor(c, y as bv32)) == Xor(Step(Xor(c, Word(Odd(y)))), (y >> 1) as bv32)
  {
    hide Xor, Step, Word, Odd, Even;
    SplitByte(y);
    EvenStep(y);
    XorAssociates(c, Word(Odd(y)), Even(y));
    StepXor(Xor(c, Word(Odd(y))), Even(y));
  }

  lemma {:induction false} DivideBits(c: bv32, y: bv8, n: nat)
    ensures Steps(Xor(c, y as bv32), n) == Xor(Divide(c, LowBits(y, n)), Shifted(y, n) as bv32)
    decreases n
  {
    hide Xor, Step, Word, Odd;
    if n > 0 {
      Peel(c, y);
      DivideBits(Step(Xor(c, Word(Odd(y)))), y >> 1, n - 1);
      assert LowBits(y, n)[1..] == LowBits(y >> 1, n - 1);
    }
  }

  lemma XorZero(c: bv32)
    ensures Xor(c, 0) == c && Xor(c, c) == 0
  {
  }

  /** The table step divides one byte of the message. */
  lemma Do1Divides(c: bv32, x: bv8)
    ensures Do1(c, x) == Divide(c, LowBits(x, 8))
  {
    hide Xor, Do1, Steps, Steps8, Divide, Shifted, LowBits;
    TableStep(c, x);
    EightSteps(Xor(c, x as bv32));
    DivideBits(c, x, 8);
    ShiftedOut(x);
    XorZero(Divide(c, LowBits(x, 8)));
  }

  lemma {:induction false} DivideConcat(c: bv32, a: seq<bool>, b: seq<bool>)
    ensures Divide(c, a + b) == Divide(Divide(c, a), b)
    decreases |a|
  {
    hide Xor, Step;
    if a == [] {
      assert a + b == b;
    } else {
      assert (a + b)[1..] == a[1..] + b;
      DivideConcat(Step(Xor(c, Word(a[0]))), a[1..], b);
    }
  }

  lemma {:induction false} MessageConcat(a: seq<bv8>, b: seq<bv8>)
    ensures MessageBits(a + b) == MessageBits(a) + MessageBits(b)
  {
    if a == [] {
      assert a + b == b;
    } else {
      assert (a + b)[1..] == a[1..] + b;
      MessageConcat(a[1..], b);
    }
  }

  lemma XorTwice(a: bv32, b: bv32)
    ensures Xor(Xor(a, b), b) == a
  {
  }

  /** Calls on consecutive parts give the checksum of the whole. */
  lemma Composes(seed: bv32, a: seq<bv8>, b: seq<bv8>)
    ensures Checksum(seed, a + b) == Checksum(Checksum(seed, a), b)
  {
    hide Xor, Divide, MessageBits;
    var c := Divide(Xor(seed, ONES), MessageBits(a));
    MessageConcat(a, b);
    DivideConcat(Xor(seed, ONES), MessageBits(a), MessageBits(b));
    XorTwice(c, ONES);
  }

  // -------------------------------------------------------------------- the function

  /** The division of whole bytes. */
  function Fold(c: bv32, data: seq<bv8>): bv32 { Divide(c, MessageBits(data)) }

  lemma FoldConcat(c: bv32, a: seq<bv8>, b: seq<bv8>)
    ensures Fold(c, a + b) == Fold(Fold(c, a), b)
  {
    MessageConcat(a, b);
    DivideConcat(c, MessageBits(a), MessageBits(b));
    hide Divide;
  }

  lemma FoldOne(c: bv32, d: seq<bv8>)
    requires |d| == 1
    ensures Fold(c, d) == Do1(c, d[0])
  {
    Do1Divides(c, d[0]);
    assert MessageBits(d) == LowBits(d[0], 8) + MessageBits(d[1..]) == LowBits(d[0], 8);
    hide Divide, LowBits;
  }

  method Do2(c: bv32, d: seq<bv8>) returns (r: bv32)
    requires |d| == 2
    ensures r == Fold(c, d)
  {
    r := Do1(c, d[0]);
    r := Do1(r, d[1]);
    assert d == d[..1] + d[1..];
    FoldConcat(c, d[..1], d[1..]);
    FoldOne(c, d[..1]);
    FoldOne(Fold(c, d[..1]), d[1..]);
    hide Fold, Do1;
  }

  method Do4(c: bv32, d: seq<bv8>) returns (r: bv32)
    requires |d| == 4
    ensures r == Fold(c, d)
  {
    hide Fold;
    r := Do2(c, d[..2]);
    r := Do2(r, d[2..]);
    assert d == d[..2] + d[2..];
    FoldConcat(c, d[..2], d[2..]);
  }

  method Do8(c: bv32, d: seq<bv8>) returns (r: bv32)
    requires |d| == 8
    ensures r == Fold(c, d)
  {
    hide Fold;
    r := Do4(c, d[..4]);
    r := Do4(r, d[4..]);
    assert d == d[..4] + d[4..];
    FoldConcat(c, d[..4], d[4..]);
  }

  method Do16(c: bv32, d: seq<bv8>) returns (r: bv32)
    requires |d| == 16
    ensures r == Fold(c, d)
  {
    hide Fold;
    r := Do8(c, d[..8]);
    r := Do8(r, d[8..]);
    assert d == d[..8] + d[8..];
    FoldConcat(c, d[..8], d[8..]);
  }

  datatype Buffer = Null | Bytes(data: seq<bv8>)

  /** ucl_crc32. */
  method Crc32(c: bv32, buf: Buffer) returns (r: bv32)
    ensures r == if buf.Null? then 0 else Checksum(c, buf.data)
  {
    if buf.Null? {
      return 0;
    }
    var crc := Xor(c, ONES);
    var rest := buf.data;
    while |rest| >= 16
      invariant Fold(crc, rest) == Fold(Xor(c, ONES), buf.data)
    {
      hide Fold;
      assert rest == rest[..16] + rest[16..];
      FoldConcat(crc, rest[..16], rest[16..]);
      crc := Do16(crc, rest[..16]);
      rest := rest[16..];
    }
    while |rest| > 0
      invariant Fold(crc, rest) == Fold(Xor(c, ONES), buf.data)
    {
      hide Fold, Do1;
      assert rest == rest[..1] + rest[1..];
      FoldConcat(crc, rest[..1], rest[1..]);
      FoldOne(crc, rest[..1]);
      crc := Do1(crc, rest[0]);
      rest := rest[1..];
    }
    return Xor(crc, ONES);
  }

  // ------------------------------------------------------------------- error bursts

  lemma StepOfZero(z: bv32)
    ensures Step(z) == 0 <==> z == 0
  {
  }

  lemma XorIsZero(a: bv32, b: bv32)
    ensures Xor(a, b) == 0 <==> a == b
  {
    hide Xor;
    XorTwice(a, b);
    XorZero(b);
    ZeroXor(b);
  }

  lemma ZeroXor(b: bv32)
    ensures Xor(0, b) == b
  {
  }

  /** No step loses anything. */
  lemma {:induction false} DivideIsInjective(c: bv32, d: bv32, bits: seq<bool>)
    requires Divide(c, bits) == Divide(d, bits)
    ensures c == d
    decreases |bits|
  {
    hide Xor, Step, Word;
    if bits != [] {
      var b := Word(bits[0]);
      DivideIsInjective(Step(Xor(c, b)), Step(Xor(d, b)), bits[1..]);
      StepIsInjective(Xor(c, b), Xor(d, b));
      XorTwice(c, b);
      XorTwice(d, b);
    }
  }

  lemma StepIsInjective(c: bv32, d: bv32)
    requires Step(c) == Step(d)
    ensures c == d
  {
    hide Xor, Step;
    StepXor(c, d);
    XorIsZero(Step(c), Step(d));
    XorIsZero(c, d);
    StepOfZero(Xor(c, d));
  }

  function Shl(v: bv32): bv32 { v << 1 }

  /** The register from which dividing `bits` ends at zero. */
  function Dividend(bits: seq<bool>): bv32
  {
    if bits == [] then 0 else Xor(Shl(Dividend(bits[1..])), Word(bits[0]))
  }

  /** The n low bits set. */
  function Mask(n: nat): bv32 { if n == 0 then 0 else ShlOne(Mask(n - 1)) }

  function ShlOne(v: bv32): bv32 { (v << 1) | 1 }

  predicate Within(v: bv32, m: bv32) { v & m == v }

  lemma ShlAnd(v: bv32, m: bv32)
    ensures (v << 1) & ((m << 1) | 1) == (v & m) << 1
    ensures ((v << 1) | 1) & ((m << 1) | 1) == ((v & m) << 1) | 1
  {
  }

  lemma WithinShifts(v: bv32, m: bv32)
    requires Within(v, m)
    ensures Within(Shl(v), ShlOne(m)) && Within(ShlOne(v), ShlOne(m))
  {
    ShlAnd(v, m);
  }

  lemma ShlXorOne(v: bv32)
    ensures Xor(Shl(v), Word(true)) == ShlOne(v)
  {
  }

  lemma WithinShl(v: bv32, m: bv32, b: bool)
    requires Within(v, m)
    ensures Within(Xor(Shl(v), Word(b)), ShlOne(m))
    ensures Within(ShlOne(v), ShlOne(m))
  {
    assert Word(false) == 0;
    hide Xor, Shl, Word, Within, ShlOne;
    WithinShifts(v, m);
    ShlXorOne(v);
    XorZero(Shl(v));
  }

  lemma WithinTrans(a: bv32, b: bv32, c: bv32)
    requires Within(a, b) && Within(b, c)
    ensures Within(a, c)
  {
  }

  lemma WithinZero(v: bv32)
    ensures Within(0, v) && Within(v, v)
  {
  }

  lemma {:induction false} MaskGrows(n: nat)
    ensures Within(Mask(n), Mask(n + 1))
  {
    hide Within, ShlOne;
    if n == 0 {
      WithinZero(Mask(1));
    } else {
      MaskGrows(n - 1);
      WithinShl(Mask(n - 1), Mask(n), false);
    }
  }

  lemma {:induction false} MaskWithin(m: nat, n: nat)
    requires m <= n
    ensures Within(Mask(m), Mask(n))
  {
    hide Within, Mask;
    if m == n {
      WithinZero(Mask(m));
    } else {
      MaskWithin(m, n - 1);
      MaskGrows(n - 1);
      WithinTrans(Mask(m), Mask(n - 1), Mask(n));
    }
  }

  function ShlFour(v: bv32): bv32 { (v << 4) | 15 }

  lemma ShiftFour(v: bv32)
    ensures ShlOne(ShlOne(ShlOne(ShlOne(v)))) == ShlFour(v)
  {
  }

  lemma MaskBy4(n: nat)
    ensures Mask(n + 4) == ShlFour(Mask(n))
  {
    hide ShlOne, ShlFour;
    assert Mask(n + 2) == ShlOne(Mask(n + 1));
    assert Mask(n + 4) == ShlOne(Mask(n + 3));
    ShiftFour(Mask(n));
  }

  lemma MaskOf31()
    ensures Mask(31) == 0x7fff_ffff
  {
    assert Mask(3) == 7;
    MaskBy4(3);
    MaskBy4(7);
    MaskBy4(11);
    MaskBy4(15);
    MaskBy4(19);
    MaskBy4(23);
    MaskBy4(27);
  }

  lemma {:induction false} DividendFits(bits: seq<bool>)
    ensures Within(Dividend(bits), Mask(|bits|))
  {
    hide Within, Xor, Shl, ShlOne, Word;
    if bits == [] {
      WithinZero(0);
    } else {
      DividendFits(bits[1..]);
      WithinShl(Dividend(bits[1..]), Mask(|bits| - 1), bits[0]);
    }
  }

  /** Up to 31 bits leave the top bit of the register free. */
  lemma TopIsFree(bits: seq<bool>)
    requires |bits| <= 31
    ensures Within(Dividend(bits), 0x7fff_ffff)
  {
    hide Within, Mask, Dividend;
    DividendFits(bits);
    MaskWithin(|bits|, 31);
    MaskOf31();
    WithinTrans(Dividend(bits), Mask(|bits|), Mask(31));
  }

  lemma StepOfShl(v: bv32)
    requires Within(v, 0x7fff_ffff)
    ensures Step(Shl(v)) == v && (Shl(v) == 0 <==> v == 0)
  {
  }

  lemma {:induction false} DividendDivides(bits: seq<bool>)
    requires |bits| <= 32
    ensures Divide(Dividend(bits), bits) == 0
  {
    hide Within, Xor, Shl, Step, Word;
    if bits != [] {
      var v := Dividend(bits[1..]);
      DividendDivides(bits[1..]);
      TopIsFree(bits[1..]);
      StepOfShl(v);
      XorTwice(Shl(v), Word(bits[0]));
    }
  }

  lemma ShlIsEven(v: bv32, b: bool)
    requires Xor(Shl(v), Word(b)) == 0
    ensures !b && Shl(v) == 0
  {
  }

  lemma {:induction false} ZeroDividend(bits: seq<bool>)
    requires |bits| <= 32 && Dividend(bits) == 0
    ensures forall i | 0 <= i < |bits| :: !bits[i]
  {
    hide Within, Xor, Shl, Step, Word;
    if bits != [] {
      var v := Dividend(bits[1..]);
      ShlIsEven(v, bits[0]);
      TopIsFree(bits[1..]);
      StepOfShl(v);
      ZeroDividend(bits[1..]);
      assert forall i | 0 < i < |bits| :: bits[i] == bits[1..][i - 1];
    }
  }

  /** The places where two lists of bits differ. */
  function Differences(x: seq<bool>, y: seq<bool>): (d: seq<bool>)
    requires |x| == |y|
    ensures |d| == |x|
  {
    if x == [] then [] else [x[0] != y[0]] + Differences(x[1..], y[1..])
  }

  lemma {:induction false} NoDifference(x: seq<bool>, y: seq<bool>)
    requires |x| == |y| && forall i | 0 <= i < |x| :: !Differences(x, y)[i]
    ensures x == y
  {
    if x != [] {
      assert Differences(x, y)[1..] == Differences(x[1..], y[1..]);
      assert !Differences(x, y)[0];
      NoDifference(x[1..], y[1..]);
    }
  }

  lemma XorPairs(a: bv32, b: bv32, p: bool, q: bool)
    ensures Xor(Xor(a, b), Word(p != q)) == Xor(Xor(a, Word(p)), Xor(b, Word(q)))
  {
    WordXor(p, q);
    hide Word, Xor;
    XorRegroups(a, b, Word(p), Word(q));
  }

  lemma WordXor(p: bool, q: bool)
    ensures Word(p != q) == Xor(Word(p), Word(q))
  {
  }

  lemma XorCommutes(a: bv32, b: bv32)
    ensures Xor(a, b) == Xor(b, a)
  {
  }

  lemma XorRegroups(a: bv32, b: bv32, p: bv32, q: bv32)
    ensures Xor(Xor(a, b), Xor(p, q)) == Xor(Xor(a, p), Xor(b, q))
  {
    hide Xor;
    XorAssociates(a, b, Xor(p, q));
    XorAssociates(b, p, q);
    XorCommutes(b, p);
    XorAssociates(p, b, q);
    XorAssociates(a, p, Xor(b, q));
  }

  /** The division of a difference is the difference of the divisions. */
  lemma {:induction false} DivideDifferences(c: bv32, d: bv32, x: seq<bool>, y: seq<bool>)
    requires |x| == |y|
    ensures Divide(Xor(c, d), Differences(x, y)) == Xor(Divide(c, x), Divide(d, y))
    decreases |x|
  {
    hide Xor, Step, Word;
    if x != [] {
      var c', d' := Xor(c, Word(x[0])), Xor(d, Word(y[0]));
      assert Differences(x, y)[1..] == Differences(x[1..], y[1..]);
      XorPairs(c, d, x[0], y[0]);
      StepXor(c', d');
      DivideDifferences(Step(c'), Step(d'), x[1..], y[1..]);
    }
  }

  /** Different bursts of at most 32 bits take the register to different values. */
  lemma BurstsDiffer(c: bv32, x: seq<bool>, y: seq<bool>)
    requires |x| == |y| <= 32 && Divide(c, x) == Divide(c, y)
    ensures x == y
  {
    hide Xor, Divide, Dividend;
    var d := Differences(x, y);
    DivideDifferences(c, c, x, y);
    XorZero(c);
    XorZero(Divide(c, x));
    DividendDivides(d);
    DivideIsInjective(0, Dividend(d), d);
    ZeroDividend(d);
    NoDifference(x, y);
  }

  /** Every error burst of up to 32 bits changes the checksum: messages whose bits differ only
      within such a window have different checksums, for any seed. */
  lemma BurstIsDetected(seed: bv32, m: seq<bv8>, n: seq<bv8>, p: seq<bool>, x: seq<bool>, y: seq<bool>, s: seq<bool>)
    requires MessageBits(m) == p + x + s && MessageBits(n) == p + y + s
    requires |x| == |y| <= 32 && x != y
    ensures Checksum(seed, m) != Checksum(seed, n)
  {
    hide Xor, Divide, MessageBits;
    var c := Xor(seed, ONES);
    DivideConcat(c, p + x, s);
    DivideConcat(c, p, x);
    DivideConcat(c, p + y, s);
    DivideConcat(c, p, y);
    if Checksum(seed, m) == Checksum(seed, n) {
      XorTwice(Divide(c, MessageBits(m)), ONES);
      XorTwice(Divide(c, MessageBits(n)), ONES);
      DivideIsInjective(Divide(Divide(c, p), x), Divide(Divide(c, p), y), s);
      BurstsDiffer(Divide(c, p), x, y);
    }
  }
}
