/** The two self-delimiting codes: start-step-stop codes with one (ss11) or two (ss12) bits
    added per level. ss11 serves for lengths and for NRV2B offsets, ss12 for NRV2D and NRV2E
    offsets. */
module PrefixCode {
  import opened Nrv

  /** What the decoder's accumulator must read to get from 1 to h at the head of its loop. */
  function Path(wide: bool, h: nat): seq<Op>
    requires h >= 1
    decreases h
  {
    if h == 1 then []
    else if wide then
      var m := h / 2 + 1;
      Path(wide, m / 2) + [Bit(m % 2), Bit(0), Bit(h % 2)]
    else Path(wide, h / 2) + [Bit(h % 2), Bit(0)]
  }

  /** The codeword of m. */
  function Code(wide: bool, m: nat): seq<Op>
    requires m >= 2
  {
    Path(wide, m / 2) + [Bit(m % 2), Bit(1)]
  }

  /** Reads a codeword from the front of `ops` with accumulator h, and returns the rest. */
  function Read(wide: bool, h: nat, ops: seq<Op>): Option<(nat, seq<Op>)>
    decreases |ops|
  {
    if |ops| < 2 || ops[0].Byte? || ops[1].Byte? then None
    else
      var m := 2 * h + ops[0].b;
      if ops[1].b == 1 then Some((m, ops[2..]))
      else if !wide then Read(wide, m, ops[2..])
      else if |ops| < 3 || ops[2].Byte? || m == 0 then None
      else Read(wide, (m - 1) * 2 + ops[2].b, ops[3..])
  }

  lemma {:induction false} ReadPath(wide: bool, h: nat, rest: seq<Op>)
    requires h >= 1
    ensures Read(wide, 1, Path(wide, h) + rest) == Read(wide, h, rest)
    decreases h
  {
    if h == 1 {
      assert Path(wide, h) + rest == rest;
    } else if wide {
      var m := h / 2 + 1;
      var ops := [Bit(m % 2), Bit(0), Bit(h % 2)];
      assert Path(wide, h) + rest == Path(wide, m / 2) + (ops + rest);
      ReadPath(wide, m / 2, ops + rest);
      assert (ops + rest)[3..] == rest;
    } else {
      var ops := [Bit(h % 2), Bit(0)];
      assert Path(wide, h) + rest == Path(wide, h / 2) + (ops + rest);
      ReadPath(wide, h / 2, ops + rest);
      assert (ops + rest)[2..] == rest;
    }
  }

  lemma {:induction false} ReadGives(wide: bool, h: nat, ops: seq<Op>)
    requires h >= 1 && Read(wide, h, ops).Some?
    ensures var (m, rest) := Read(wide, h, ops).value;
            m >= 2 && m >= h && Path(wide, h) + ops == Code(wide, m) + rest
    decreases |ops|
  {
    var m := 2 * h + ops[0].b;
    if ops[1].b == 1 {
      assert ops == [Bit(m % 2), Bit(1)] + ops[2..];
    } else if wide {
      var h' := (m - 1) * 2 + ops[2].b;
      ReadGives(wide, h', ops[3..]);
      assert h' / 2 + 1 == m && m / 2 == h;
      assert ops == [Bit(m % 2), Bit(0), Bit(h' % 2)] + ops[3..];
      assert Path(wide, h') == Path(wide, h) + [Bit(m % 2), Bit(0), Bit(h' % 2)];
    } else {
      ReadGives(wide, m, ops[2..]);
      assert ops == [Bit(m % 2), Bit(0)] + ops[2..];
      assert Path(wide, m) == Path(wide, h) + [Bit(m % 2), Bit(0)];
    }
  }

  /** The code is a bijection: what the decoder reads as m is the codeword of m and nothing
      else, and every m >= 2 has a codeword. */
  lemma CodeIsBijective(wide: bool, ops: seq<Op>, m: nat, rest: seq<Op>)
    ensures Read(wide, 1, ops) == Some((m, rest)) <==> m >= 2 && ops == Code(wide, m) + rest
  {
    if Read(wide, 1, ops).Some? {
      ReadGives(wide, 1, ops);
    }
    if m >= 2 && ops == Code(wide, m) + rest {
      var last := [Bit(m % 2), Bit(1)];
      assert ops == Path(wide, m / 2) + (last + rest);
      ReadPath(wide, m / 2, last + rest);
      assert (last + rest)[2..] == rest;
    }
  }

  /** First value of level k: the levels are {2,3}, {4..7}, {8..15} and so on for ss11, and
      {2,3}, {4..11}, {12..43} and so on for ss12. */
  function Level(wide: bool, k: nat): (m: nat)
    ensures m >= 2
  {
    if k == 0 then 2 else if wide then 4 * Level(wide, k - 1) - 4 else 2 * Level(wide, k - 1)
  }

  /** A level of ss12 has 2 * 4^k values. */
  lemma {:induction false} LevelSize(k: nat)
    ensures Level(true, k + 1) == Level(true, k) + Pow2(2 * k + 1)
  {
    if k > 0 {
      LevelSize(k - 1);
      assert Pow2(2 * k + 1) == 4 * Pow2(2 * k - 1);
    }
  }

  /** A level of ss11 has 2 * 2^k values. */
  lemma {:induction false} NarrowLevelSize(k: nat)
    ensures Level(false, k + 1) == Level(false, k) + Pow2(k + 1)
  {
    if k > 0 {
      NarrowLevelSize(k - 1);
    }
  }

  /** A level adds two bits to an ss11 codeword and three to an ss12 codeword. */
  lemma {:induction false} CodeLength(wide: bool, m: nat, k: nat)
    requires Level(wide, k) <= m < Level(wide, k + 1)
    ensures |Code(wide, m)| == 2 + k * if wide then 3 else 2
    decreases k
  {
    if k == 0 {
      assert m / 2 == 1;
    } else if wide {
      var g := m / 2 / 2 + 1;
      CodeLength(wide, g, k - 1);
      assert |Path(wide, m / 2)| == |Code(wide, g)| + 1;
    } else {
      CodeLength(wide, m / 2, k - 1);
    }
  }
}
