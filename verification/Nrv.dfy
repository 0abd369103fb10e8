/** The NRV2B, NRV2D and NRV2E decoders as one small-step machine.

    The C template reads one control bit or one data byte at a time. Every place where it
    waits for input is a control point here, with the live local variables as arguments, and
    one step consumes one bit or byte. The three ways in which the template is compiled are
    the three modes of a configuration. */
module Nrv {
  type byte = x: int | 0 <= x < 0x100
  type bit = x: int | 0 <= x < 2

  datatype Option<+T> = None | Some(value: T)

  datatype Format = Nrv2b | Nrv2d | Nrv2e

  /** Size of a control word: getbit_8, getbit_le16, getbit_le32. */
  datatype Width = W8 | W16 | W32 {
    function Bytes(): (k: nat)
    {
      match this
      case W8 => 1
      case W16 => 2
      case W32 => 4
    }
  }

  datatype Status =
    | Ok
    | InputOverrun
    | OutputOverrun
    | LookbehindOverrun
    | InputNotConsumed
    | OverlapOverrun

  /** One unit of decoder input. */
  datatype Op = Bit(b: bit) | Byte(x: byte)

  /** Conversion to an unsigned 32-bit value. */
  function U32(x: int): nat { x % 0x1_0000_0000 }

  function Pow2(n: nat): (p: nat)
    ensures p >= 1
  {
    if n == 0 then 1 else 2 * Pow2(n - 1)
  }

  /** The low n bits of v, most significant first. */
  function Bits(v: nat, n: nat): (q: seq<bit>)
    ensures |q| == n
  {
    if n == 0 then [] else Bits(v / 2, n - 1) + [v % 2]
  }

  /** Little-endian value of a sequence of bytes. */
  function LittleEndian(s: seq<byte>): nat
  {
    if s == [] then 0 else s[0] + 0x100 * LittleEndian(s[1..])
  }

  /** Number of input bits that a list of units occupies. */
  function Cost(ops: seq<Op>): nat
  {
    if ops == [] then 0 else (if ops[0].Bit? then 1 else 8) + Cost(ops[1..])
  }

  /** Number of data bytes, and of control bits, in a list of units. */
  function DataBytes(ops: seq<Op>): nat
  {
    if ops == [] then 0 else (if ops[0].Bit? then 0 else 1) + DataBytes(ops[1..])
  }

  function ControlBits(ops: seq<Op>): nat
  {
    if ops == [] then 0 else (if ops[0].Bit? then 1 else 0) + ControlBits(ops[1..])
  }

  /** Number of bytes of a stream that have not been read when these units are still to come,
      and `fill` bits of its last control word are unused: the data bytes, and the control
      words that have not been fetched. */
  function Unread(w: Width, fill: nat, ops: seq<Op>): nat
  {
    DataBytes(ops) + WordsOf(w, ControlBits(ops) + fill)
  }

  /** The bytes of the whole control words in n bits. */
  function WordsOf(w: Width, n: nat): nat
  {
    match w
    case W8 => n / 8
    case W16 => n / 16 * 2
    case W32 => n / 32 * 4
  }

  /** The bits in front of them. */
  function Loose(w: Width, n: nat): nat
  {
    match w
    case W8 => n % 8
    case W16 => n % 16
    case W32 => n % 32
  }

  /** The data that a running decoder works on, seen in one of three ways.
      Tape:  the input is a bare list of bits and bytes, without control words.
      Split: input and output are disjoint.
      Flat:  both are pointers into one memory and may overlap. */
  datatype View =
    | Tape(ops: seq<Op>, tout: seq<byte>)
    | Split(src: seq<byte>, out: seq<byte>)
    | Flat(mem: seq<byte>, srcp: nat, dstp: nat, olen: nat)
  {
    /** The input bytes. */
    function Source(): seq<byte>
      requires !Tape?
    {
      match this
      case Split(s, _) => s
      case Flat(m, s, _, _) => if s <= |m| then m[s..] else []
    }

    function Olen(): nat
    {
      match this
      case Tape(_, o) => |o|
      case Split(_, o) => |o|
      case Flat(_, _, _, n) => n
    }

    /** The output byte `off` places back. */
    function Look(off: nat): Option<byte>
    {
      match this
      case Tape(_, o) => if 1 <= off <= |o| then Some(o[|o| - off]) else None
      case Split(_, o) => if 1 <= off <= |o| then Some(o[|o| - off]) else None
      case Flat(m, _, d, n) => if 0 <= d + n - off < |m| then Some(m[d + n - off]) else None
    }

    /** Appends one byte to the output. */
    function Put(b: byte): Option<View>
    {
      match this
      case Tape(ops, o) => Some(Tape(ops, o + [b]))
      case Split(s, o) => Some(Split(s, o + [b]))
      case Flat(m, s, d, n) => if d + n < |m| then Some(Flat(m[d + n := b], s, d, n + 1)) else None
    }
  }

  /** The data together with the position in the input and the rest of the current control
      word. A tape needs neither of the two; its position is instead the number of unused bits
      in the last control word of the stream that it stands for. */
  datatype Store = Store(w: Width, queue: seq<bit>, pos: nat, view: View) {
    /** Bits that can still be read; bounds the length of a run. */
    function Fuel(): nat
    {
      if view.Tape? then |view.ops|
      else |queue| + 8 * (if pos <= |view.Source()| then |view.Source()| - pos else 0)
    }

    /** One control bit, fetching a control word at the input position when none is left.
        None when the word lies outside the readable data. */
    function NextBit(): (r: Option<(bit, Store)>)
      ensures r.Some? ==> r.value.1.Fuel() < Fuel()
    {
      if view.Tape? then
        if view.ops != [] && view.ops[0].Bit?
        then Some((view.ops[0].b, this.(view := Tape(view.ops[1..], view.tout)))) else None
      else if queue != [] then Some((queue[0], this.(queue := queue[1..])))
      else
        var k := w.Bytes();
        if pos + k <= |view.Source()| then
          var q := Bits(LittleEndian(view.Source()[pos..pos + k]), 8 * k);
          Some((q[0], this.(queue := q[1..], pos := pos + k)))
        else None
    }

    function NextByte(): (r: Option<(byte, Store)>)
      ensures r.Some? ==> r.value.1.Fuel() < Fuel()
    {
      if view.Tape? then
        if view.ops != [] && view.ops[0].Byte?
        then Some((view.ops[0].x, this.(view := Tape(view.ops[1..], view.tout)))) else None
      else if pos < |view.Source()| then Some((view.Source()[pos], this.(pos := pos + 1)))
      else None
    }

    function Put(b: byte): (r: Option<Store>)
      ensures r.Some? ==> r.value.Fuel() == Fuel()
    {
      match view.Put(b)
      case None => None
      case Some(v) => Some(this.(view := v))
    }

    function Olen(): nat { view.Olen() }

    /** ilen >= src_len. On a tape: no data byte is left, so the end marker cannot follow. */
    predicate Exhausted(srcLen: nat)
    {
      if view.Tape? then forall i | 0 <= i < |view.ops| :: view.ops[i].Bit? else pos >= srcLen
    }

    /** olen > ilen, where ilen counts from the start of the output, `gap` bytes before the
        input. On a tape: so by the number of bytes still to be read. */
    predicate Clobbers(gap: nat, srcLen: nat)
    {
      if view.Tape? then Olen() + Unread(w, pos, view.ops) > gap + srcLen else Olen() > gap + pos
    }

    /** The status reported at the end marker. */
    function Finish(srcLen: nat): Status
    {
      if view.Tape? then if view.ops == [] then Ok else InputNotConsumed
      else if pos == srcLen then Ok else if pos < srcLen then InputNotConsumed else InputOverrun
    }
  }

  /** Fast: `fail` expands to nothing. Safe: `fail` returns. Overlap: SAFE with TEST_OVERLAP. */
  datatype Mode = Fast | Safe(oend: nat) | Overlap(oend: nat, gap: nat)

  datatype Config = Config(fmt: Format, srcLen: nat, mode: Mode) {
    predicate Exhausted(st: Store) { !mode.Fast? && st.Exhausted(srcLen) }
    predicate Above(n: int) { !mode.Fast? && n > mode.oend }
    predicate Clobbers(st: Store) { mode.Overlap? && st.Clobbers(mode.gap, srcLen) }
    /** What the loop of the length code is finally raised by. */
    function Bias(): nat { if fmt.Nrv2e? then 3 else 2 }
  }

  /** Where the template waits for input, with the variables alive there. */
  datatype Ctl =
    | Top                         // getbit at the head of the literal loop
    | Lit                         // src[ilen++] of a literal
    | OffBit(m: nat)              // m_off*2 + getbit
    | OffStop(m: nat)             // if (getbit) break
    | OffMore(m: nat)             // (m_off-1)*2 + getbit
    | OffByte(m: nat)             // (m_off-3)*256 + src[ilen++]
    | Low(off: nat)               // m_len = getbit
    | Len(off: nat, low: nat)     // second bit of the length
    | LenShort(off: nat)          // 3 + getbit
    | LenBit(off: nat, n: nat)    // m_len*2 + getbit
    | LenStop(off: nat, n: nat)   // while (!getbit)
    | Copy(off: nat, n: nat)      // the match itself; reads nothing
    | End                         // the end marker has been read
  {
    predicate ReadsBit() { !Lit? && !OffByte? && !Copy? && !End? }
  }

  datatype State = State(ctl: Ctl, last: nat, store: Store)

  datatype Next = Crash | Halt(status: Status, store: Store) | Go(s: State)

  /** Crash stands for an access outside the memory. */
  datatype Outcome = Fault | Done(status: Status, store: Store)

  function AfterBit(c: Config, ctl: Ctl, last: nat, b: bit, st: Store): (r: Next)
    requires ctl.ReadsBit()
    ensures r.Go? ==> r.s.store == st
    ensures r.Halt? ==> r.store == st && r.status != Ok
  {
    match ctl
    case Top => Go(State(if b == 1 then Lit else OffBit(1), last, st))
    case OffBit(m) =>
      var m' := U32(m * 2 + b);
      if c.Exhausted(st) then Halt(InputOverrun, st)
      else if !c.mode.Fast? && m' > 0xffffff + 3 then Halt(LookbehindOverrun, st)
      else Go(State(OffStop(m'), last, st))
    case OffStop(m) =>
      if b == 1 then Go(State(if m == 2 then Low(last) else OffByte(m), last, st))
      else Go(State(if c.fmt.Nrv2b? then OffBit(m) else OffMore(m), last, st))
    case OffMore(m) => Go(State(OffBit(U32((m - 1) * 2 + b)), last, st))
    case Low(off) => Go(State(Len(off, b), last, st))
    case Len(off, low) =>
      if c.fmt.Nrv2e? then
        if low != 0 then Go(State(Copy(off, 1 + b), last, st))
        else Go(State(if b == 1 then LenShort(off) else LenBit(off, 1), last, st))
      else
        var n := U32(low * 2 + b);
        Go(State(if n == 0 then LenBit(off, 1) else Copy(off, n), last, st))
    case LenShort(off) => Go(State(Copy(off, 3 + b), last, st))
    case LenBit(off, n) =>
      var n' := U32(n * 2 + b);
      if c.Exhausted(st) then Halt(InputOverrun, st)
      else if c.Above(n' + 1) then Halt(OutputOverrun, st)
      else Go(State(LenStop(off, n'), last, st))
    case LenStop(off, n) =>
      Go(State(if b == 1 then Copy(off, U32(n + c.Bias())) else LenBit(off, n), last, st))
  }

  /** Appends n bytes, each a copy of the byte `off` places before it. */
  function CopyMatch(st: Store, off: nat, n: nat): (r: Option<Store>)
    ensures r.Some? ==> r.value.Fuel() == st.Fuel()
    decreases n
  {
    if n == 0 then Some(st) else
    match st.view.Look(off)
    case None => None
    case Some(b) =>
      match st.Put(b)
      case None => None
      case Some(st') => CopyMatch(st', off, n - 1)
  }

  /** The number of bytes that the copy loop writes for its final m_len: one, then one for
      every turn of a loop that tests `--m_len > 0` only after its first turn. */
  function CopyCount(n: nat): nat { if n == 0 then 0x1_0000_0001 else n + 1 }

  /** Longest offset that a match may have without its length being raised by one. */
  function Near(fmt: Format): nat { if fmt.Nrv2b? then 0xd00 else 0x500 }

  /** The length as the copy uses it: far matches are one longer. */
  function FinalLen(c: Config, off: nat, n: nat): nat { U32(n + if off > Near(c.fmt) then 1 else 0) }

  /** The checks and the copy of a match, for the final m_len. */
  function Transfer(c: Config, off: nat, n: nat, last: nat, st: Store): Next
  {
    if c.Above(U32(st.Olen() + n)) then Halt(OutputOverrun, st)
    else if !c.mode.Fast? && off > st.Olen() then Halt(LookbehindOverrun, st)
    else
      match CopyMatch(st, off, CopyCount(n))
      case None => Crash
      case Some(st') => if c.Clobbers(st') then Halt(OverlapOverrun, st') else Go(State(Top, last, st'))
  }

  function LitStep(c: Config, last: nat, st: Store): Next
  {
    if c.Exhausted(st) then Halt(InputOverrun, st)
    else if c.Above(st.Olen() + 1) then Halt(OutputOverrun, st)
    else if c.Clobbers(st) then Halt(OverlapOverrun, st)
    else
      match st.NextByte()
      case None => Crash
      case Some((x, st')) =>
        match st'.Put(x)
        case None => Crash
        case Some(st'') => Go(State(Top, last, st''))
  }

  function AfterOffByte(c: Config, m: nat, last: nat, x: byte, st: Store): Next
  {
    var raw := U32((m - 3) * 0x100 + x);
    if raw == 0xffff_ffff then Go(State(End, last, st))
    else if c.fmt.Nrv2b? then Go(State(Low(raw + 1), raw + 1, st))
    else Go(State(Len(raw / 2 + 1, 1 - raw % 2), raw / 2 + 1, st))
  }

  function OffByteStep(c: Config, m: nat, last: nat, st: Store): Next
  {
    if c.Exhausted(st) then Halt(InputOverrun, st)
    else
      match st.NextByte()
      case None => Crash
      case Some((x, st')) => AfterOffByte(c, m, last, x, st')
  }

  function BitStep(c: Config, ctl: Ctl, last: nat, st: Store): Next
    requires ctl.ReadsBit()
  {
    match st.NextBit()
    case None => Crash
    case Some((b, st')) => AfterBit(c, ctl, last, b, st')
  }

  function Rank(ctl: Ctl): nat { if ctl.Copy? then 1 else 0 }

  function Step(c: Config, s: State): (r: Next)
    ensures r.Go? ==>
      r.s.store.Fuel() < s.store.Fuel() ||
      (r.s.store.Fuel() == s.store.Fuel() && Rank(r.s.ctl) < Rank(s.ctl))
  {
    if s.ctl.ReadsBit() then BitStep(c, s.ctl, s.last, s.store)
    else if s.ctl.Lit? then LitStep(c, s.last, s.store)
    else if s.ctl.OffByte? then OffByteStep(c, s.ctl.m, s.last, s.store)
    else if s.ctl.Copy? then Transfer(c, s.ctl.off, FinalLen(c, s.ctl.off, s.ctl.n), s.last, s.store)
    else Halt(s.store.Finish(c.srcLen), s.store)
  }

  /** A whole run from state s. */
  function Run(c: Config, s: State): Outcome
    decreases s.store.Fuel(), Rank(s.ctl)
  {
    match Step(c, s)
    case Crash => Fault
    case Halt(status, st) => Done(status, st)
    case Go(t) => Run(c, t)
  }

  /** One of the decompress or test_overlap entries, from its first statement. */
  function Decode(c: Config, st: Store): Outcome
  {
    if c.mode.Overlap? && c.mode.oend >= c.mode.gap + c.srcLen then Done(OverlapOverrun, st)
    else Run(c, State(Top, 1, st))
  }
}
