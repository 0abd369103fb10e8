/** Exactly which blocks test_overlap accepts, and where the decoder stops in a block for which
    there is less room. */
module Overtaken {
  import opened Nrv
  import opened Simulation
  import opened Layout
  import opened Tokens
  import opened RoundTrip

  // ------------------------------------------------------------- acceptance, exactly

  /** After every token, the output and the input that has not been read fit into the gap and
      the input. */
  predicate StaysBehind(c: Config, g: Grain, ts: seq<Token>, last: nat, olen: nat)
    requires AllCodable(c.fmt, ts) && c.mode.Overlap?
  {
    ts != [] ==>
      && olen + ts[0].Size() + Unread(g.w, g.fill, Encode(c.fmt, ts[1..], LastAfter(last, ts[0])))
         <= c.mode.gap + c.srcLen
      && StaysBehind(c, g, ts[1..], LastAfter(last, ts[0]), olen + ts[0].Size())
  }

  predicate Roomy(oend: nat, ts: seq<Token>, olen: nat)
  {
    Total(ts, olen) <= oend || (Total(ts, olen) == oend + 1 && EndsInMatch(ts))
  }

  lemma RoomyAdmits(c: Config, ts: seq<Token>, olen: nat)
    requires AllCodable(c.fmt, ts) && !c.mode.Fast? && Roomy(c.mode.oend, ts, olen) && ts != []
    ensures Admits(c, ts[0], olen) && (ts[1..] != [] ==> Roomy(c.mode.oend, ts[1..], olen + ts[0].Size()))
  {
    var rest := ts[1..];
    if rest != [] {
      assert rest[|rest| - 1] == ts[|ts| - 1];
      TotalGrows(c.fmt, rest, olen + ts[0].Size());
    }
  }

  lemma {:induction false} BehindPasses(c: Config, g: Grain, ts: seq<Token>, last: nat, olen: nat)
    requires c.mode.Overlap? && AllCodable(c.fmt, ts) && Roomy(c.mode.oend, ts, olen)
    requires StaysBehind(c, g, ts, last, olen)
    ensures Passes(c, g, ts, last, olen)
    decreases |ts|
  {
    hide Encode, Unread, Codable, Admits;
    if ts != [] {
      RoomyAdmits(c, ts, olen);
      if ts[1..] != [] {
        BehindPasses(c, g, ts[1..], LastAfter(last, ts[0]), olen + ts[0].Size());
      }
    }
  }

  /** A token after which too much of the input is left. */
  lemma TokenClobbers(c: Config, g: Grain, t: Token, last: nat, rest: seq<Op>, out: seq<byte>)
    requires c.mode.Overlap? && Codable(c.fmt, t) && Within(t, |out|) && HasByte(rest)
    requires Admits(c, t, |out|) && |Apply(t, out)| < 0x8000_0000 && !Paced(c, g, |Apply(t, out)|, rest)
    ensures var r := Run(c, State(Top, last, OnTape(g, TokenOps(c.fmt, last, t) + rest, out)));
            r.Done? && r.status == OverlapOverrun
  {
    if t.Lit? {
      LitClobbers(c, g, t.b, last, rest, out);
    } else {
      CodeRun(c, g, t, last, rest, out);
      CopyClobbers(c, g, t, rest, out);
    }
    hide Run, TokenOps, Unread;
  }

  lemma LitClobbers(c: Config, g: Grain, b: byte, last: nat, rest: seq<Op>, out: seq<byte>)
    requires c.mode.Overlap? && !c.Above(|out| + 1) && !Paced(c, g, |out| + 1, rest)
    ensures var r := Run(c, State(Top, last, OnTape(g, [Bit(1), Byte(b)] + rest, out)));
            r.Done? && r.status == OverlapOverrun
  {
    var ops := [Byte(b)] + rest;
    assert [Bit(1), Byte(b)] + rest == [Bit(1)] + ops;
    TapeBit(c, g, Top, last, 1, ops, out);
    assert ops[0] == Byte(b) && ops[1..] == rest;
    assert !c.Exhausted(OnTape(g, ops, out));
    assert Unread(g.w, g.fill, ops) == 1 + Unread(g.w, g.fill, rest);
    assert c.Clobbers(OnTape(g, ops, out));
  }

  lemma CopyClobbers(c: Config, g: Grain, t: Token, rest: seq<Op>, out: seq<byte>)
    requires c.mode.Overlap? && t.Match? && Codable(c.fmt, t) && Within(t, |out|)
    requires !c.Above(|out| + t.len - 1) && |out| + t.len < 0x8000_0000 && !Paced(c, g, |out| + t.len, rest)
    ensures var r := Run(c, State(Copy(t.off, CodedLen(c.fmt, t)), t.off, OnTape(g, rest, out)));
            r.Done? && r.status == OverlapOverrun
  {
    assert FinalLen(c, t.off, CodedLen(c.fmt, t)) == t.len - 1;
    CopyExtends(OnTape(g, rest, out), t.off, t.len);
    hide Extend, Unread, CopyMatch;
  }

  /** With enough room, the tape is refused for nothing but the overlap. */
  lemma {:induction false} Refused(c: Config, g: Grain, ts: seq<Token>, last: nat, out: seq<byte>)
    requires c.mode.Overlap? && Valid(c.fmt, ts, |out|) && Total(ts, |out|) < 0x8000_0000
    requires Roomy(c.mode.oend, ts, |out|) && !StaysBehind(c, g, ts, last, |out|)
    ensures var r := Run(c, Before(g, c.fmt, ts, last, out));
            r.Done? && r.status == OverlapOverrun
    decreases |ts|
  {
    hide Run, Unread, TokenOps, Apply, Codable, Admits;
    var rest, next := ts[1..], LastAfter(last, ts[0]);
    RoomyAdmits(c, ts, |out|);
    TotalOfRest(c.fmt, ts, |out|);
    if Paced(c, g, |out| + ts[0].Size(), Encode(c.fmt, rest, next)) {
      EncodeTurn(c, g, ts[0], rest, last, out);
      Refused(c, g, rest, next, Apply(ts[0], out));
    } else {
      EncodeHasByte(c.fmt, rest, next);
      TokenClobbers(c, g, ts[0], last, Encode(c.fmt, rest, next), out);
    }
  }

  lemma TotalOfRest(fmt: Format, ts: seq<Token>, olen: nat)
    requires Valid(fmt, ts, olen) && ts != []
    ensures Total(ts, olen) == Total(ts[1..], olen + ts[0].Size()) >= olen + ts[0].Size()
    ensures Codable(fmt, ts[0]) && Within(ts[0], olen) && Valid(fmt, ts[1..], olen + ts[0].Size())
  {
  }

  /** test_overlap, on a coded block of any format and width, with anything behind it: it is
      accepted if and only if the limits of SAFE are met and the output stays behind the input
      position, token by token. */
  lemma AcceptedExactly(fmt: Format, w: Width, ts: seq<Token>, oend: nat, gap: nat, tail: seq<byte>)
    requires Valid(fmt, ts, 0) && Total(ts, 0) < 0x8000_0000
    requires oend < 0x8000_0000 - 4 && |tail| >= w.Bytes()
    ensures var z := Compressed(fmt, w, ts);
            var c := Config(fmt, |z|, Overlap(oend, gap));
            var r := Decode(c, Input(w, z + tail));
            r.Done? && r.status == Ok
            <==> && oend < gap + |z| && Roomy(oend, ts, 0)
                 && StaysBehind(c, GrainOf(w, Encode(fmt, ts, 1)), ts, 1, 0)
  {
    hide Run, Encode, Lay, StaysBehind, Passes, Reachable, AllCodable;
    var z := Compressed(fmt, w, ts);
    var c := Config(fmt, |z|, Overlap(oend, gap));
    var s, g := State(Top, 1, Input(w, z + tail)), GrainOf(w, Encode(fmt, ts, 1));
    if oend < gap + |z| && Roomy(oend, ts, 0) && StaysBehind(c, g, ts, 1, 0) {
      BehindPasses(c, g, ts, 1, 0);
      DecodeCompressed(c, w, ts, tail);
    } else if oend < gap + |z| && Roomy(oend, ts, 0) {
      Refused(c, g, ts, 1, []);
      CompressedHolds(fmt, w, ts, tail);
      HoldsRun(c, s, Before(g, fmt, ts, 1, []));
    } else if oend < gap + |z| && Run(c, s).Done? && Run(c, s).status == Ok {
      RelaxRun(c, Config(fmt, |z|, Safe(oend)), s, Run(c, s).store);
      AcceptsExactly(fmt, w, ts, oend, tail);
    }
  }

  // ---------------------------------------------------------------- stopping short

  function LastOf(ts: seq<Token>, last: nat): nat
  {
    if ts == [] then last else LastOf(ts[1..], LastAfter(last, ts[0]))
  }

  /** A token list with one of its tokens singled out. */
  function Middle(head: seq<Token>, t: Token, rest: seq<Token>): seq<Token> { head + [t] + rest }

  lemma MiddleTurn(fmt: Format, head: seq<Token>, t: Token, rest: seq<Token>, olen: nat)
    requires head != [] && Valid(fmt, Middle(head, t, rest), olen)
    ensures Middle(head, t, rest)[0] == head[0] && Middle(head, t, rest)[1..] == Middle(head[1..], t, rest)
    ensures Codable(fmt, head[0]) && Within(head[0], olen)
    ensures Valid(fmt, Middle(head[1..], t, rest), olen + head[0].Size())
    ensures Total(Middle(head, t, rest), olen) == Total(Middle(head[1..], t, rest), olen + head[0].Size())
  {
    var ts := Middle(head, t, rest);
    assert ts[0] == head[0] && ts[1..] == Middle(head[1..], t, rest);
    hide Middle;
  }

  lemma MiddleEnd(fmt: Format, t: Token, rest: seq<Token>, last: nat, olen: nat)
    requires Valid(fmt, Middle([], t, rest), olen)
    ensures AllCodable(fmt, rest) && Codable(fmt, t) && Within(t, olen)
    ensures Encode(fmt, Middle([], t, rest), last)
         == TokenOps(fmt, last, t) + Encode(fmt, rest, LastAfter(last, t))
    ensures Total(Middle([], t, rest), olen) >= olen + t.Size()
  {
    var ts := Middle([], t, rest);
    assert ts[0] == t && ts[1..] == rest;
    hide Middle, TokenOps;
  }

  /** With room for what is before a match, but not for all of it, the decoder reads the code of
      the match, and stops. */
  lemma {:induction false} MatchStops(d: Config, g: Grain, head: seq<Token>, t: Token, rest: seq<Token>, last: nat,
                                      out: seq<byte>)
    requires d.mode.Safe? && t.Match? && Total(head, |out|) <= d.mode.oend < Total(head, |out|) + t.len - 1
    requires t.len - 1 <= d.mode.oend
    requires Valid(d.fmt, Middle(head, t, rest), |out|) && Total(Middle(head, t, rest), |out|) < 0x8000_0000
    ensures var r := Run(d, Before(g, d.fmt, Middle(head, t, rest), last, out));
            && AllCodable(d.fmt, rest) && r.Done? && r.status == OutputOverrun && r.store.view.Tape?
            && r.store.view.ops == Encode(d.fmt, rest, t.off)
            && Reachable(head, |out|) && r.store.view.tout == Expand(head, out)
    decreases |head|
  {
    hide Run, Encode, Middle, TokenOps;
    if head == [] {
      MiddleEnd(d.fmt, t, rest, last, |out|);
      EncodeHasByte(d.fmt, rest, t.off);
      CodeRun(d, g, t, last, Encode(d.fmt, rest, t.off), out);
      CopyStops(d, g, t, Encode(d.fmt, rest, t.off), out);
    } else {
      MiddleTurn(d.fmt, head, t, rest, |out|);
      TurnOf(d, g, head, t, rest, last, out);
      MatchStops(d, g, head[1..], t, rest, LastAfter(last, head[0]), Apply(head[0], out));
    }
  }

  lemma CopyStops(d: Config, g: Grain, t: Token, rest: seq<Op>, out: seq<byte>)
    requires d.mode.Safe? && t.Match? && Codable(d.fmt, t) && |out| + t.len < 0x8000_0000
    requires d.mode.oend < |out| + t.len - 1
    ensures Run(d, State(Copy(t.off, CodedLen(d.fmt, t)), t.off, OnTape(g, rest, out)))
         == Done(OutputOverrun, OnTape(g, rest, out))
  {
    assert FinalLen(d, t.off, CodedLen(d.fmt, t)) == t.len - 1;
    hide CopyMatch;
  }

  lemma TurnOf(d: Config, g: Grain, head: seq<Token>, t: Token, rest: seq<Token>, last: nat, out: seq<byte>)
    requires d.mode.Safe? && Total(head, |out|) <= d.mode.oend && head != []
    requires Valid(d.fmt, Middle(head, t, rest), |out|) && Total(Middle(head, t, rest), |out|) < 0x8000_0000
    ensures Codable(d.fmt, head[0]) && Within(head[0], |out|) && AllCodable(d.fmt, Middle(head[1..], t, rest))
    ensures Run(d, Before(g, d.fmt, Middle(head, t, rest), last, out))
         == Run(d, Before(g, d.fmt, Middle(head[1..], t, rest), LastAfter(last, head[0]), Apply(head[0], out)))
  {
    hide Run, Middle, TokenOps;
    MiddleTurn(d.fmt, head, t, rest, |out|);
    EncodeTurn(d, g, head[0], Middle(head[1..], t, rest), last, out);
  }

  /** How much of the input has been read, in terms of the bits that are still to come. */
  lemma BitsLeft(s: Store, t: Store, srcLen: nat)
    requires Holds(s, t, srcLen)
    ensures s.Olen() == t.Olen() && 8 * s.pos + Cost(t.view.ops) < 8 * srcLen + 8 * s.w.Bytes()
  {
    LayIsLong(s.w, t.view.ops, |s.queue|);
    hide Lay, Cost, Take;
  }
}
