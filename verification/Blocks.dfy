/** Coding one block of a file, as exepak and uclpack use the compressor. */
module Blocks {
  import opened Nrv
  import opened Tokens
  import opened Layout
  import opened RoundTrip
  import Compressor

  /** Match finding and parsing: the tokens that a block is coded as. */
  type Finder = seq<byte> -> seq<Token>

  /** The tokens chosen for a block stand for the block. */
  predicate Chooses(find: Finder, fmt: Format, block: seq<byte>)
  {
    Valid(fmt, find(block), 0) && Expand(find(block), []) == block
  }

  ghost predicate Finds(find: Finder, fmt: Format, size: nat)
  {
    forall block: seq<byte> | 0 < |block| <= size :: Chooses(find, fmt, block)
  }

  /** What fread gives: a whole block, or what is left of the file. */
  function First(s: seq<byte>, size: nat): (block: seq<byte>)
    ensures block <= s && |block| <= size
    ensures s != [] && size > 0 ==> block != []
  {
    if |s| <= size then s else s[..size]
  }

  function Packed(fmt: Format, find: Finder, block: seq<byte>): seq<byte>
    requires Chooses(find, fmt, block)
  {
    Compressed(fmt, W8, find(block))
  }

  lemma {:induction false} SizesAreBounded(ts: seq<Token>, olen: nat)
    requires Reachable(ts, olen)
    ensures forall i | 0 <= i < |ts| :: ts[i].Match? ==> ts[i].off <= Total(ts, olen) && ts[i].len <= Total(ts, olen)
  {
    if ts != [] {
      SizesAreBounded(ts[1..], olen + ts[0].Size());
      assert forall i | 0 < i < |ts| :: ts[i] == ts[1..][i - 1];
    }
  }

  /** ucl_nrv2b/2d/2e_99_compress on one block, without a conf: no match is too long. */
  method CompressBlock(fmt: Format, find: Finder, block: seq<byte>) returns (out: seq<byte>)
    requires Chooses(find, fmt, block) && |block| < 0x8000_0000
    ensures out == Packed(fmt, find, block)
  {
    hide Compressed, Expand, Total;
    var ts := find(block);
    SizesAreBounded(ts, 0);
    ExpandLength(ts, []);
    SplitShortens(ts, 0xffff_ffff);
    var r := Compressor.Compress(fmt, W8, 0xffff_ffff, ts);
    out := r.value;
  }

  /** A compressed block is never empty. */
  lemma PackedNotEmpty(fmt: Format, find: Finder, block: seq<byte>)
    requires Chooses(find, fmt, block)
    ensures Packed(fmt, find, block) != []
  {
    var ops := Encode(fmt, find(block), 1);
    EncodeHasByte(fmt, find(block), 1);
    if Lay(W8, ops, 0) == [] {
      LayEmpty(W8, ops, 0);
    }
  }

  /** Decoding a packed block gives it back, whatever lies behind it. */
  lemma PackedDecodes(fmt: Format, find: Finder, block: seq<byte>, tail: seq<byte>)
    requires Chooses(find, fmt, block) && |block| < 0x8000_0000
    ensures forall mode | mode in {Fast, Safe(|block|)} ::
              var z := Packed(fmt, find, block);
              var r := Decode(Config(fmt, |z|, mode), Input(W8, z + tail));
              r.Done? && r.status == Ok && r.store.view.Split? && r.store.view.out == block && r.store.pos == |z|
  {
    ExpandLength(find(block), []);
    DecodeInvertsEncode(fmt, W8, find(block), |block|, tail);
  }

  /** The parsing that finds no match at all. */
  function Literals(block: seq<byte>): (ts: seq<Token>)
    ensures |ts| == |block|
  {
    if block == [] then [] else [Token.Lit(block[0])] + Literals(block[1..])
  }

  lemma {:induction false} LiteralsExpand(fmt: Format, block: seq<byte>, out: seq<byte>)
    ensures Valid(fmt, Literals(block), |out|) && Expand(Literals(block), out) == out + block
    decreases |block|
  {
    if block != [] {
      var ts := Literals(block);
      assert ts[0] == Token.Lit(block[0]) && ts[1..] == Literals(block[1..]);
      LiteralsExpand(fmt, block[1..], out + [block[0]]);
    }
  }

  /** There is always a parsing: that without matches. */
  lemma LiteralsAreFound(fmt: Format, size: nat)
    ensures Finds(Literals, fmt, size)
  {
    forall block: seq<byte> | 0 < |block| <= size
      ensures Chooses(Literals, fmt, block)
    {
      LiteralsExpand(fmt, block, []);
      assert [] + block == block;
    }
  }
}
