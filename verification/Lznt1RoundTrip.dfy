/**
 An LZNT1 encoder for section 2.5 of MS-XCA and the proof that decoding its output gives
 back the LZ77 expansion of its blocks.
 */
module Lznt1RoundTrip {
  import opened Arith
  import opened Lz77
  import opened Lznt1Format

  // -------------------------------------------------------- compressed blocks

  /** The token can be stored after `size` bytes of block output. */
  predicate Storable(t: Token, size: nat) {
    t.Match? ==>
      && t.distance <= size
      && Split(size) >= 0 && 3 <= t.length < Pow2(Split(size)) + 3
  }

  predicate StorableFrom(ts: seq<Token>, size: nat)
    decreases |ts|
  {
    ts == [] || (Storable(ts[0], size) && StorableFrom(ts[1..], size + TokenSize(ts[0])))
  }

  lemma {:induction false} TupleFits(offset: nat, extra: nat, size: nat)
    requires Split(size) >= 0 && offset < size && extra < Pow2(Split(size))
    ensures var v := offset * Pow2(Split(size)) + extra;
      v < 0x1_0000 && v / Pow2(Split(size)) == offset && v % Pow2(Split(size)) == extra
  {
    hide Pow2, Split;
    var s := Split(size);
    DistancesRepresentable(size, offset + 1);
    DivModUnique(offset * Pow2(s) + extra, Pow2(s), offset, extra);
    MulMonotone(offset + 1, Pow2(16 - s), Pow2(s));
    MulDistributes(offset, 1, Pow2(s));
    Pow2Add(16 - s, s);
    Pow2Values();
  }

  /** The tuple of a match: offset field above the split, length field below. */
  function Tuple(t: Token, size: nat): (v: nat)
    requires t.Match? && Storable(t, size)
    ensures v < 0x1_0000 && TupleToken(v, Split(size)) == t
  {
    var s := Split(size);
    var v := (t.distance - 1) * Pow2(s) + (t.length - 3);
    TupleFits(t.distance - 1, t.length - 3, size);
    v
  }

  function ItemBytes(t: Token, size: nat): seq<byte>
    requires Storable(t, size)
  {
    match t
    case Literal(value) => [value]
    case Match(_, _) => [Tuple(t, size) % 256, Tuple(t, size) / 256]
  }

  /** The flags the next `n` tokens are announced by; absent tokens have a clear flag. */
  function TokenFlags(ts: seq<Token>, n: nat): (f: seq<bool>)
    ensures |f| == n
  {
    if n == 0 then []
    else if ts == [] then [false] + TokenFlags([], n - 1)
    else [ts[0].Match?] + TokenFlags(ts[1..], n - 1)
  }

  /** The number whose bits, least significant first, are `f`. */
  lemma FlagsStep(bit: bool, v: nat, n: nat)
    ensures Flags((if bit then 1 else 0) + 2 * v, n + 1) == [bit] + Flags(v, n)
    ensures v < Pow2(n) ==> (if bit then 1 else 0) + 2 * v < Pow2(n + 1)
  {}

  function TagOf(f: seq<bool>): (v: nat)
    ensures v < Pow2(|f|) && Flags(v, |f|) == f
  {
    if f == [] then 0
    else
      FlagsStep(f[0], TagOf(f[1..]), |f| - 1);
      assert f == [f[0]] + f[1..];
      (if f[0] then 1 else 0) + 2 * TagOf(f[1..])
  }

  function TagByte(ts: seq<Token>): (b: byte)
    ensures Flags(b, 8) == TokenFlags(ts, 8)
  {
    assert Pow2(8) == 256;
    TagOf(TokenFlags(ts, 8))
  }

  /** A block's bytes: a tag byte before every eight tokens; `room` flags are left of the current one. */
  function BlockBytes(ts: seq<Token>, room: nat, size: nat): seq<byte>
    requires room <= 8 && StorableFrom(ts, size)
    decreases |ts|, if room == 0 then 1 else 0
  {
    if ts == [] then []
    else if room == 0 then [TagByte(ts)] + BlockBytes(ts, 8, size)
    else ItemBytes(ts[0], size) + BlockBytes(ts[1..], room - 1, size + TokenSize(ts[0]))
  }

  lemma FirstItemBytes(ts: seq<Token>, room: nat, size: nat)
    requires 0 < room <= 8 && StorableFrom(ts, size) && ts != []
    ensures BlockBytes(ts, room, size) != []
  {}

  lemma BoundedPos(limit: nat, pos: nat, size: nat)
    requires Bounded(limit, pos, size)
    ensures pos <= limit
  {}

  lemma LiteralBounded(limit: nat, pos: nat, size: nat)
    requires Bounded(limit, pos, size) && pos < limit
    ensures Bounded(limit, pos + 1, size + 1)
  {}

  /** One item is read back as its token. */
  lemma {:induction false} ItemDecodes(ts: seq<Token>, room: nat, size: nat, mem: Memory, limit: nat, pos: nat)
    requires 0 < room <= 8 && ts != [] && StorableFrom(ts, size) && Bounded(limit, pos, size)
    requires At(mem, pos, ItemBytes(ts[0], size)) && limit >= pos + |ItemBytes(ts[0], size)|
    ensures var t := ts[0];
      var pos', size' := pos + |ItemBytes(t, size)|, size + TokenSize(t);
      && pos < limit && Bounded(limit, pos', size')
      && DecodeBlock(mem, limit, pos, TokenFlags(ts, room), size)
         == Prepend([t], DecodeBlock(mem, limit, pos', TokenFlags(ts[1..], room - 1), size'))
  {
    hide Pow2, Split, TupleToken, Bounded;
    var t := ts[0];
    assert TokenFlags(ts, room)[1..] == TokenFlags(ts[1..], room - 1);
    assert mem(pos + 0) == ItemBytes(t, size)[0];
    if t.Match? {
      assert mem(pos + 1) == ItemBytes(t, size)[1];
      assert Word(mem, pos) == Tuple(t, size);
      TupleBounded(limit, pos, size, Word(mem, pos));
    } else {
      LiteralBounded(limit, pos, size);
    }
    BoundedPos(limit, pos, size);
  }

  lemma NoItems(mem: Memory, limit: nat, size: nat, flags: seq<bool>)
    requires Bounded(limit, limit, size)
    ensures DecodeBlock(mem, limit, limit, flags, size) == Outcome([], size)
  {}

  /** With no flags left the decoder reads a tag byte. */
  lemma FlagsRead(mem: Memory, limit: nat, pos: nat, size: nat)
    requires Bounded(limit, pos, size) && pos + 1 < limit
    ensures Bounded(limit, pos + 1, size)
    ensures DecodeBlock(mem, limit, pos, [], size) == DecodeBlock(mem, limit, pos + 1, Flags(mem(pos), 8), size)
  {}

  /** Decoding a serialised block gives its tokens back. */
  lemma {:induction false} BlockDecodes(ts: seq<Token>, room: nat, size: nat, mem: Memory, limit: nat, pos: nat)
    requires room <= 8 && StorableFrom(ts, size) && Bounded(limit, pos, size)
    requires At(mem, pos, BlockBytes(ts, room, size)) && limit == pos + |BlockBytes(ts, room, size)|
    ensures DecodeBlock(mem, limit, pos, TokenFlags(ts, room), size) == Outcome(ts, size + Size(ts))
    decreases |ts|, if room == 0 then 1 else 0
  {
    hide Pow2, Split, Flags, TagOf, ItemBytes, DecodeBlock, Bounded;
    if ts == [] {
      NoItems(mem, limit, size, TokenFlags(ts, room));
    } else if room == 0 {
      var tag: seq<byte> := [TagByte(ts)];
      AtConcat(mem, pos, tag, BlockBytes(ts, 8, size));
      assert mem(pos + 0) == tag[0];
      FirstItemBytes(ts, 8, size);
      FlagsRead(mem, limit, pos, size);
      BlockDecodes(ts, 8, size, mem, limit, pos + 1);
    } else {
      var t, size' := ts[0], size + TokenSize(ts[0]);
      AtConcat(mem, pos, ItemBytes(t, size), BlockBytes(ts[1..], room - 1, size'));
      ItemDecodes(ts, room, size, mem, limit, pos);
      var pos' := pos + |ItemBytes(t, size)|;
      BlockDecodes(ts[1..], room - 1, size', mem, limit, pos');
      assert ts == [t] + ts[1..];
    }
  }

  // ---------------------------------------------------------------- streams

  datatype Block = Raw(bytes: seq<byte>) | Packed(tokens: seq<Token>)

  predicate ValidBlock(b: Block) {
    match b
    case Raw(bytes) => 1 <= |bytes| <= MAX_BLOCK
    case Packed(ts) => StorableFrom(ts, 0) && 1 <= |BlockBytes(ts, 0, 0)| <= MAX_BLOCK
  }

  predicate ValidBlocks(bs: seq<Block>) {
    forall i :: 0 <= i < |bs| ==> ValidBlock(bs[i])
  }

  function Body(b: Block): seq<byte>
    requires ValidBlock(b)
  {
    match b
    case Raw(bytes) => bytes
    case Packed(ts) => BlockBytes(ts, 0, 0)
  }

  /** The 16-bit header: compressed flag, signature 3, size less one. */
  function Header(b: Block): nat
    requires ValidBlock(b)
  {
    (if b.Packed? then 0xB000 else 0x3000) + (|Body(b)| - 1)
  }

  /** The stream; `terminated` adds the single zero byte. */
  function Encode(bs: seq<Block>, terminated: bool): seq<byte>
    requires ValidBlocks(bs)
  {
    if bs == [] then (if terminated then [0] else [])
    else [Header(bs[0]) % 256, Header(bs[0]) / 256] + Body(bs[0]) + Encode(bs[1..], terminated)
  }

  function LiteralTokens(bytes: seq<byte>): seq<Token> {
    seq(|bytes|, i requires 0 <= i < |bytes| => Literal(bytes[i]))
  }

  function BlockTokens(b: Block): seq<Token> {
    match b
    case Raw(bytes) => LiteralTokens(bytes)
    case Packed(ts) => ts
  }

  function AllTokens(bs: seq<Block>): seq<Token> {
    if bs == [] then [] else BlockTokens(bs[0]) + AllTokens(bs[1..])
  }

  lemma NoSize()
    ensures Size([]) == 0
  {}

  lemma {:induction false} EmptyStream(terminated: bool, mem: Memory, len: nat, pos: nat)
    requires At(mem, pos, Encode([], terminated)) && len == pos + |Encode([], terminated)|
    ensures pos == len || EndMark(mem, len, pos)
  {
    if terminated {
      assert mem(pos + 0) == Encode([], true)[0];
    }
  }

  lemma {:induction false} HeaderWord(mem: Memory, pos: nat, head: seq<byte>)
    requires |head| == 2 && At(mem, pos, head)
    ensures Word(mem, pos) == head[0] as int + 256 * head[1] as int
  {
    assert mem(pos + 0) == head[0] && mem(pos + 1) == head[1];
  }

  lemma {:induction false} ReadsHeader(b: Block, rest: seq<byte>, mem: Memory, pos: nat)
    requires ValidBlock(b)
    requires At(mem, pos, [Header(b) % 256, Header(b) / 256] + Body(b) + rest)
    ensures |Body(b)| >= 1
    ensures BlockLength(Word(mem, pos)) == |Body(b)| && (Compressed(Word(mem, pos)) <==> b.Packed?)
    ensures At(mem, pos + 2, Body(b)) && At(mem, pos + 2 + |Body(b)|, rest)
  {
    hide BlockBytes, StorableFrom, At;
    var head: seq<byte> := [Header(b) % 256, Header(b) / 256];
    AtConcat(mem, pos, head + Body(b), rest);
    AtConcat(mem, pos, head, Body(b));
    HeaderWord(mem, pos, head);
  }

  lemma {:induction false} BlockRoundTrip(b: Block, mem: Memory, pos: nat)
    requires ValidBlock(b) && At(mem, pos, Body(b))
    ensures b.Packed? ==> DecodeBlock(mem, pos + |Body(b)|, pos, [], 0) == Outcome(b.tokens, Size(b.tokens))
    ensures b.Raw? ==> Literals(mem, pos, |b.bytes|) == BlockTokens(b)
    ensures b.Raw? ==> Size(BlockTokens(b)) == |b.bytes|
  {
    if b.Packed? {
      assert TokenFlags(b.tokens, 0) == [];
      BlockDecodes(b.tokens, 0, 0, mem, pos + |Body(b)|, pos);
    } else {
      assert Literals(mem, pos, |b.bytes|) == LiteralTokens(b.bytes);
    }
  }

  lemma {:induction false} StreamDecodes(bs: seq<Block>, terminated: bool, mem: Memory, len: nat, pos: nat, size: nat)
    requires ValidBlocks(bs) && At(mem, pos, Encode(bs, terminated)) && len == pos + |Encode(bs, terminated)|
    ensures Decompress(mem, len, pos, size) == Outcome(AllTokens(bs), size + Size(AllTokens(bs)))
    decreases |bs|
  {
    hide BlockBytes, StorableFrom, DecodeBlock, Literals, LiteralTokens, Header, ValidBlock;
    hide BlockLength, Compressed, At, Size;
    NoSize();
    if bs == [] {
      EmptyStream(terminated, mem, len, pos);
    } else {
      var b := bs[0];
      assert ValidBlock(b);
      var rest := Encode(bs[1..], terminated);
      ReadsHeader(b, rest, mem, pos);
      BlockRoundTrip(b, mem, pos + 2);
      StreamDecodes(bs[1..], terminated, mem, len, pos + 2 + |Body(b)|, size + Size(BlockTokens(b)));
      SizeAppend(BlockTokens(b), AllTokens(bs[1..]));
    }
  }

  function BlockExpansion(b: Block): seq<byte> {
    match b
    case Raw(bytes) => bytes
    case Packed(ts) => Expand([], _ => 0, ts)
  }

  /** The bytes a list of blocks stands for: each block's LZ77 expansion on its own, in order. */
  function Expansion(bs: seq<Block>): seq<byte> {
    if bs == [] then []
    else BlockExpansion(bs[0]) + Expansion(bs[1..])
  }

  lemma {:induction false} StorableInRange(ts: seq<Token>, size: nat)
    requires StorableFrom(ts, size)
    ensures InRange(size, ts)
    decreases |ts|
  {
    if ts == [] {
    } else {
      StorableInRange(ts[1..], size + TokenSize(ts[0]));
    }
  }

  lemma {:induction false} CopyAfter(pre: seq<byte>, out: seq<byte>, under: Memory, other: Memory, d: Distance, n: nat)
    requires d <= |out|
    ensures Copy(pre + out, under, d, n) == pre + Copy(out, other, d, n)
    decreases n
  {
    if n == 0 {
    } else {
      var b := Back(out, other, d);
      assert Back(pre + out, under, d) == b;
      assert pre + out + [b] == pre + (out + [b]);
      CopyAfter(pre, out + [b], under, other, d, n - 1);
    }
  }

  /** Tokens that stay in range expand the same wherever they are placed. */
  lemma {:induction false} ExpandAfter(pre: seq<byte>, out: seq<byte>, under: Memory, other: Memory, ts: seq<Token>)
    requires InRange(|out|, ts)
    ensures Expand(pre + out, under, ts) == pre + Expand(out, other, ts)
    decreases |ts|
  {
    if ts == [] {
    } else {
      match ts[0]
      case Literal(v) =>
        assert pre + out + [v] == pre + (out + [v]);
        ExpandAfter(pre, out + [v], under, other, ts[1..]);
      case Match(d, n) =>
        CopyAfter(pre, out, under, other, d, n);
        ExpandAfter(pre, Copy(out, other, d, n), under, other, ts[1..]);
    }
  }

  lemma {:induction false} LiteralsExpand(pre: seq<byte>, under: Memory, bytes: seq<byte>)
    ensures Expand(pre, under, LiteralTokens(bytes)) == pre + bytes
    decreases |bytes|
  {
    if bytes == [] {
    } else {
      assert LiteralTokens(bytes)[1..] == LiteralTokens(bytes[1..]);
      LiteralsExpand(pre + [bytes[0]], under, bytes[1..]);
      assert pre + [bytes[0]] + bytes[1..] == pre + bytes;
    }
  }

  lemma {:induction false} BlockExpands(pre: seq<byte>, under: Memory, b: Block)
    requires ValidBlock(b)
    ensures Expand(pre, under, BlockTokens(b)) == pre + BlockExpansion(b)
  {
    hide LiteralTokens, Expand;
    match b {
      case Raw(bytes) => LiteralsExpand(pre, under, bytes);
      case Packed(ts) =>
        StorableInRange(ts, 0);
        ExpandAfter(pre, [], under, _ => 0, ts);
        assert pre + [] == pre;
    }
  }

  lemma ExpandNothing(pre: seq<byte>, under: Memory)
    ensures Expand(pre, under, []) == pre
  {}

  lemma {:induction false} AllTokensExpand(pre: seq<byte>, under: Memory, bs: seq<Block>)
    requires ValidBlocks(bs)
    ensures Expand(pre, under, AllTokens(bs)) == pre + Expansion(bs)
    decreases |bs|
  {
    hide BlockTokens, BlockExpansion, Expand, ValidBlock;
    if bs == [] {
      ExpandNothing(pre, under);
    } else {
      ExpandAppend(pre, under, BlockTokens(bs[0]), AllTokens(bs[1..]));
      assert ValidBlock(bs[0]);
      BlockExpands(pre, under, bs[0]);
      var part := BlockExpansion(bs[0]);
      AllTokensExpand(pre + part, under, bs[1..]);
      assert pre + part + Expansion(bs[1..]) == pre + (part + Expansion(bs[1..]));
    }
  }

  /**
   Section 2.5 of MS-XCA, round trip: whatever memory follows the stream or lies below the
   output, decoding an encoded list of blocks writes exactly its expansion.
   */
  lemma {:induction false} RoundTrip(bs: seq<Block>, terminated: bool, mem: Memory, under: Memory)
    requires ValidBlocks(bs) && At(mem, 0, Encode(bs, terminated))
    ensures var o := Decompress(mem, |Encode(bs, terminated)|, 0, 0);
      o.ret == |Expansion(bs)| && Expand([], under, o.tokens) == Expansion(bs)
  {
    hide Expand, Encode, Expansion, AllTokens, Decompress;
    StreamDecodes(bs, terminated, mem, |Encode(bs, terminated)|, 0, 0);
    AllTokensExpand([], under, bs);
    ExpandSize([], under, AllTokens(bs));
    assert [] + Expansion(bs) == Expansion(bs);
  }
}
