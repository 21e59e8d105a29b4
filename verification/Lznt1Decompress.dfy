/** The two decompression loops of libnt/lznt1.c, proved against the decoder of `Lznt1Format`. */
module Lznt1Decompress {
  import opened Arith
  import opened Lz77
  import opened Lznt1Format

  /** Halves the length field until the offset field covers the block output. */
  method UpdateSplit(ghost before: nat, size: nat, split: int, threshold: nat) returns (split': int, threshold': nat)
    requires before <= size && split == Split(before) && threshold == Threshold(before)
    ensures split' == Split(size) && threshold' == Threshold(size)
  {
    SplitThreshold(before);
    SplitThreshold(size);
    ThresholdMonotone(before, size);
    split', threshold' := split, threshold;
    while size > threshold'
      invariant split' <= 12 && threshold' == Pow2(16 - split') <= Threshold(size)
      decreases size - threshold'
    {
      if 16 - split' >= 16 - Split(size) {
        Pow2Monotone(16 - Split(size), 16 - split');
      }
      Pow2Monotone(16 - split' + 1, 16 - Split(size));
      split', threshold' := split' - 1, threshold' * 2;
    }
    if split' > Split(size) {
      Pow2Monotone(16 - split', 16 - Split(size));
    } else if split' < Split(size) {
      Pow2Monotone(16 - Split(size), 16 - split');
    }
  }

  /** Decoding the block has produced `part` and continues at `pos` with `flags`. */
  ghost predicate Reaches(mem: Memory, limit: nat, all: Outcome, part: seq<Token>, pos: nat, flags: seq<bool>,
                          size: nat) {
    Bounded(limit, pos, size) && all == Prepend(part, DecodeBlock(mem, limit, pos, flags, size))
  }

  ghost predicate ReachesItem(mem: Memory, limit: nat, all: Outcome, part: seq<Token>, pos: nat,
                              flags: seq<bool>, size: nat) {
    && Bounded(limit, pos, size) && pos < limit && flags != []
    && all == Prepend(part, DecodeItem(mem, limit, pos, flags, size))
  }

  lemma TakesTag(mem: Memory, limit: nat, all: Outcome, part: seq<Token>, pos: nat, flags: seq<bool>, size: nat)
    requires Reaches(mem, limit, all, part, pos, flags, size)
    ensures pos == limit ==> all == Outcome(part, size)
    ensures pos < limit && flags != [] ==> ReachesItem(mem, limit, all, part, pos, flags, size)
    ensures pos + 1 == limit && flags == [] ==> all == Outcome(part, size)
    ensures pos + 1 < limit && flags == [] ==>
      ReachesItem(mem, limit, all, part, pos + 1, Flags(mem(pos), 8), size)
  {}

  lemma {:induction false} TakesItem(mem: Memory, limit: nat, all: Outcome, part: seq<Token>, pos: nat,
                                     flags: seq<bool>, size: nat)
    requires ReachesItem(mem, limit, all, part, pos, flags, size)
    ensures 1 <= Split(size) <= 12
    ensures !flags[0] ==>
      && Reaches(mem, limit, all, part + [Literal(mem(pos))], pos + 1, flags[1..], size + 1)
      && part + [Literal(mem(pos))] <= all.tokens
    ensures flags[0] && pos + 2 > limit ==> all == Outcome(part, -1)
    ensures flags[0] && pos + 2 <= limit ==>
      var t := TupleToken(Word(mem, pos), Split(size));
      && Reaches(mem, limit, all, part + [t], pos + 2, flags[1..], size + TokenSize(t))
      && part + [t] <= all.tokens
  {
    hide DecodeBlock, TupleToken, Flags;
    SplitInRange(limit, pos, size);
    if !flags[0] {
      PrependPrepend(part, [Literal(mem(pos))], DecodeBlock(mem, limit, pos + 1, flags[1..], size + 1));
    } else if pos + 2 <= limit {
      TupleBounded(limit, pos, size, Word(mem, pos));
      var t := TupleToken(Word(mem, pos), Split(size));
      PrependPrepend(part, [t], DecodeBlock(mem, limit, pos + 2, flags[1..], size + TokenSize(t)));
    }
  }

  lemma FlagsNext(tag: nat, n: nat)
    ensures n > 0 ==> (Flags(tag, n)[0] <==> tag % 2 == 1) && Flags(tag, n)[1..] == Flags(tag / 2, n - 1)
  {}

  lemma StartsBlock(mem: Memory, limit: nat, start: nat)
    requires start <= limit <= start + MAX_BLOCK
    ensures Reaches(mem, limit, DecodeBlock(mem, limit, start, [], 0), [], start, [], 0)
    ensures Split(0) == 12 && Threshold(0) == 16 && Size([]) == 0
  {}

  lemma {:induction false} PrefixOfTotal(before: seq<Token>, part: seq<Token>, block: seq<Token>, total: seq<Token>)
    requires part <= block && before + block <= total
    ensures before + part <= total
  {
    assert before + part <= before + block;
  }

  /** The block decoder: appends the block's expansion to the output written before it. */
  method Block(mem: Memory, limit: nat, start: nat, buf: array?<byte>, under: Memory, at: nat,
               ghost before: seq<Token>, ghost total: seq<Token>, ghost orig: seq<byte>) returns (ret: int)
    requires start <= limit <= start + MAX_BLOCK
    requires at == Size(before) && before + DecodeBlock(mem, limit, start, [], 0).tokens <= total
    requires buf != null ==> Size(total) <= buf.Length
    requires Written(buf, under, before, orig)
    modifies if buf == null then {} else {buf}
    ensures ret == DecodeBlock(mem, limit, start, [], 0).ret
    ensures Written(buf, under, before + DecodeBlock(mem, limit, start, [], 0).tokens, orig)
  {
    hide DecodeBlock, DecodeItem, Reaches, ReachesItem, Written, Size, Split, Threshold, TupleToken, Flags, Word;
    ghost var all := DecodeBlock(mem, limit, start, [], 0);
    var offset, size: nat, tag, tagBit := start, 0, 0, 0;
    var split, threshold := 12, 16;
    ghost var part, flags := [], [];
    StartsBlock(mem, limit, start);
    assert before + part == before;

    while offset != limit
      invariant offset <= limit && 0 <= tagBit < 8
      invariant Reaches(mem, limit, all, part, offset, flags, size)
      invariant split == Split(size) && threshold == Threshold(size)
      invariant |flags| == (if tagBit == 0 then 0 else 8 - tagBit) && flags == Flags(tag, |flags|)
      invariant at + size == Size(before + part)
      invariant Written(buf, under, before + part, orig)
      decreases limit - offset
    {
      TakesTag(mem, limit, all, part, offset, flags, size);
      if tagBit == 0 {
        tag := mem(offset);
        flags := Flags(tag, 8);
        offset := offset + 1;
        if offset == limit {
          return size;
        }
      }
      TakesItem(mem, limit, all, part, offset, flags, size);
      FlagsNext(tag, |flags|);
      var t;
      if tag % 2 == 1 {
        if offset + 2 > limit {
          return -1;
        }
        var tuple := Word(mem, offset);
        offset := offset + 2;
        t := TupleToken(tuple, split);
      } else {
        t := Literal(mem(offset));
        offset := offset + 1;
      }
      assert before + (part + [t]) == before + part + [t];
      PrefixOfTotal(before, part + [t], all.tokens, total);
      Output(buf, under, at + size, t, before + part, total, orig);
      split, threshold := UpdateSplit(size, size + TokenSize(t), split, threshold);
      size, part, flags := size + TokenSize(t), part + [t], flags[1..];
      tag := tag / 2;
      tagBit := (tagBit + 1) % 8;
    }
    TakesTag(mem, limit, all, part, offset, flags, size);
    return size;
  }

  // ------------------------------------------------------------ the stream

  ghost predicate StreamReaches(mem: Memory, len: nat, done: seq<Token>, pos: nat, size: nat) {
    Decompress(mem, len, 0, 0) == Prepend(done, Decompress(mem, len, pos, size))
  }

  lemma StreamEnds(mem: Memory, len: nat, done: seq<Token>, pos: nat, size: nat)
    requires StreamReaches(mem, len, done, pos, size)
    ensures pos == len || EndMark(mem, len, pos) ==> Decompress(mem, len, 0, 0) == Outcome(done, size)
    ensures pos != len && !EndMark(mem, len, pos) && pos + 2 > len ==>
      Decompress(mem, len, 0, 0) == Outcome(done, -1)
  {}

  lemma {:induction false} StreamBlock(mem: Memory, len: nat, done: seq<Token>, pos: nat, size: nat)
    requires StreamReaches(mem, len, done, pos, size)
    requires pos != len && !EndMark(mem, len, pos) && pos + 2 <= len
    ensures var n, all := BlockLength(Word(mem, pos)), Decompress(mem, len, 0, 0);
      if Compressed(Word(mem, pos)) then
        var b := DecodeBlock(mem, pos + 2 + n, pos + 2, [], 0);
        && done + b.tokens <= all.tokens
        && (b.ret < 0 ==> all == Outcome(done + b.tokens, b.ret))
        && (b.ret >= 0 ==> b.ret == Size(b.tokens))
        && (b.ret >= 0 ==> StreamReaches(mem, len, done + b.tokens, pos + 2 + n, size + b.ret))
      else if pos + 2 + n > len then all == Outcome(done, -1)
      else
        && done + Literals(mem, pos + 2, n) <= all.tokens
        && StreamReaches(mem, len, done + Literals(mem, pos + 2, n), pos + 2 + n, size + n)
  {
    hide DecodeBlock, BlockLength, Compressed, Literals;
    var n := BlockLength(Word(mem, pos));
    if Compressed(Word(mem, pos)) {
      var b := DecodeBlock(mem, pos + 2 + n, pos + 2, [], 0);
      BlockReturn(mem, pos + 2 + n, pos + 2, [], 0);
      if b.ret >= 0 {
        PrependPrepend(done, b.tokens, Decompress(mem, len, pos + 2 + n, size + b.ret));
      }
    } else if pos + 2 + n <= len {
      PrependPrepend(done, Literals(mem, pos + 2, n), Decompress(mem, len, pos + 2 + n, size + n));
    }
  }

  /** Copies an uncompressed block to the output. */
  method CopyBlock(mem: Memory, from: nat, n: nat, buf: array?<byte>, under: Memory, at: nat,
                   ghost before: seq<Token>, ghost total: seq<Token>, ghost orig: seq<byte>)
    requires at == Size(before) && before + Literals(mem, from, n) <= total
    requires buf != null ==> Size(total) <= buf.Length
    requires Written(buf, under, before, orig)
    modifies if buf == null then {} else {buf}
    ensures Written(buf, under, before + Literals(mem, from, n), orig)
  {
    hide Written, Size;
    var i := 0;
    assert before + Literals(mem, from, n)[..0] == before;
    while i < n
      invariant i <= n
      invariant at + i == Size(before + Literals(mem, from, n)[..i])
      invariant Written(buf, under, before + Literals(mem, from, n)[..i], orig)
    {
      ghost var all := Literals(mem, from, n);
      assert before + all[..i] + [all[i]] == before + all[..i + 1] <= before + all;
      Output(buf, under, at + i, Literal(mem(from + i)), before + all[..i], total, orig);
      i := i + 1;
    }
    assert Literals(mem, from, n)[..n] == Literals(mem, from, n);
  }

  lemma StreamStarts(mem: Memory, len: nat)
    ensures StreamReaches(mem, len, [], 0, 0) && Size([]) == 0
  {}

  /** Decompresses into `buf`, or only sizes the output when `buf` is null. */
  method DecompressInto(mem: Memory, len: nat, buf: array?<byte>, under: Memory) returns (ret: int)
    requires buf != null ==> Size(Decompress(mem, len, 0, 0).tokens) <= buf.Length
    modifies if buf == null then {} else {buf}
    ensures ret == Decompress(mem, len, 0, 0).ret
    ensures Written(buf, under, Decompress(mem, len, 0, 0).tokens, old(Contents(buf)))
  {
    hide Decompress, DecodeBlock, Written, Literals, Size;
    ghost var all, done, orig := Decompress(mem, len, 0, 0), [], Contents(buf);
    var offset: nat, outLen: nat := 0, 0;
    WrittenNothing(buf, under);
    StreamStarts(mem, len);

    while offset != len
      invariant StreamReaches(mem, len, done, offset, outLen) && outLen == Size(done)
      invariant Written(buf, under, done, orig)
      decreases len - offset
    {
      StreamEnds(mem, len, done, offset, outLen);
      if offset + 1 == len {
        if mem(offset) == 0 {
          return outLen;
        }
      }
      if offset + 2 > len {
        return -1;
      }
      StreamBlock(mem, len, done, offset, outLen);
      var header := Word(mem, offset);
      offset := offset + 2;
      var blockLen := BlockLength(header);
      if Compressed(header) {
        var limit := offset + blockLen;
        var blockOutLen := Block(mem, limit, offset, buf, under, outLen, done, all.tokens, orig);
        ghost var part := DecodeBlock(mem, limit, offset, [], 0).tokens;
        if blockOutLen < 0 {
          return blockOutLen;
        }
        SizeAppend(done, part);
        offset, outLen, done := offset + blockLen, outLen + blockOutLen, done + part;
      } else {
        if offset + blockLen > len {
          return -1;
        }
        ghost var part := Literals(mem, offset, blockLen);
        CopyBlock(mem, offset, blockLen, buf, under, outLen, done, all.tokens, orig);
        SizeAppend(done, part);
        offset, outLen, done := offset + blockLen, outLen + blockLen, done + part;
      }
    }
    StreamEnds(mem, len, done, offset, outLen);
    return outLen;
  }

  /** Sizing pass, allocation, writing pass, as utils/bmtool.c extracts an image. */
  method Extract(mem: Memory, len: nat, under: Memory) returns (image: array?<byte>)
    ensures image == null <==> Decompress(mem, len, 0, 0).ret < 0
    ensures image != null ==> fresh(image) && image.Length == Decompress(mem, len, 0, 0).ret
    ensures image != null ==> image[..] == Expand([], under, Decompress(mem, len, 0, 0).tokens)
    ensures image != null && InRange(0, Decompress(mem, len, 0, 0).tokens) ==>
      forall other: Memory :: image[..] == Expand([], other, Decompress(mem, len, 0, 0).tokens)
  {
    hide Decompress, Expand, InRange;
    var size := DecompressInto(mem, len, null, under);
    if size < 0 {
      return null;
    }
    StreamReturn(mem, len, 0, 0);
    ghost var tokens := Decompress(mem, len, 0, 0).tokens;
    image := new byte[size](_ => 0);
    var again := DecompressInto(mem, len, image, under);
    ExpandSize([], under, tokens);
    assert image[..size] == image[..];
    if InRange(0, tokens) {
      forall other: Memory ensures image[..] == Expand([], other, tokens) {
        ExpandIgnoresUnder([], under, other, tokens);
      }
    }
  }
}
