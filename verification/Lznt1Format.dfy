/**
 LZNT1 (section 2.5 of MS-XCA): the block decoder of libnt/lznt1.c with its sliding
 length/offset split, and the block stream around it.
 */
module Lznt1Format {
  import opened Arith
  import opened Lz77

  const MAX_BLOCK := 4096

  // ------------------------------------------------------------- the split

  /** The smallest power of two, at least 16, that covers `n`. */
  function Threshold(n: nat): (t: nat)
    ensures t >= 16 && t >= n && t % 2 == 0
  {
    if n <= 16 then 16 else 2 * Threshold((n + 1) / 2)
  }

  /** How many bits of a tuple hold the length, after `n` bytes of block output. */
  function Split(n: nat): (s: int)
    ensures s <= 12
  {
    if n <= 16 then 12 else Split((n + 1) / 2) - 1
  }

  lemma {:induction false} ThresholdMonotone(m: nat, n: nat)
    requires m <= n
    ensures Threshold(m) <= Threshold(n)
  {
    if m <= 16 {
    } else {
      ThresholdMonotone((m + 1) / 2, (n + 1) / 2);
    }
  }

  /** The split and the threshold move together, and no smaller threshold covers `n`. */
  lemma {:induction false} SplitThreshold(n: nat)
    ensures Threshold(n) == Pow2(16 - Split(n))
    ensures n > 16 ==> Threshold(n) < 2 * n
  {
    hide Pow2;
    if n <= 16 {
      Pow2Values();
    } else {
      SplitThreshold((n + 1) / 2);
      Pow2Double(16 - Split((n + 1) / 2));
    }
  }

  lemma {:induction false} SplitAtLeast(n: nat, k: nat)
    requires n <= 16 * Pow2(k)
    ensures Split(n) >= 12 - k
  {
    if n > 16 && k > 0 {
      SplitAtLeast((n + 1) / 2, k - 1);
    }
  }

  /** Every distance into the block fits the offset field of a tuple. */
  lemma {:induction false} DistancesRepresentable(n: nat, d: nat)
    requires 1 <= d <= n && Split(n) >= 0
    ensures d - 1 < Pow2(16 - Split(n))
  {
    SplitThreshold(n);
  }

  // ------------------------------------------------- the abstract decoder

  /**
   Output stays within reach of the compressed bytes read so far. This is what keeps the
   split of any block, however malformed, between 1 and 12.
   */
  predicate Bounded(limit: nat, pos: nat, size: nat) {
    pos <= limit <= pos + MAX_BLOCK && size <= 4114 + 5 * (MAX_BLOCK - (limit - pos))
  }

  lemma {:induction false} SplitInRange(limit: nat, pos: nat, size: nat)
    requires Bounded(limit, pos, size)
    ensures 1 <= Split(size) <= 12
  {
    assert Pow2(11) == 2048;
    SplitAtLeast(size, 11);
  }

  lemma {:induction false} SplitBound(n: nat, s: nat)
    requires s == Split(n) && 1 <= s
    ensures n <= 4096 ==> n + Pow2(s) + 2 <= 4114
    ensures n > 4096 ==> Pow2(s) <= 8
  {
    SplitThreshold(n);
    Pow2Values();
    assert Pow2(5) == 32 && Pow2(6) == 64 && Pow2(7) == 128;
    assert Pow2(10) == 1024 && Pow2(11) == 2048 && Pow2(13) == 8192;
    if n > 4096 {
      if s > 3 {
        Pow2Monotone(16 - s, 12);
      }
      Pow2Monotone(s, 3);
    } else if n > 16 {
      SplitAtLeast(n, 8);
    }
  }

  /** A tuple's length and distance under a given split. */
  function TupleToken(tuple: nat, split: nat): Token {
    Match(tuple / Pow2(split) + 1, tuple % Pow2(split) + 3)
  }

  lemma {:induction false} TupleBounded(limit: nat, pos: nat, size: nat, tuple: nat)
    requires Bounded(limit, pos, size) && pos + 2 <= limit
    ensures 1 <= Split(size) && Bounded(limit, pos + 2, size + TokenSize(TupleToken(tuple, Split(size))))
  {
    SplitInRange(limit, pos, size);
    SplitBound(size, Split(size));
  }

  /** The next `n` flags of a tag byte, least significant bit first. */
  function Flags(tag: nat, n: nat): (f: seq<bool>)
    ensures |f| == n
  {
    if n == 0 then [] else [tag % 2 == 1] + Flags(tag / 2, n - 1)
  }

  function DecodeItem(mem: Memory, limit: nat, pos: nat, flags: seq<bool>, size: nat): Outcome
    requires Bounded(limit, pos, size) && pos < limit && flags != []
    decreases limit - pos, 0
  {
    if !flags[0] then
      Prepend([Literal(mem(pos))], DecodeBlock(mem, limit, pos + 1, flags[1..], size + 1))
    else if pos + 2 > limit then Outcome([], -1)
    else
      TupleBounded(limit, pos, size, Word(mem, pos));
      var t := TupleToken(Word(mem, pos), Split(size));
      Prepend([t], DecodeBlock(mem, limit, pos + 2, flags[1..], size + TokenSize(t)))
  }

  /** Decoding a block from `pos` to `limit`, with `flags` left of the current tag byte. */
  function DecodeBlock(mem: Memory, limit: nat, pos: nat, flags: seq<bool>, size: nat): Outcome
    requires Bounded(limit, pos, size)
    decreases limit - pos, 1
  {
    if pos == limit then Outcome([], size)
    else if flags != [] then DecodeItem(mem, limit, pos, flags, size)
    else if pos + 1 == limit then Outcome([], size)
    else DecodeItem(mem, limit, pos + 1, Flags(mem(pos), 8), size)
  }

  function BlockLength(header: nat): (n: nat)
    ensures 1 <= n <= MAX_BLOCK
  {
    header % 4096 + 1
  }

  predicate Compressed(header: nat) {
    header / 0x8000 % 2 == 1
  }

  lemma {:induction false} LiteralsSize(ts: seq<Token>)
    requires forall i :: 0 <= i < |ts| ==> ts[i].Literal?
    ensures Size(ts) == |ts|
  {
    if ts == [] {
    } else {
      LiteralsSize(ts[1..]);
    }
  }

  function Literals(mem: Memory, pos: nat, n: nat): (ts: seq<Token>)
    ensures |ts| == n && Size(ts) == n
    ensures forall i :: 0 <= i < n ==> ts[i] == Literal(mem(pos + i))
  {
    var ts := seq(n, i requires 0 <= i < n => Literal(mem(pos + i)));
    LiteralsSize(ts);
    ts
  }

  /** A one-byte zero in last place ends the stream. */
  predicate EndMark(mem: Memory, len: nat, pos: nat) {
    pos + 1 == len && mem(pos) == 0
  }

  function Decompress(mem: Memory, len: nat, pos: nat, size: nat): Outcome
    decreases len - pos
  {
    if pos == len || EndMark(mem, len, pos) then Outcome([], size)
    else if pos + 2 > len then Outcome([], -1)
    else
      var n := BlockLength(Word(mem, pos));
      if Compressed(Word(mem, pos)) then
        var b := DecodeBlock(mem, pos + 2 + n, pos + 2, [], 0);
        if b.ret < 0 then b
        else Prepend(b.tokens, Decompress(mem, len, pos + 2 + n, size + b.ret))
      else if pos + 2 + n > len then Outcome([], -1)
      else Prepend(Literals(mem, pos + 2, n), Decompress(mem, len, pos + 2 + n, size + n))
  }

  // ---------------------------------------------------------------- tiling

  /** The block headers from `pos` on tile the input, up to one closing zero byte. */
  predicate Tiles(mem: Memory, len: nat, pos: nat)
    decreases len - pos
  {
    || pos == len
    || EndMark(mem, len, pos)
    || (pos + 2 <= len && Tiles(mem, len, pos + 2 + BlockLength(Word(mem, pos))))
  }

  /** Every compressed block on the way decodes. */
  predicate BlocksDecode(mem: Memory, len: nat, pos: nat)
    decreases len - pos
  {
    pos + 2 > len || EndMark(mem, len, pos) ||
    (var n := BlockLength(Word(mem, pos));
     && (Compressed(Word(mem, pos)) ==> DecodeBlock(mem, pos + 2 + n, pos + 2, [], 0).ret >= 0)
     && BlocksDecode(mem, len, pos + 2 + n))
  }

  /** Decompression succeeds exactly when the headers tile the input and every block decodes. */
  lemma {:induction false} SucceedsWhenTiled(mem: Memory, len: nat, pos: nat, size: nat)
    ensures Decompress(mem, len, pos, size).ret >= 0 <==> Tiles(mem, len, pos) && BlocksDecode(mem, len, pos)
    decreases len - pos
  {
    hide DecodeBlock, Literals, BlockLength, Compressed;
    if !(pos == len || EndMark(mem, len, pos)) && pos + 2 <= len {
      var n := BlockLength(Word(mem, pos));
      if Compressed(Word(mem, pos)) {
        var b := DecodeBlock(mem, pos + 2 + n, pos + 2, [], 0);
        if b.ret >= 0 {
          SucceedsWhenTiled(mem, len, pos + 2 + n, size + b.ret);
        }
      } else if pos + 2 + n <= len {
        SucceedsWhenTiled(mem, len, pos + 2 + n, size + n);
      }
    }
  }

  // ----------------------------------------------------- returns are sizes

  lemma {:induction false} ItemReturn(mem: Memory, limit: nat, pos: nat, flags: seq<bool>, size: nat)
    requires Bounded(limit, pos, size) && pos < limit && flags != []
    ensures var o := DecodeItem(mem, limit, pos, flags, size); o.ret == -1 || o.ret == size + Size(o.tokens)
    decreases limit - pos, 0
  {
    if !flags[0] {
      BlockReturn(mem, limit, pos + 1, flags[1..], size + 1);
    } else if pos + 2 <= limit {
      TupleBounded(limit, pos, size, Word(mem, pos));
      BlockReturn(mem, limit, pos + 2, flags[1..], size + TokenSize(TupleToken(Word(mem, pos), Split(size))));
    }
  }

  lemma {:induction false} BlockReturn(mem: Memory, limit: nat, pos: nat, flags: seq<bool>, size: nat)
    requires Bounded(limit, pos, size)
    ensures var o := DecodeBlock(mem, limit, pos, flags, size); o.ret == -1 || o.ret == size + Size(o.tokens)
    decreases limit - pos, 1
  {
    if pos < limit && flags != [] {
      ItemReturn(mem, limit, pos, flags, size);
    } else if pos + 1 < limit {
      ItemReturn(mem, limit, pos + 1, Flags(mem(pos), 8), size);
    }
  }

  lemma {:induction false} PrependReturn(ts: seq<Token>, o: Outcome, size: nat)
    requires o.ret == -1 || o.ret == size + Size(ts) + Size(o.tokens)
    ensures var p := Prepend(ts, o); p.ret == -1 || p.ret == size + Size(p.tokens)
  {
    SizeAppend(ts, o.tokens);
  }

  lemma {:induction false} StreamReturn(mem: Memory, len: nat, pos: nat, size: nat)
    ensures var o := Decompress(mem, len, pos, size); o.ret == -1 || o.ret == size + Size(o.tokens)
    decreases len - pos
  {
    hide DecodeBlock, Literals, BlockLength, Compressed, EndMark, Prepend, Word;
    if !(pos == len || EndMark(mem, len, pos)) && pos + 2 <= len {
      var n := BlockLength(Word(mem, pos));
      if Compressed(Word(mem, pos)) {
        var b := DecodeBlock(mem, pos + 2 + n, pos + 2, [], 0);
        BlockReturn(mem, pos + 2 + n, pos + 2, [], 0);
        if b.ret >= 0 {
          StreamReturn(mem, len, pos + 2 + n, size + b.ret);
          PrependReturn(b.tokens, Decompress(mem, len, pos + 2 + n, size + b.ret), size);
        }
      } else if pos + 2 + n <= len {
        StreamReturn(mem, len, pos + 2 + n, size + n);
        LiteralsSize(Literals(mem, pos + 2, n));
        PrependReturn(Literals(mem, pos + 2, n), Decompress(mem, len, pos + 2 + n, size + n), size);
      }
    }
  }
}
