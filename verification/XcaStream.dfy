/**
 Section 2.2 of MS-XCA (LZ77+Huffman) as an abstract decoder: a queue of unread bits
 refilled by 16-bit words, codewords matched as bit strings, and the stop rule of
 libnt/xca.c. No accumulator, no lookup tables.
 */
module XcaStream {
  import opened Arith
  import opened HuffmanCode
  import opened Lz77

  const CODES := 512
  const TABLE_BYTES := 256
  const END_MARKER := 256
  const BLOCK_SIZE := 0x1_0000

  /** The 4-bit length of symbol `s` in the table at `pos`. */
  function HufLen(mem: Memory, pos: nat, s: nat): (n: nat)
    ensures n < 16
  {
    if s % 2 == 0 then mem(pos + s / 2) % 16 else mem(pos + s / 2) / 16
  }

  function TableLengths(mem: Memory, pos: nat): (L: seq<nat>)
    ensures |L| == CODES && ValidLengths(L)
    ensures forall s :: 0 <= s < CODES ==> L[s] == HufLen(mem, pos, s)
  {
    seq(CODES, s requires 0 <= s < CODES => HufLen(mem, pos, s))
  }

  predicate Acceptable(L: seq<nat>) {
    ValidLengths(L) && |L| == CODES && (AllZero(L) || Kraft(L) == 0x1_0000)
  }

  /** Where the decoder stands: the code in use, the unread bits fetched so far, the next byte. */
  datatype Cursor = Cursor(lengths: seq<nat>, queue: seq<bool>, pos: nat)

  ghost predicate Ready(c: Cursor) {
    Acceptable(c.lengths) && 16 <= |c.queue| <= 32
  }

  /** The symbol whose codeword begins the queue (symbol 0, one bit, in an unused code). */
  ghost function Symbol(L: seq<nat>, q: seq<bool>): (s: nat)
    requires Acceptable(L) && |q| >= BITS
    ensures s < CODES
  {
    if AllZero(L) then 0
    else
      assert exists s :: Matches(L, q, s) by {
        var s := MatchExists(L, q);
      }
      var s: nat :| Matches(L, q, s);
      s
  }

  ghost function SymbolBits(L: seq<nat>, q: seq<bool>): (n: nat)
    requires Acceptable(L) && |q| >= BITS
    ensures 1 <= n <= BITS
  {
    if AllZero(L) then 1
    else
      assert exists s :: Matches(L, q, s) by {
        var s := MatchExists(L, q);
      }
      L[Symbol(L, q)]
  }

  /** Consumes `n` bits, fetching the next word once fewer than 16 remain. */
  function Consume(mem: Memory, c: Cursor, n: nat): (r: Cursor)
    requires n <= 16 <= |c.queue| <= 32
    ensures 16 <= |r.queue| <= 32 && r.pos >= c.pos && r.lengths == c.lengths
    ensures |r.queue| - 8 * r.pos == |c.queue| - n - 8 * c.pos
  {
    var q := c.queue[n..];
    if |q| < 16 then Cursor(c.lengths, q + Bits(Word(mem, c.pos), 16), c.pos + 2)
    else Cursor(c.lengths, q, c.pos)
  }

  /** A block starts with its code table and two words. */
  function StartBlock(mem: Memory, pos: nat): Cursor {
    Cursor(TableLengths(mem, pos),
           Bits(Word(mem, pos + TABLE_BYTES), 16) + Bits(Word(mem, pos + TABLE_BYTES + 2), 16),
           pos + TABLE_BYTES + 4)
  }

  /** The match length whose low nibble is `low`, and the byte position after it. */
  function MatchLength(mem: Memory, pos: nat, low: nat): (r: (nat, nat))
    ensures r.1 >= pos
  {
    if low != 15 then (low + 3, pos)
    else if mem(pos) != 255 then (mem(pos) + 15 + 3, pos + 1)
    else (Word(mem, pos + 1) + 3, pos + 3)
  }

  /** The match distance: a leading one followed by the next `n` queued bits. */
  function MatchDistance(q: seq<bool>, n: nat): Distance
    requires n <= |q|
  {
    Pow2(n) + Val(q[..n])
  }

  /** Bits not yet read, counting those already in the queue. */
  function Left(len: nat, c: Cursor): int {
    8 * (len - c.pos) + |c.queue|
  }

  /** One decoding step: the end marker, or a token and where it leaves the decoder. */
  datatype Step = Stop | Next(token: Token, next: Cursor)

  /** The match announced by the low byte `raw` of a match symbol. */
  ghost function MatchToken(mem: Memory, c: Cursor, raw: nat): (r: Step)
    requires raw < 256 && 16 <= |c.queue| <= 32
    ensures r.Next? && r.next.lengths == c.lengths && 16 <= |r.next.queue| <= 32
    ensures 8 * r.next.pos - |r.next.queue| >= 8 * c.pos - |c.queue|
  {
    var (length, pos) := MatchLength(mem, c.pos, raw % 16);
    Next(Match(MatchDistance(c.queue, raw / 16), length), Consume(mem, c.(pos := pos), raw / 16))
  }

  ghost function NextToken(mem: Memory, len: nat, c: Cursor): (r: Step)
    requires Ready(c)
    ensures r.Next? ==> Ready(r.next) && r.next.lengths == c.lengths && Left(len, r.next) < Left(len, c)
  {
    var s := Symbol(c.lengths, c.queue);
    var c1 := Consume(mem, c, SymbolBits(c.lengths, c.queue));
    if s < END_MARKER then Next(Literal(s), c1)
    else if s == END_MARKER && c1.pos >= len - 1 then Stop
    else MatchToken(mem, c1, s - END_MARKER)
  }

  ghost function DecodeToken(mem: Memory, len: nat, c: Cursor, size: nat, limit: nat): Outcome
    requires Ready(c) && Left(len, c) >= 0 && size < limit
    decreases Left(len, c), 0
  {
    match NextToken(mem, len, c)
    case Stop => Outcome([], size)
    case Next(t, next) => Prepend([t], Decode(mem, len, next, size + TokenSize(t), limit))
  }

  /** Decoding from a token boundary, after `size` bytes of output; the block ends at `limit`. */
  ghost function Decode(mem: Memory, len: nat, c: Cursor, size: nat, limit: nat): Outcome
    requires size < limit ==> Ready(c)
    decreases Left(len, c), 1
  {
    if c.pos >= len then Outcome([], if c.pos == len then size else -1)
    else if size < limit then DecodeToken(mem, len, c, size, limit)
    else if c.pos + TABLE_BYTES > len then Outcome([], -1)
    else
      var start := StartBlock(mem, c.pos);
      if Acceptable(start.lengths) then DecodeToken(mem, len, start, size, size + BLOCK_SIZE)
      else Outcome([], -1)
  }

  /** What decompressing the `len` bytes at the start of `mem` yields. */
  ghost function Decompress(mem: Memory, len: nat): Outcome {
    Decode(mem, len, Cursor([], [], 0), 0, 0)
  }

  lemma {:induction false} DecodeStep(mem: Memory, len: nat, c: Cursor, size: nat, limit: nat)
    requires Ready(c) && c.pos < len && size < limit
    ensures Decode(mem, len, c, size, limit) ==
      match NextToken(mem, len, c)
      case Stop => Outcome([], size)
      case Next(t, next) => Prepend([t], Decode(mem, len, next, size + TokenSize(t), limit))
  {
    hide NextToken;
  }

  lemma {:induction false} DecodeNewBlock(mem: Memory, len: nat, c: Cursor, size: nat, limit: nat)
    requires c.pos + TABLE_BYTES <= len && c.pos < len && size >= limit
    requires Acceptable(TableLengths(mem, c.pos)) && StartBlock(mem, c.pos).pos < len
    ensures Decode(mem, len, c, size, limit)
         == Decode(mem, len, StartBlock(mem, c.pos), size, size + BLOCK_SIZE)
  {
    hide NextToken, TableLengths, Acceptable;
  }

  /** A block whose table is there and acceptable starts with a token, whatever is left. */
  lemma {:induction false} DecodeTable(mem: Memory, len: nat, c: Cursor, size: nat, limit: nat)
    requires c.pos + TABLE_BYTES <= len && c.pos < len && size >= limit && Acceptable(TableLengths(mem, c.pos))
    ensures Left(len, StartBlock(mem, c.pos)) >= 0
    ensures Decode(mem, len, c, size, limit)
         == DecodeToken(mem, len, StartBlock(mem, c.pos), size, size + BLOCK_SIZE)
  {
    hide NextToken, TableLengths, Acceptable;
  }

  // ----------------------------------- decoding as a run of single steps

  /** Decoding has produced `done` and continues at `c`. */
  ghost predicate Reaches(mem: Memory, len: nat, done: seq<Token>, c: Cursor, size: nat, limit: nat) {
    && (size < limit ==> Ready(c))
    && Decompress(mem, len) == Prepend(done, Decode(mem, len, c, size, limit))
  }

  ghost predicate ReachesToken(mem: Memory, len: nat, done: seq<Token>, c: Cursor, size: nat, limit: nat) {
    && Ready(c) && Left(len, c) >= 0 && size < limit
    && Decompress(mem, len) == Prepend(done, DecodeToken(mem, len, c, size, limit))
  }

  lemma RunStarts(mem: Memory, len: nat)
    ensures Reaches(mem, len, [], Cursor([], [], 0), 0, 0)
  {}

  lemma RunEnds(mem: Memory, len: nat, done: seq<Token>, c: Cursor, size: nat, limit: nat)
    requires Reaches(mem, len, done, c, size, limit) && c.pos >= len
    ensures Decompress(mem, len) == Outcome(done, if c.pos == len then size else -1)
  {}

  lemma RunEntersBlock(mem: Memory, len: nat, done: seq<Token>, c: Cursor, size: nat, limit: nat)
    requires Reaches(mem, len, done, c, size, limit) && c.pos < len
    ensures size < limit ==> ReachesToken(mem, len, done, c, size, limit)
    ensures size >= limit && (c.pos + TABLE_BYTES > len || !Acceptable(TableLengths(mem, c.pos))) ==>
      Decompress(mem, len) == Outcome(done, -1)
    ensures size >= limit && c.pos + TABLE_BYTES <= len && Acceptable(TableLengths(mem, c.pos)) ==>
      ReachesToken(mem, len, done, StartBlock(mem, c.pos), size, size + BLOCK_SIZE)
  {}

  lemma {:induction false} RunTakesToken(mem: Memory, len: nat, done: seq<Token>, c: Cursor, size: nat, limit: nat)
    requires ReachesToken(mem, len, done, c, size, limit)
    ensures Ready(c)
    ensures var r := NextToken(mem, len, c);
      if r.Stop? then Decompress(mem, len) == Outcome(done, size)
      else
        && Reaches(mem, len, done + [r.token], r.next, size + TokenSize(r.token), limit)
        && done + [r.token] <= Decompress(mem, len).tokens
  {
    var r := NextToken(mem, len, c);
    if r.Next? {
      PrependPrepend(done, [r.token], Decode(mem, len, r.next, size + TokenSize(r.token), limit));
    }
  }

  lemma {:induction false} TokenReturnIsSize(mem: Memory, len: nat, c: Cursor, size: nat, limit: nat)
    requires Ready(c) && Left(len, c) >= 0 && size < limit
    ensures var o := DecodeToken(mem, len, c, size, limit); o.ret >= 0 ==> o.ret == size + Size(o.tokens)
    ensures DecodeToken(mem, len, c, size, limit).ret >= -1
    decreases Left(len, c), 0
  {
    hide NextToken;
    var r := NextToken(mem, len, c);
    if r.Next? {
      ReturnIsSize(mem, len, r.next, size + TokenSize(r.token), limit);
      SizeAppend([r.token], Decode(mem, len, r.next, size + TokenSize(r.token), limit).tokens);
    }
  }

  /** A successful run returns the size of the tokens it produced. */
  lemma {:induction false} ReturnIsSize(mem: Memory, len: nat, c: Cursor, size: nat, limit: nat)
    requires size < limit ==> Ready(c)
    ensures var o := Decode(mem, len, c, size, limit); o.ret >= 0 ==> o.ret == size + Size(o.tokens)
    ensures Decode(mem, len, c, size, limit).ret >= -1
    decreases Left(len, c), 1
  {
    if c.pos < len && size < limit {
      TokenReturnIsSize(mem, len, c, size, limit);
    } else if c.pos < len && c.pos + TABLE_BYTES <= len && Acceptable(TableLengths(mem, c.pos)) {
      TokenReturnIsSize(mem, len, StartBlock(mem, c.pos), size, size + BLOCK_SIZE);
    }
  }
}
