/**
 Encoded streams of section 2.2 of MS-XCA and exactly when the decoder of libnt/xca.c returns
 the tokens they were made from.
 */
module XcaRoundTrip {
  import opened Arith
  import opened HuffmanCode
  import opened Lz77
  import opened XcaStream
  import opened XcaLayout

  // ------------------------------------------------------------ the stream

  datatype Block = Block(lengths: seq<nat>, tokens: seq<Token>)

  /** The tokens reach `n` more bytes of output with the last one, not before. */
  predicate FillsBlock(ts: seq<Token>, n: int) {
    if ts == [] then n <= 0 else n > 0 && FillsBlock(ts[1..], n - TokenSize(ts[0]))
  }

  /** No token starts once the block is full. */
  predicate FitsBlock(ts: seq<Token>, n: int) {
    ts == [] || (n > 0 && FitsBlock(ts[1..], n - TokenSize(ts[0])))
  }

  /**
   Every block but the last ends where the decoder expects the next code table. The last one
   closes with an end marker when `marked`, and is not empty otherwise.
   */
  predicate ValidStream(blocks: seq<Block>, marked: bool) {
    && blocks != []
    && var b := blocks[0];
       if |blocks| == 1 then
         && Encodable(b.lengths, b.tokens, marked) && FitsBlock(b.tokens, BLOCK_SIZE)
         && (marked || b.tokens != [])
       else
         && Encodable(b.lengths, b.tokens, false) && FillsBlock(b.tokens, BLOCK_SIZE)
         && ValidStream(blocks[1..], marked)
  }

  function AllTokens(blocks: seq<Block>): seq<Token> {
    if blocks == [] then [] else blocks[0].tokens + AllTokens(blocks[1..])
  }

  /** The code table: two 4-bit lengths a byte, the even symbol in the low nibble. */
  function TableBytes(L: seq<nat>): (b: seq<byte>)
    requires Table(L)
    ensures |b| == TABLE_BYTES
  {
    seq(TABLE_BYTES, i requires 0 <= i < TABLE_BYTES => L[2 * i] + 16 * L[2 * i + 1])
  }

  function Zeros(n: nat): (q: seq<bool>)
    ensures |q| == n
  {
    seq(n, _ => false)
  }

  function PaddedBits(L: seq<nat>, ts: seq<Token>, marked: bool): seq<bool>
    requires Encodable(L, ts, marked)
  {
    BlockBits(L, ts, marked) + Zeros(FinalBuffered(L, ts, 32, marked))
  }

  function EncodeBlock(L: seq<nat>, ts: seq<Token>, marked: bool): seq<byte>
    requires Encodable(L, ts, marked)
  {
    BitBalance(L, ts, 32, marked);
    var bits := PaddedBits(L, ts, marked);
    TableBytes(L) + WordOf(bits[..16]) + WordOf(bits[16..32]) + Fill(Cells(L, ts, 32, marked), bits[32..])
  }

  /** The whole stream, followed by any bytes `trail`. */
  function Encode(blocks: seq<Block>, marked: bool, trail: seq<byte>): seq<byte>
    requires ValidStream(blocks, marked)
  {
    var b := blocks[0];
    if |blocks| == 1 then EncodeBlock(b.lengths, b.tokens, marked) + trail
    else EncodeBlock(b.lengths, b.tokens, false) + Encode(blocks[1..], marked, trail)
  }

  lemma {:induction false} ReadsTable(L: seq<nat>, mem: Memory, pos: nat)
    requires Table(L) && At(mem, pos, TableBytes(L))
    ensures TableLengths(mem, pos) == L && Acceptable(L)
  {
    forall s | 0 <= s < CODES ensures HufLen(mem, pos, s) == L[s] {
      assert mem(pos + s / 2) == TableBytes(L)[s / 2];
    }
  }

  lemma {:induction false} FirstQueue(mem: Memory, pos: nat, bits: seq<bool>)
    requires |bits| >= 32
    requires At(mem, pos + TABLE_BYTES, WordOf(bits[..16])) && At(mem, pos + TABLE_BYTES + 2, WordOf(bits[16..32]))
    ensures StartBlock(mem, pos).queue == bits[..32]
  {
    hide At, Bits, WordOf, TableLengths;
    ReadWord(mem, pos + TABLE_BYTES, bits[..16]);
    ReadWord(mem, pos + TABLE_BYTES + 2, bits[16..32]);
    assert bits[..32] == bits[..16] + bits[16..32];
  }

  /** At a block's first byte the decoder loads its table and its first 32 bits. */
  lemma {:induction false} BlockStarts(L: seq<nat>, ts: seq<Token>, marked: bool, mem: Memory, pos: nat)
    requires Encodable(L, ts, marked) && At(mem, pos, EncodeBlock(L, ts, marked))
    ensures OnTrack(L, ts, marked, mem, StartBlock(mem, pos), PaddedBits(L, ts, marked))
    ensures EndPos(L, ts, marked, mem, StartBlock(mem, pos), PaddedBits(L, ts, marked))
         == pos + |EncodeBlock(L, ts, marked)|
    ensures |StartBlock(mem, pos).queue| == 32
    ensures TableLengths(mem, pos) == L && Acceptable(L)
  {
    hide Cells, Fill, CountWords, Table, Bits, TableLengths, Kraft, FinalBuffered;
    BitBalance(L, ts, 32, marked);
    var bits := PaddedBits(L, ts, marked);
    var t, w0, w1 := TableBytes(L), WordOf(bits[..16]), WordOf(bits[16..32]);
    var body := Fill(Cells(L, ts, 32, marked), bits[32..]);
    AtConcat(mem, pos, t + w0 + w1, body);
    AtConcat(mem, pos, t + w0, w1);
    AtConcat(mem, pos, t, w0);
    ReadsTable(L, mem, pos);
    FirstQueue(mem, pos, bits);
  }

  lemma BlockLength(L: seq<nat>, ts: seq<Token>, marked: bool)
    requires Encodable(L, ts, marked)
    ensures |EncodeBlock(L, ts, marked)| >= TABLE_BYTES + 4
  {}

  lemma EncodedLength(blocks: seq<Block>, marked: bool, trail: seq<byte>)
    requires ValidStream(blocks, marked)
    ensures |Encode(blocks, marked, trail)| >= TABLE_BYTES + 4
  {}

  // ---------------------------------------------------------- a full block

  /** A block ends as many bytes on as its cells take. */
  lemma {:induction false} BytesLeft(L: seq<nat>, ts: seq<Token>, marked: bool, mem: Memory, c: Cursor, bits: seq<bool>)
    requires OnTrack(L, ts, marked, mem, c, bits)
    ensures EndPos(L, ts, marked, mem, c, bits) == c.pos + CellBytes(Cells(L, ts, |c.queue|, marked))
  {
    hide Cells, Fill, CellBytes, BlockBits, Table, ValidToken, At;
    FillLength(Cells(L, ts, |c.queue|, marked), bits[|c.queue|..]);
  }

  lemma {:induction false} NothingLeft(L: seq<nat>, mem: Memory, c: Cursor, bits: seq<bool>)
    requires OnTrack(L, [], false, mem, c, bits)
    ensures EndPos(L, [], false, mem, c, bits) == c.pos
  {
    BytesLeft(L, [], false, mem, c, bits);
  }

  /** One token: taken for the end marker when it is a run match with at most one byte after it. */
  lemma {:induction false} TokenStep(L: seq<nat>, ts: seq<Token>, marked: bool, mem: Memory, len: nat,
                                     c: Cursor, bits: seq<bool>)
    returns (next: Cursor, rest: seq<bool>)
    requires OnTrack(L, ts, marked, mem, c, bits) && len >= EndPos(L, ts, marked, mem, c, bits) && ts != []
    ensures Ready(c) && OnTrack(L, ts[1..], marked, mem, next, rest)
    ensures EndPos(L, ts[1..], marked, mem, next, rest) == EndPos(L, ts, marked, mem, c, bits)
    ensures |next.queue| == TokenBuffered(L, ts[0], |c.queue|) && c.pos <= EndPos(L, ts, marked, mem, c, bits)
    ensures next.pos + CellBytes(Cells(L, ts[1..], |next.queue|, marked)) == EndPos(L, ts, marked, mem, c, bits)
    ensures NextToken(mem, len, c) == if LooksLikeEnd(ts[0]) && next.pos >= len - 1 then Stop else Next(ts[0], next)
    ensures L[TokenSymbol(ts[0])] + |DistanceField(ts[0])| <= |bits| && rest == BitsAfter(L, ts[0], bits)
  {
    hide Consume, At, Bits, Log2, Pow2, Kraft, Sees, End, BlockBits, Fill, NextToken, Ready, Cells;
    hide AfterToken, BitsAfter;
    BytesLeft(L, ts, marked, mem, c, bits);
    TokenDecodes(L, ts, marked, mem, len, c, bits);
    next, rest := AfterToken(mem, c, ts[0]), BitsAfter(L, ts[0], bits);
    BytesLeft(L, ts[1..], marked, mem, next, rest);
  }

  /** A full block decodes to its tokens and leaves the decoder at the next block's table. */
  lemma {:induction false} FullBlockDecodes(L: seq<nat>, ts: seq<Token>, mem: Memory, len: nat, c: Cursor,
                                            size: nat, limit: nat, bits: seq<bool>) returns (end: Cursor)
    requires OnTrack(L, ts, false, mem, c, bits) && len >= EndPos(L, ts, false, mem, c, bits) + 2
    requires FillsBlock(ts, limit - size)
    ensures size < limit ==> Ready(c)
    ensures end.pos == EndPos(L, ts, false, mem, c, bits) && size + Size(ts) >= limit
    ensures Decode(mem, len, c, size, limit)
         == Prepend(ts, Decode(mem, len, end, size + Size(ts), limit))
    decreases |ts|
  {
    hide EndPos, Cells, NextToken, Ready, Decode, DecodeToken, Sees, BlockBits, Table, ValidToken, OnTrack;
    if ts == [] {
      end := c;
      NothingLeft(L, mem, c, bits);
    } else {
      var next, rest := TokenStep(L, ts, false, mem, len, c, bits);
      DecodeStep(mem, len, c, size, limit);
      var size' := size + TokenSize(ts[0]);
      end := FullBlockDecodes(L, ts[1..], mem, len, next, size', limit, rest);
      PrependPrepend([ts[0]], ts[1..], Decode(mem, len, end, size + Size(ts), limit));
      assert ts == [ts[0]] + ts[1..];
    }
  }

  // ---------------------------------------------------------- the last block

  /** Bytes after the last token of a block: the end marker's, if it is still to be fetched, and `trail` more. */
  function LastLeft(L: seq<nat>, ts: seq<Token>, k: nat, marked: bool, trail: nat): nat
    requires Encodable(L, ts, marked) && 16 <= k <= 32
    decreases |ts|
  {
    if ts == [] then CellBytes(Cells(L, ts, k, marked)) + trail
    else LastLeft(L, ts[1..], TokenBuffered(L, ts[0], k), marked, trail)
  }

  /**
   No token is lost: after every token but the last there is a byte left to read, and after a
   run match there are two, or it is taken for the end marker.
   */
  predicate TokensRead(L: seq<nat>, ts: seq<Token>, k: nat, marked: bool, trail: nat)
    requires Encodable(L, ts, marked) && 16 <= k <= 32
    decreases |ts|
  {
    ts == [] ||
    (var k' := TokenBuffered(L, ts[0], k);
     var left := CellBytes(Cells(L, ts[1..], k', marked)) + trail;
     && (LooksLikeEnd(ts[0]) ==> left >= 2)
     && (ts[1..] != [] ==> left > 0)
     && TokensRead(L, ts[1..], k', marked, trail))
  }

  /** What is left from `pos` on reads as one more block of no tokens, closed by its end marker. */
  ghost predicate EmptyBlock(mem: Memory, pos: nat, len: nat) {
    && pos + TABLE_BYTES <= len <= pos + TABLE_BYTES + 5
    && Acceptable(TableLengths(mem, pos))
    && Symbol(TableLengths(mem, pos), StartBlock(mem, pos).queue) == END_MARKER
  }

  /** The end marker's codeword is all zeros, like the bits that pad a block. */
  predicate ZeroEnd(L: seq<nat>)
    requires ValidLengths(L) && |L| == CODES
  {
    L[END_MARKER] > 0 && CodeBits(L, END_MARKER) == Zeros(L[END_MARKER])
  }

  /**
   The decoder finds an end marker after the last token, with `k` bits buffered and `trail` bytes
   left: the one written, or, when the padding reads as one, that. It must have at most one byte
   after it, once the word it makes room for is fetched.
   */
  predicate EndFound(L: seq<nat>, marked: bool, k: nat, trail: nat)
    requires ValidLengths(L) && |L| == CODES
  {
    if marked then trail <= 1 else ZeroEnd(L) && trail <= if k < L[END_MARKER] + 16 then 3 else 1
  }

  /**
   Decoding stops right after the last token: with nothing left, or at an end marker. A full
   block's end marker is never looked at: what is left must then be a further, empty block.
   */
  ghost predicate StopsAfter(full: bool, left: nat, found: bool, mem: Memory, len: nat) {
    left == 0 || (if full then left <= len && EmptyBlock(mem, len - left, len) else found)
  }

  /** The last block returns its tokens and their size. */
  ghost predicate LastRead(L: seq<nat>, ts: seq<Token>, k: nat, marked: bool, trail: nat, full: bool,
                           mem: Memory, len: nat)
    requires Encodable(L, ts, marked) && 16 <= k <= 32
  {
    && TokensRead(L, ts, k, marked, trail)
    && StopsAfter(full, LastLeft(L, ts, k, marked, trail),
                  EndFound(L, marked, FinalBuffered(L, ts, k, marked), trail), mem, len)
  }

  /** The tokens fill the block and what is left is too short for the code table looked for. */
  predicate Overruns(L: seq<nat>, ts: seq<Token>, k: nat, marked: bool, trail: nat, full: bool)
    requires Encodable(L, ts, marked) && 16 <= k <= 32
  {
    TokensRead(L, ts, k, marked, trail) && full && 0 < LastLeft(L, ts, k, marked, trail) < TABLE_BYTES
  }

  /** The first symbol of a block never needs a further word. */
  lemma {:induction false} StartConsumes(mem: Memory, pos: nat)
    requires Acceptable(TableLengths(mem, pos))
    ensures var start := StartBlock(mem, pos);
      Consume(mem, start, SymbolBits(start.lengths, start.queue)).pos == start.pos
  {
    var start := StartBlock(mem, pos);
    assert forall s :: 0 <= s < CODES ==> start.lengths[s] == HufLen(mem, pos, s) < 16;
  }

  /** With a full block behind it, the decoder stops without another token exactly at an empty block. */
  lemma {:induction false} FullBlockStops(mem: Memory, len: nat, c: Cursor, size: nat, limit: nat)
    requires size >= limit && c.pos < len
    ensures Decode(mem, len, c, size, limit) == Outcome([], size) <==> EmptyBlock(mem, c.pos, len)
    ensures len < c.pos + TABLE_BYTES ==> Decode(mem, len, c, size, limit) == Outcome([], -1)
  {
    hide TableLengths, Bits, Kraft, Symbol, MatchToken;
    var start := StartBlock(mem, c.pos);
    if c.pos + TABLE_BYTES <= len && Acceptable(start.lengths) {
      StartConsumes(mem, c.pos);
    }
  }

  lemma NoFill(mem: Memory, c: Cursor, bits: seq<bool>)
    requires Sees(mem, c, bits, [])
    ensures End(mem, c, bits, []) == c.pos
  {}

  /** The end marker of the last block, with `trail` bytes after it. */
  lemma {:induction false} EndMarkerDecodes(L: seq<nat>, mem: Memory, len: nat, c: Cursor, bits: seq<bool>, trail: nat)
    requires OnTrack(L, [], true, mem, c, bits) && len == EndPos(L, [], true, mem, c, bits) + trail
    ensures Ready(c) && (NextToken(mem, len, c) == Stop <==> trail <= 1)
  {
    hide Consume, Bits, Kraft, Fill, CountWords, At, MatchToken, Pow2;
    var cells := Cells(L, [], |c.queue|, true);
    var n := L[END_MARKER];
    assert cells == Fetch(|c.queue|, n) + [];
    ConsumeSees(mem, c, n, bits, []);
    NoFill(mem, Consume(mem, c, n), bits[n..]);
    assert CodeBits(L, END_MARKER) == BlockBits(L, [], true);
    assert c.queue <= bits;
    HeadBits(c.queue, bits, CodeBits(L, END_MARKER), []);
    DecodesSymbol(L, c.queue, END_MARKER);
  }

  /** Bits after a block's code bits are zero. */
  ghost predicate Padded(bits: seq<bool>, code: seq<bool>) {
    |code| <= |bits| && bits == code + Zeros(|bits| - |code|)
  }

  lemma FieldLength(L: seq<nat>, t: Token)
    requires Table(L) && ValidToken(L, t)
    ensures |CodeBits(L, TokenSymbol(t))| == L[TokenSymbol(t)]
  {}

  lemma {:induction false} PaddedLater(L: seq<nat>, ts: seq<Token>, marked: bool, bits: seq<bool>)
    requires Encodable(L, ts, marked) && ts != [] && Padded(bits, BlockBits(L, ts, marked))
    ensures L[TokenSymbol(ts[0])] + |DistanceField(ts[0])| <= |bits|
    ensures Padded(BitsAfter(L, ts[0], bits), BlockBits(L, ts[1..], marked))
  {
    hide DistanceField, CodeBits, Kraft;
    var field := CodeBits(L, TokenSymbol(ts[0])) + DistanceField(ts[0]);
    var later := BlockBits(L, ts[1..], marked);
    FieldLength(L, ts[0]);
    assert BlockBits(L, ts, marked) == field + later;
    assert bits == field + (later + Zeros(|bits| - |field + later|));
  }

  lemma AllZeros(q: seq<bool>, bits: seq<bool>)
    requires q <= bits && Padded(bits, [])
    ensures q == Zeros(|q|)
  {}

  lemma {:induction false} ZerosTakeNoSpace(L: seq<nat>, m: nat, n: nat)
    requires ValidLengths(L) && m <= n <= |L| && forall i :: m <= i < n ==> L[i] == 0
    ensures Space(L, n, BITS) == Space(L, m, BITS)
    decreases n
  {
    if m == n {
    } else {
      ZerosTakeNoSpace(L, m, n - 1);
    }
  }

  lemma SpaceOfNone(L: seq<nat>)
    requires ValidLengths(L)
    ensures Space(L, 0, BITS) == 0
  {}

  lemma {:induction false} TableUsed(L: seq<nat>)
    requires Table(L)
    ensures !AllZero(L)
  {
    hide Pow2;
    if AllZero(L) {
      SpaceOfNone(L);
      ZerosTakeNoSpace(L, 0, CODES);
    }
  }

  lemma {:induction false} SymbolMatches(L: seq<nat>, q: seq<bool>)
    requires Table(L) && |q| >= 16
    ensures Acceptable(L) && Matches(L, q, Symbol(L, q)) && SymbolBits(L, q) == L[Symbol(L, q)]
    ensures forall s: nat :: s < CODES ==> |CodeBits(L, s)| == L[s]
  {
    hide Kraft;
    TableUsed(L);
  }

  /** After the last token of a block without an end marker, only zeros are buffered. */
  lemma {:induction false} PaddingDecodes(L: seq<nat>, mem: Memory, len: nat, c: Cursor, bits: seq<bool>, trail: nat)
    requires OnTrack(L, [], false, mem, c, bits) && len == EndPos(L, [], false, mem, c, bits) + trail
    requires Padded(bits, [])
    ensures Ready(c) && (NextToken(mem, len, c) == Stop <==> EndFound(L, false, |c.queue|, trail))
  {
    hide Kraft, Fill, CountWords, At, MatchToken, Pow2, Bits, EndPos, CodeBits, Word;
    NothingLeft(L, mem, c, bits);
    AllZeros(c.queue, bits);
    SymbolMatches(L, c.queue);
    var n, q := L[END_MARKER], c.queue;
    assert q[..n] == Zeros(n);
    if ZeroEnd(L) {
      DecodesSymbol(L, q, END_MARKER);
    }
  }

  /** After the last token of a block the decoder stops exactly when it finds an end marker. */
  lemma {:induction false} EndDecodes(L: seq<nat>, marked: bool, mem: Memory, len: nat, c: Cursor, bits: seq<bool>,
                                      trail: nat)
    requires OnTrack(L, [], marked, mem, c, bits) && len == EndPos(L, [], marked, mem, c, bits) + trail
    requires marked || Padded(bits, BlockBits(L, [], marked))
    ensures Ready(c) && 16 <= |c.queue| <= 32
    ensures NextToken(mem, len, c) == Stop <==> EndFound(L, marked, FinalBuffered(L, [], |c.queue|, marked), trail)
  {
    hide NextToken, Sees, Padded, EndPos;
    if marked {
      EndMarkerDecodes(L, mem, len, c, bits, trail);
    } else {
      PaddingDecodes(L, mem, len, c, bits, trail);
    }
  }

  lemma {:induction false} TrackReady(L: seq<nat>, ts: seq<Token>, marked: bool, mem: Memory, c: Cursor,
                                      bits: seq<bool>)
    requires OnTrack(L, ts, marked, mem, c, bits)
    ensures Ready(c)
  {
    hide Cells, BlockBits, ValidToken, Kraft, Sees;
  }

  lemma {:induction false} PrependCancels(a: seq<Token>, o: Outcome, b: seq<Token>, r: int)
    ensures Prepend(a, o) == Outcome(a + b, r) <==> o == Outcome(b, r)
  {
    assert (a + o.tokens)[|a|..] == o.tokens && (a + b)[|a|..] == b;
  }

  lemma {:induction false} FirstCancels(ts: seq<Token>, o: Outcome, r: int)
    requires ts != []
    ensures Prepend([ts[0]], o) == Outcome(ts, r) <==> o == Outcome(ts[1..], r)
  {
    assert ts == [ts[0]] + ts[1..];
    PrependCancels([ts[0]], o, ts[1..], r);
  }

  lemma NoneRead(L: seq<nat>, k: nat, marked: bool, trail: nat)
    requires Encodable(L, [], marked) && 16 <= k <= 32
    ensures TokensRead(L, [], k, marked, trail)
    ensures LastLeft(L, [], k, marked, trail) == CellBytes(Cells(L, [], k, marked)) + trail
    ensures !marked ==> FinalBuffered(L, [], k, marked) == k && LastLeft(L, [], k, marked, trail) == trail
  {}

  /** What reading one token asks, and what it leaves to the others. */
  lemma OneRead(L: seq<nat>, ts: seq<Token>, k: nat, marked: bool, trail: nat)
    requires Encodable(L, ts, marked) && 16 <= k <= 32 && ts != []
    ensures Encodable(L, ts[1..], marked)
    ensures var k' := TokenBuffered(L, ts[0], k);
      var left := CellBytes(Cells(L, ts[1..], k', marked)) + trail;
      && LastLeft(L, ts, k, marked, trail) == LastLeft(L, ts[1..], k', marked, trail)
      && (ts[1..] == [] ==> LastLeft(L, ts, k, marked, trail) == left)
      && FinalBuffered(L, ts, k, marked) == FinalBuffered(L, ts[1..], k', marked)
      && (TokensRead(L, ts, k, marked, trail) <==>
           && (LooksLikeEnd(ts[0]) ==> left >= 2) && (ts[1..] != [] ==> left > 0)
           && TokensRead(L, ts[1..], k', marked, trail))
      && (ts[1..] == [] ==> TokensRead(L, ts[1..], k', marked, trail))
  {}

  /** The ways decoding goes on after a token of the last block. */
  lemma {:induction false} GoesOn(L: seq<nat>, ts: seq<Token>, marked: bool, trail: nat, mem: Memory, len: nat,
                                  c: Cursor, size: nat, limit: nat, bits: seq<bool>)
    requires OnTrack(L, ts, marked, mem, c, bits) && len == EndPos(L, ts, marked, mem, c, bits) + trail
    requires FitsBlock(ts, limit - size) && (size < limit ==> Ready(c))
    ensures 16 <= |c.queue| <= 32 && c.pos + CellBytes(Cells(L, ts, |c.queue|, marked)) + trail == len
    ensures c.pos == len ==> Decode(mem, len, c, size, limit) == Outcome([], size)
    ensures c.pos < len && size < limit ==>
      Decode(mem, len, c, size, limit) == DecodeToken(mem, len, c, size, limit)
    ensures c.pos < len && size >= limit ==>
      && ts == []
      && (Decode(mem, len, c, size, limit) == Outcome([], size) <==> EmptyBlock(mem, c.pos, len))
      && (len < c.pos + TABLE_BYTES ==> Decode(mem, len, c, size, limit) == Outcome([], -1))
  {
    hide NextToken, Sees, BlockBits, Table, ValidToken, DecodeToken, EmptyBlock, StartBlock, Acceptable;
    BytesLeft(L, ts, marked, mem, c, bits);
    if c.pos < len && size >= limit {
      FullBlockStops(mem, len, c, size, limit);
    }
  }

  /** With no tokens left in a block short of full, the decoder must find an end marker. */
  lemma {:induction false} NoTokensDecode(L: seq<nat>, marked: bool, trail: nat, mem: Memory, len: nat, c: Cursor,
                                          size: nat, limit: nat, bits: seq<bool>)
    requires OnTrack(L, [], marked, mem, c, bits) && len == EndPos(L, [], marked, mem, c, bits) + trail
    requires size < limit && (marked || (Padded(bits, BlockBits(L, [], marked)) && c.pos < len))
    ensures Ready(c) && 16 <= |c.queue| <= 32
    ensures DecodeToken(mem, len, c, size, limit) == Outcome([], size)
      <==> LastRead(L, [], |c.queue|, marked, trail, false, mem, len)
  {
    hide EndPos, Cells, NextToken, Ready, Sees, BlockBits, ValidToken, CellBytes, EmptyBlock, ZeroEnd;
    hide FinalBuffered, Padded, Kraft;
    BytesLeft(L, [], marked, mem, c, bits);
    NoneRead(L, |c.queue|, marked, trail);
    EndDecodes(L, marked, mem, len, c, bits, trail);
  }

  /** What a token adds to the condition on those after it. */
  lemma {:induction false} LastReadStep(L: seq<nat>, ts: seq<Token>, k: nat, marked: bool, trail: nat, full: bool,
                                        mem: Memory, len: nat)
    requires Encodable(L, ts, marked) && 16 <= k <= 32 && ts != []
    ensures Encodable(L, ts[1..], marked)
    ensures var k' := TokenBuffered(L, ts[0], k);
      var left := CellBytes(Cells(L, ts[1..], k', marked)) + trail;
      var asked := (LooksLikeEnd(ts[0]) ==> left >= 2) && (ts[1..] != [] ==> left > 0);
      && (LastRead(L, ts, k, marked, trail, full, mem, len)
          <==> asked && LastRead(L, ts[1..], k', marked, trail, full, mem, len))
      && (Overruns(L, ts, k, marked, trail, full) <==> asked && Overruns(L, ts[1..], k', marked, trail, full))
  {
    hide EmptyBlock, TokensRead, LastLeft, EndFound, FinalBuffered, Cells, CellBytes, Table, ValidToken;
    OneRead(L, ts, k, marked, trail);
  }

  /** With no tokens left the conditions speak of what is left to read only. */
  lemma {:induction false} NoneLastRead(L: seq<nat>, k: nat, marked: bool, trail: nat, full: bool,
                                        mem: Memory, len: nat)
    requires Encodable(L, [], marked) && 16 <= k <= 32
    ensures var left := CellBytes(Cells(L, [], k, marked)) + trail;
      && (left == 0 ==> LastRead(L, [], k, marked, trail, full, mem, len))
      && (full && 0 < left <= len ==>
           (LastRead(L, [], k, marked, trail, full, mem, len) <==> EmptyBlock(mem, len - left, len)))
      && (Overruns(L, [], k, marked, trail, full) <==> full && 0 < left < TABLE_BYTES)
  {
    hide EmptyBlock, TokensRead, LastLeft, EndFound, FinalBuffered, Cells, CellBytes, Table, ValidToken;
    NoneRead(L, k, marked, trail);
  }

  lemma NotOverrun(L: seq<nat>, k: nat, marked: bool, trail: nat)
    requires Encodable(L, [], marked) && 16 <= k <= 32
    ensures !Overruns(L, [], k, marked, trail, false)
  {}

  /** Decoding the last block from a token on returns its tokens exactly when they are all read and it stops there. */
  lemma {:induction false} LastBlockDecodes(L: seq<nat>, ts: seq<Token>, marked: bool, trail: nat, mem: Memory,
                                            len: nat, c: Cursor, size: nat, limit: nat, bits: seq<bool>)
    requires OnTrack(L, ts, marked, mem, c, bits) && len == EndPos(L, ts, marked, mem, c, bits) + trail
    requires size < limit && FitsBlock(ts, limit - size)
    requires marked || (Padded(bits, BlockBits(L, ts, marked)) && (ts != [] || c.pos < len))
    ensures Ready(c) && 16 <= |c.queue| <= 32 && c.pos <= len
    ensures DecodeToken(mem, len, c, size, limit) == Outcome(ts, size + Size(ts))
      <==> LastRead(L, ts, |c.queue|, marked, trail, size + Size(ts) >= limit, mem, len)
    ensures Overruns(L, ts, |c.queue|, marked, trail, size + Size(ts) >= limit) ==>
      DecodeToken(mem, len, c, size, limit) == Outcome(ts, -1)
    decreases |ts|, 0
  {
    hide EndPos, Cells, NextToken, Ready, Decode, Sees, BlockBits, Table, ValidToken, Log2, CodeBits, CellBytes;
    hide EmptyBlock, LastRead, Overruns, Padded, BitsAfter, Prepend, TokenBuffered, LooksLikeEnd;
    BytesLeft(L, ts, marked, mem, c, bits);
    if ts == [] {
      NoTokensDecode(L, marked, trail, mem, len, c, size, limit, bits);
      NotOverrun(L, |c.queue|, marked, trail);
    } else {
      var next, rest := TokenStep(L, ts, marked, mem, len, c, bits);
      var size' := size + TokenSize(ts[0]);
      TrackReady(L, ts[1..], marked, mem, next, rest);
      var after := Decode(mem, len, next, size', limit);
      FirstCancels(ts, after, size + Size(ts));
      FirstCancels(ts, after, -1);
      if !marked {
        PaddedLater(L, ts, marked, bits);
      }
      RestDecodes(L, ts[1..], marked, trail, mem, len, next, size', limit, rest);
      LastReadStep(L, ts, |c.queue|, marked, trail, size + Size(ts) >= limit, mem, len);
    }
  }

  /** Decoding after a token of the last block. */
  lemma {:induction false} RestDecodes(L: seq<nat>, ts: seq<Token>, marked: bool, trail: nat, mem: Memory,
                                       len: nat, c: Cursor, size: nat, limit: nat, bits: seq<bool>)
    requires OnTrack(L, ts, marked, mem, c, bits) && len == EndPos(L, ts, marked, mem, c, bits) + trail
    requires FitsBlock(ts, limit - size) && (marked || Padded(bits, BlockBits(L, ts, marked)))
    ensures 16 <= |c.queue| <= 32 && c.pos <= len
    ensures var o, full := Decode(mem, len, c, size, limit), size + Size(ts) >= limit;
      && (o == Outcome(ts, size + Size(ts))
          <==> (ts != [] ==> c.pos < len) && LastRead(L, ts, |c.queue|, marked, trail, full, mem, len))
      && (Overruns(L, ts, |c.queue|, marked, trail, full) && (ts != [] ==> c.pos < len) ==> o == Outcome(ts, -1))
    decreases |ts|, 1
  {
    hide EndPos, Cells, NextToken, Ready, Decode, DecodeToken, Sees, BlockBits, Table, ValidToken, CellBytes;
    hide EmptyBlock, LastRead, Overruns, Padded;
    TrackReady(L, ts, marked, mem, c, bits);
    GoesOn(L, ts, marked, trail, mem, len, c, size, limit, bits);
    if c.pos < len && size < limit {
      LastBlockDecodes(L, ts, marked, trail, mem, len, c, size, limit, bits);
    } else if ts == [] {
      NoneLastRead(L, |c.queue|, marked, trail, size >= limit, mem, len);
    }
  }

  // -------------------------------------------------------- the whole stream

  /** A full block decodes and leaves the decoder at the blocks after it. */
  lemma {:induction false} FullStreamBlock(L: seq<nat>, ts: seq<Token>, tail: seq<byte>, mem: Memory, len: nat,
                                           c: Cursor, size: nat, limit: nat) returns (end: Cursor)
    requires Encodable(L, ts, false) && FillsBlock(ts, BLOCK_SIZE) && size >= limit && |tail| >= 2
    requires At(mem, c.pos, EncodeBlock(L, ts, false) + tail) && len == c.pos + |EncodeBlock(L, ts, false) + tail|
    ensures end.pos == c.pos + |EncodeBlock(L, ts, false)| && At(mem, end.pos, tail) && Size(ts) >= BLOCK_SIZE
    ensures Decode(mem, len, c, size, limit)
         == Prepend(ts, Decode(mem, len, end, size + Size(ts), size + BLOCK_SIZE))
  {
    hide At, Bits, Kraft, Fill, Cells, BlockBits, PaddedBits, TableLengths, Decode, DecodeToken, OnTrack, EndPos;
    hide FillsBlock, Encodable, EncodeBlock;
    AtConcat(mem, c.pos, EncodeBlock(L, ts, false), tail);
    BlockStarts(L, ts, false, mem, c.pos);
    BlockLength(L, ts, false);
    DecodeNewBlock(mem, len, c, size, limit);
    end := FullBlockDecodes(L, ts, mem, len, StartBlock(mem, c.pos), size, size + BLOCK_SIZE,
                            PaddedBits(L, ts, false));
  }

  lemma EncodedPadded(L: seq<nat>, ts: seq<Token>, marked: bool)
    requires Encodable(L, ts, marked)
    ensures Padded(PaddedBits(L, ts, marked), BlockBits(L, ts, marked))
  {}

  /** The last block from its code table on. */
  lemma {:induction false} LastStreamBlock(L: seq<nat>, ts: seq<Token>, marked: bool, trail: seq<byte>,
                                           mem: Memory, len: nat, c: Cursor, size: nat, limit: nat)
    requires Encodable(L, ts, marked) && FitsBlock(ts, BLOCK_SIZE) && size >= limit
    requires marked || ts != []
    requires At(mem, c.pos, EncodeBlock(L, ts, marked) + trail)
    requires len == c.pos + |EncodeBlock(L, ts, marked) + trail|
    ensures Decode(mem, len, c, size, limit) == Outcome(ts, size + Size(ts))
      <==> LastRead(L, ts, 32, marked, |trail|, Size(ts) >= BLOCK_SIZE, mem, len)
    ensures Overruns(L, ts, 32, marked, |trail|, Size(ts) >= BLOCK_SIZE) ==>
      Decode(mem, len, c, size, limit) == Outcome(ts, -1)
  {
    hide At, Bits, Kraft, Fill, Cells, BlockBits, PaddedBits, TableLengths, Decode, DecodeToken, OnTrack, EndPos;
    hide Encodable, EncodeBlock, LastRead, Overruns, FitsBlock;
    var start := StartBlock(mem, c.pos);
    AtConcat(mem, c.pos, EncodeBlock(L, ts, marked), trail);
    BlockStarts(L, ts, marked, mem, c.pos);
    BlockLength(L, ts, marked);
    DecodeTable(mem, len, c, size, limit);
    EncodedPadded(L, ts, marked);
    LastBlockDecodes(L, ts, marked, |trail|, mem, len, start, size, size + BLOCK_SIZE, PaddedBits(L, ts, marked));
  }

  function LastBlock(blocks: seq<Block>, marked: bool): (b: Block)
    requires ValidStream(blocks, marked)
    ensures Encodable(b.lengths, b.tokens, marked)
  {
    if |blocks| == 1 then blocks[0] else LastBlock(blocks[1..], marked)
  }

  /** Every token of the stream is read and decoding stops right after the last. */
  ghost predicate StreamRead(blocks: seq<Block>, marked: bool, trail: nat, mem: Memory, len: nat)
    requires ValidStream(blocks, marked)
  {
    var b := LastBlock(blocks, marked);
    LastRead(b.lengths, b.tokens, 32, marked, trail, Size(b.tokens) >= BLOCK_SIZE, mem, len)
  }

  predicate StreamOverruns(blocks: seq<Block>, marked: bool, trail: nat)
    requires ValidStream(blocks, marked)
  {
    var b := LastBlock(blocks, marked);
    Overruns(b.lengths, b.tokens, 32, marked, trail, Size(b.tokens) >= BLOCK_SIZE)
  }

  lemma {:induction false} StreamDecodes(blocks: seq<Block>, marked: bool, trail: seq<byte>, mem: Memory, len: nat,
                                         c: Cursor, size: nat, limit: nat)
    requires ValidStream(blocks, marked) && size >= limit
    requires At(mem, c.pos, Encode(blocks, marked, trail)) && len == c.pos + |Encode(blocks, marked, trail)|
    ensures Decode(mem, len, c, size, limit) == Outcome(AllTokens(blocks), size + Size(AllTokens(blocks)))
      <==> StreamRead(blocks, marked, |trail|, mem, len)
    ensures StreamOverruns(blocks, marked, |trail|) ==>
      Decode(mem, len, c, size, limit) == Outcome(AllTokens(blocks), -1)
    decreases |blocks|
  {
    hide At, Decode, EncodeBlock, Encodable, FillsBlock, FitsBlock, Size, LastRead, Overruns;
    var L, ts := blocks[0].lengths, blocks[0].tokens;
    if |blocks| == 1 {
      LastStreamBlock(L, ts, marked, trail, mem, len, c, size, limit);
      assert AllTokens(blocks[1..]) == [];
      assert AllTokens(blocks) == ts;
    } else {
      var later := AllTokens(blocks[1..]);
      EncodedLength(blocks[1..], marked, trail);
      var end := FullStreamBlock(L, ts, Encode(blocks[1..], marked, trail), mem, len, c, size, limit);
      StreamDecodes(blocks[1..], marked, trail, mem, len, end, size + Size(ts), size + BLOCK_SIZE);
      SizeAppend(ts, later);
      var o := Decode(mem, len, end, size + Size(ts), size + BLOCK_SIZE);
      PrependCancels(ts, o, later, size + Size(ts) + Size(later));
      PrependCancels(ts, o, later, -1);
    }
  }

  /**
   Section 2.2 of MS-XCA, round trip, for every way a stream may end. Decoding returns exactly the
   tokens and their size if and only if, in the last block, a byte is left after every token but
   the last and two after a run match, and then either nothing is left, or the decoder finds an
   end marker, or, after a full block, the rest is one more empty block.
   */
  lemma {:induction false} RoundTrip(blocks: seq<Block>, marked: bool, trail: seq<byte>, mem: Memory)
    requires ValidStream(blocks, marked) && At(mem, 0, Encode(blocks, marked, trail))
    ensures var len := |Encode(blocks, marked, trail)|;
      && (Decompress(mem, len) == Outcome(AllTokens(blocks), Size(AllTokens(blocks)))
          <==> StreamRead(blocks, marked, |trail|, mem, len))
      && (StreamOverruns(blocks, marked, |trail|) ==> Decompress(mem, len) == Outcome(AllTokens(blocks), -1))
  {
    hide StreamRead, StreamOverruns, Encode, Decode, At;
    StreamDecodes(blocks, marked, trail, mem, |Encode(blocks, marked, trail)|, Cursor([], [], 0), 0, 0);
  }

  lemma {:induction false} TrailIsLeft(L: seq<nat>, ts: seq<Token>, k: nat, marked: bool, trail: nat)
    requires Encodable(L, ts, marked) && 16 <= k <= 32
    ensures LastLeft(L, ts, k, marked, trail) >= trail
    ensures !marked ==> LastLeft(L, ts, k, marked, trail) == trail
    decreases |ts|
  {
    if ts == [] {
    } else {
      TrailIsLeft(L, ts[1..], TokenBuffered(L, ts[0], k), marked, trail);
    }
  }

  /** Nothing follows the tokens, or at most one byte an end marker, written or read from the padding. */
  predicate ShortEnds(b: Block, marked: bool, trail: nat)
    requires Encodable(b.lengths, b.tokens, marked)
  {
    if marked then trail <= 1
    else trail == 0 || EndFound(b.lengths, false, FinalBuffered(b.lengths, b.tokens, 32, false), trail)
  }

  /**
   A last block short of full decodes exactly when its tokens are read and at most one byte follows
   its end marker; without one, when nothing follows or the padding reads as an end marker.
   */
  lemma {:induction false} ShortLastBlock(blocks: seq<Block>, marked: bool, trail: nat, mem: Memory, len: nat)
    requires ValidStream(blocks, marked) && Size(LastBlock(blocks, marked).tokens) < BLOCK_SIZE
    ensures var b := LastBlock(blocks, marked);
      StreamRead(blocks, marked, trail, mem, len)
      <==> TokensRead(b.lengths, b.tokens, 32, marked, trail) && ShortEnds(b, marked, trail)
  {
    hide TokensRead, LastLeft, Encodable, ValidStream, ZeroEnd, FinalBuffered;
    var b := LastBlock(blocks, marked);
    TrailIsLeft(b.lengths, b.tokens, 32, marked, trail);
  }

  /** A full last block, with less than a code table after it, decodes exactly when nothing is left to read. */
  lemma {:induction false} FullLastBlock(blocks: seq<Block>, marked: bool, trail: nat, mem: Memory, len: nat)
    requires ValidStream(blocks, marked) && Size(LastBlock(blocks, marked).tokens) >= BLOCK_SIZE
    requires var b := LastBlock(blocks, marked); LastLeft(b.lengths, b.tokens, 32, marked, trail) < TABLE_BYTES
    ensures var b := LastBlock(blocks, marked);
      StreamRead(blocks, marked, trail, mem, len)
      <==> TokensRead(b.lengths, b.tokens, 32, marked, trail) && LastLeft(b.lengths, b.tokens, 32, marked, trail) == 0
  {
    hide TokensRead, LastLeft, Encodable, ValidStream;
  }

  lemma NoBytes(cells: seq<Cell>)
    ensures CellBytes(cells) == 0 <==> cells == []
  {}

  /** No run match stands where the end marker is all there is and nothing of it is left to fetch. */
  predicate RunsClear(L: seq<nat>, ts: seq<Token>, k: nat)
    requires Encodable(L, ts, true) && 16 <= k <= 32
    decreases |ts|
  {
    ts == [] ||
    (var k' := TokenBuffered(L, ts[0], k);
     && (LooksLikeEnd(ts[0]) ==> Cells(L, ts[1..], k', true) != [])
     && RunsClear(L, ts[1..], k'))
  }

  /** With one byte after the end marker, and a last block short of full, only run matches at the very end are lost. */
  lemma {:induction false} OneByteAfter(L: seq<nat>, ts: seq<Token>, k: nat)
    requires Encodable(L, ts, true) && 16 <= k <= 32
    ensures TokensRead(L, ts, k, true, 1) <==> RunsClear(L, ts, k)
    decreases |ts|
  {
    if ts == [] {
    } else {
      var k' := TokenBuffered(L, ts[0], k);
      OneByteAfter(L, ts[1..], k');
      NoBytes(Cells(L, ts[1..], k', true));
    }
  }

  // ----------------------------------------------------------- small streams

  const LONG_RUN := 271

  /** Codes for the literal 0, the end marker, and long matches at distance 1. */
  function FewCodes(): (L: seq<nat>)
    ensures |L| == CODES
  {
    seq(CODES, s => if s == 0 then 1 else if s == END_MARKER || s == LONG_RUN then 2 else 0)
  }

  lemma SpaceOfOne(L: seq<nat>, s: nat)
    requires ValidLengths(L) && s < |L| && 0 < L[s]
    ensures Space(L, s + 1, BITS) == Space(L, s, BITS) + Pow2(BITS - L[s])
  {}

  lemma HalfAndQuarter()
    ensures Pow2(15) == 0x8000 && Pow2(14) == 0x4000
  {
    Pow2Values();
  }

  lemma {:induction false} FewCodesTable()
    ensures Table(FewCodes())
    ensures FewCodes()[0] == 1 && FewCodes()[END_MARKER] == FewCodes()[LONG_RUN] == 2
  {
    hide Space, Pow2;
    var L := FewCodes();
    SpaceOfNone(L);
    SpaceOfOne(L, 0);
    ZerosTakeNoSpace(L, 0 + 1, END_MARKER);
    SpaceOfOne(L, END_MARKER);
    ZerosTakeNoSpace(L, END_MARKER + 1, LONG_RUN);
    SpaceOfOne(L, LONG_RUN);
    ZerosTakeNoSpace(L, LONG_RUN + 1, CODES);
    HalfAndQuarter();
  }

  predicate Few(L: seq<nat>) {
    Table(L) && L[0] == 1 && L[END_MARKER] == L[LONG_RUN] == 2
  }

  lemma LogOfOne()
    ensures Log2(1) == 0
  {}

  /** A token whose bits are all buffered takes no cells but its raw length bytes. */
  lemma {:induction false} Buffers(L: seq<nat>, t: Token, k: nat)
    requires Few(L) && 20 <= k <= 32 && (t == Literal(0) || t == Match(1, 3) || t == Match(1, 0xffff))
    ensures ValidToken(L, t)
    ensures TokenBuffered(L, t, k) == k - (if t.Literal? then 1 else 2)
    ensures TokenCells(L, t, k) == RawCells(LengthBytes(t)) && LooksLikeEnd(t) == (t == Match(1, 3))
  {
    LogOfOne();
    assert [] + RawCells(LengthBytes(t)) + [] == RawCells(LengthBytes(t));
  }

  /** The end marker's bits are buffered too. */
  lemma {:induction false} EndBuffers(L: seq<nat>, k: nat)
    requires Few(L) && 20 <= k <= 32
    ensures Encodable(L, [], true) && Cells(L, [], k, true) == [] && CellBytes(Cells(L, [], k, true)) == 0
  {}

  function TwoLiterals(): seq<Block> {
    [Block(FewCodes(), [Literal(0), Literal(0)])]
  }

  /** The cells of a second token and the end marker, in terms of the token's own. */
  lemma {:induction false} TwoCells(L: seq<nat>, t: Token, u: Token)
    requires Few(L) && ValidToken(L, t) && ValidToken(L, u)
    requires 20 <= TokenBuffered(L, t, 32) <= 32
    requires 20 <= TokenBuffered(L, u, TokenBuffered(L, t, 32)) <= 32
    ensures Encodable(L, [t, u], true) && Encodable(L, [u], true) && [t, u][1..] == [u] && [u][1..] == []
    ensures Cells(L, [u], TokenBuffered(L, t, 32), true) == TokenCells(L, u, TokenBuffered(L, t, 32))
  {
    EndBuffers(L, TokenBuffered(L, u, TokenBuffered(L, t, 32)));
    assert [u][1..] == [];
    assert TokenCells(L, u, TokenBuffered(L, t, 32)) + [] == TokenCells(L, u, TokenBuffered(L, t, 32));
  }

  lemma {:induction false} TwoTokens(t: Token, u: Token)
    ensures Size([t, u]) == TokenSize(t) + TokenSize(u)
    ensures TokenSize(t) < BLOCK_SIZE ==> FitsBlock([t, u], BLOCK_SIZE)
  {
    assert [t, u][1..] == [u] && [u][1..] == [];
    assert Size([u]) == TokenSize(u);
  }

  /** The failing input with nothing after the end marker: the last of two literals is never read. */
  lemma {:induction false} LiteralLost(mem: Memory, len: nat)
    ensures var blocks := TwoLiterals();
      ValidStream(blocks, true) && !StreamRead(blocks, true, 0, mem, len) && StreamRead(blocks, true, 1, mem, len)
  {
    hide Table, FewCodes, Cells, TokenCells, TokenBuffered, ValidToken;
    FewCodesTable();
    var L, t := FewCodes(), Literal(0);
    Buffers(L, t, 32);
    Buffers(L, t, 31);
    EndBuffers(L, 30);
    TwoCells(L, t, t);
    assert CellBytes(Cells(L, [t], 31, true)) == 0;
    OneRead(L, [t, t], 32, true, 0);
    OneRead(L, [t, t], 32, true, 1);
    OneRead(L, [t], 31, true, 1);
    NoneRead(L, 30, true, 1);
    TwoTokens(t, t);
  }

  /** Decoding its bytes with nothing after them returns something else; one more byte, whatever it is, cures it. */
  lemma {:induction false} LiteralNotDecoded(mem: Memory, trail: seq<byte>)
    requires ValidStream(TwoLiterals(), true) && |trail| <= 1 && At(mem, 0, Encode(TwoLiterals(), true, trail))
    ensures Decompress(mem, |Encode(TwoLiterals(), true, trail)|) == Outcome([Literal(0), Literal(0)], 2)
      <==> |trail| == 1
  {
    hide Encode, Decompress, StreamRead, StreamOverruns, At, FewCodes;
    var blocks, len := TwoLiterals(), |Encode(TwoLiterals(), true, trail)|;
    LiteralLost(mem, len);
    RoundTrip(blocks, true, trail, mem);
    assert AllTokens(blocks[1..]) == [];
    assert AllTokens(blocks) == [Literal(0), Literal(0)];
    TwoTokens(Literal(0), Literal(0));
  }

  /** The failing input with one byte after it: a run match right before the end marker is taken for it. */
  lemma {:induction false} RunLost(mem: Memory, len: nat)
    ensures var blocks := [Block(FewCodes(), [Match(1, 3)])];
      ValidStream(blocks, true) && !StreamRead(blocks, true, 1, mem, len)
  {
    hide Table, FewCodes, Cells, TokenCells, TokenBuffered, ValidToken;
    FewCodesTable();
    var L, t := FewCodes(), Match(1, 3);
    Buffers(L, t, 32);
    EndBuffers(L, 30);
    assert [t][1..] == [];
  }

  /** The failing input with a full last block: 65536 bytes decode with nothing after the end marker, not with one. */
  lemma {:induction false} FullBlockOverruns(mem: Memory, len: nat)
    ensures var blocks := [Block(FewCodes(), [Literal(0), Match(1, 0xffff)])];
      ValidStream(blocks, true) && StreamRead(blocks, true, 0, mem, len) && StreamOverruns(blocks, true, 1)
  {
    hide Table, FewCodes, Cells, TokenCells, TokenBuffered, ValidToken;
    FewCodesTable();
    var L, t, u := FewCodes(), Literal(0), Match(1, 0xffff);
    Buffers(L, t, 32);
    Buffers(L, u, 31);
    EndBuffers(L, 29);
    TwoCells(L, t, u);
    var raw := LengthBytes(u);
    assert raw[1..][1..][1..] == [] && RawCells(raw)[1..] == RawCells(raw[1..]);
  }
}
