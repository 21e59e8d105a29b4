/**
 How section 2.2 of MS-XCA lays out a block's code bits and raw bytes, and how the decoder of
 libnt/xca.c reads one token of it.
 */
module XcaLayout {
  import opened Arith
  import opened HuffmanCode
  import opened Lz77
  import opened XcaStream

  // ------------------------------------------------------ encoding a token

  /** The position of the leading one of `d`. */
  function Log2(d: Distance): (n: nat)
    ensures Pow2(n) <= d < 2 * Pow2(n)
  {
    if d == 1 then 0 else 1 + Log2(d / 2)
  }

  lemma {:induction false} DistanceBits(d: Distance)
    requires d < 0x1_0000
    ensures Log2(d) < 16
  {
    Pow2Values();
    if Log2(d) >= 16 {
      Pow2Monotone(16, Log2(d));
    }
  }

  function TokenSymbol(t: Token): (s: nat)
    ensures t.Match? && t.distance < 0x1_0000 && t.length >= 3 ==> 256 <= s < CODES
    ensures s < CODES
  {
    match t
    case Literal(value) => value
    case Match(distance, length) =>
      if distance < 0x1_0000 && length >= 3 then
        DistanceBits(distance);
        256 + 16 * Log2(distance) + Min(length - 3, 15)
      else 0
  }

  predicate ValidToken(L: seq<nat>, t: Token)
    requires |L| == CODES
  {
    && (t.Match? ==> t.distance < 0x1_0000 && 3 <= t.length <= 0x1_0002)
    && L[TokenSymbol(t)] > 0
  }

  /** The bits after the codeword: the distance without its leading one. */
  function DistanceField(t: Token): seq<bool> {
    if t.Match? then Bits(t.distance - Pow2(Log2(t.distance)), Log2(t.distance)) else []
  }

  /** The raw bytes a long match length needs. */
  function LengthBytes(t: Token): seq<byte> {
    if t.Literal? || t.length < 18 || t.length > 0x1_0002 then []
    else if t.length < 273 then [t.length - 18]
    else [255, (t.length - 3) % 256, (t.length - 3) / 256]
  }

  // ---------------------------------------------------------- block layout

  /** A stream position: the next 16-bit word of code bits, or a raw byte. */
  datatype Cell = Word16 | Raw(value: byte)

  /** How many bits stay buffered after consuming `n` of `k`, and the word fetched, if any. */
  function Buffered(k: nat, n: nat): nat
    requires n <= 16 <= k <= 32
  {
    if k - n < 16 then k - n + 16 else k - n
  }

  function Fetch(k: nat, n: nat): seq<Cell>
    requires n <= 16 <= k <= 32
  {
    if k - n < 16 then [Word16] else []
  }

  function RawCells(bytes: seq<byte>): seq<Cell> {
    if bytes == [] then [] else [Raw(bytes[0])] + RawCells(bytes[1..])
  }

  predicate Table(L: seq<nat>) {
    && |L| == CODES && ValidLengths(L) && Kraft(L) == 0x1_0000
    && forall s :: 0 <= s < CODES ==> L[s] < 16
  }

  predicate Encodable(L: seq<nat>, ts: seq<Token>, last: bool) {
    && Table(L) && (last ==> L[END_MARKER] > 0)
    && forall i :: 0 <= i < |ts| ==> ValidToken(L, ts[i])
  }

  function TokenCells(L: seq<nat>, t: Token, k: nat): seq<Cell>
    requires Table(L) && ValidToken(L, t) && 16 <= k <= 32
  {
    var n := L[TokenSymbol(t)];
    if t.Literal? then Fetch(k, n)
    else
      DistanceBits(t.distance);
      Fetch(k, n) + RawCells(LengthBytes(t)) + Fetch(Buffered(k, n), Log2(t.distance))
  }

  function TokenBuffered(L: seq<nat>, t: Token, k: nat): (r: nat)
    requires Table(L) && ValidToken(L, t) && 16 <= k <= 32
    ensures 16 <= r <= 32
  {
    var n := L[TokenSymbol(t)];
    if t.Literal? then Buffered(k, n)
    else
      DistanceBits(t.distance);
      Buffered(Buffered(k, n), Log2(t.distance))
  }

  /** The cells after the first two words, when `k` bits are buffered; the end marker closes the last block. */
  function Cells(L: seq<nat>, ts: seq<Token>, k: nat, last: bool): seq<Cell>
    requires Encodable(L, ts, last) && 16 <= k <= 32
    decreases |ts|
  {
    if ts == [] then (if last then Fetch(k, L[END_MARKER]) else [])
    else TokenCells(L, ts[0], k) + Cells(L, ts[1..], TokenBuffered(L, ts[0], k), last)
  }

  /** The code bits of a block. */
  function BlockBits(L: seq<nat>, ts: seq<Token>, last: bool): seq<bool>
    requires Encodable(L, ts, last)
  {
    if ts == [] then (if last then CodeBits(L, END_MARKER) else [])
    else CodeBits(L, TokenSymbol(ts[0])) + DistanceField(ts[0]) + BlockBits(L, ts[1..], last)
  }

  /** The bits left buffered at the end of the block. */
  function FinalBuffered(L: seq<nat>, ts: seq<Token>, k: nat, last: bool): nat
    requires Encodable(L, ts, last) && 16 <= k <= 32
    decreases |ts|
  {
    if ts == [] then (if last then Buffered(k, L[END_MARKER]) else k)
    else FinalBuffered(L, ts[1..], TokenBuffered(L, ts[0], k), last)
  }

  function CountWords(cells: seq<Cell>): nat {
    if cells == [] then 0 else (if cells[0].Word16? then 1 else 0) + CountWords(cells[1..])
  }

  function WordOf(bits: seq<bool>): (b: seq<byte>)
    requires |bits| == 16
    ensures |b| == 2
  {
    Pow2Values();
    ValBound(bits);
    LE16(Val(bits))
  }

  /** The cells as bytes, their words filled from `bits` in order. */
  function Fill(cells: seq<Cell>, bits: seq<bool>): seq<byte>
    requires |bits| == 16 * CountWords(cells)
  {
    if cells == [] then []
    else if cells[0].Word16? then
      WordOf(bits[..16]) + Fill(cells[1..], bits[16..])
    else [cells[0].value] + Fill(cells[1..], bits)
  }

  lemma {:induction false} FetchWords(k: nat, n: nat)
    requires n <= 16 <= k <= 32
    ensures 16 * CountWords(Fetch(k, n)) == Buffered(k, n) + n - k
  {
    assert [Word16][1..] == [];
  }

  lemma {:induction false} CountWordsConcat(a: seq<Cell>, b: seq<Cell>)
    ensures CountWords(a + b) == CountWords(a) + CountWords(b)
  {
    if a == [] {
      assert a + b == b;
    } else {
      assert (a + b)[1..] == a[1..] + b;
      CountWordsConcat(a[1..], b);
    }
  }

  /** The first cell takes the first word of the bits, or none. */
  lemma {:induction false} FillFirst(a: seq<Cell>, bits: seq<bool>)
    requires a != [] && |bits| == 16 * CountWords(a)
    ensures a[0].Word16? ==> |bits| >= 16 && |bits| - 16 == 16 * CountWords(a[1..])
    ensures a[0].Word16? ==> Fill(a, bits) == WordOf(bits[..16]) + Fill(a[1..], bits[16..])
    ensures a[0].Raw? ==> |bits| == 16 * CountWords(a[1..]) && Fill(a, bits) == [a[0].value] + Fill(a[1..], bits)
  {
    hide WordOf;
  }

  lemma NoCells(bits: seq<bool>)
    ensures CountWords([]) == 0
    ensures bits == [] ==> Fill([], bits) == []
  {}

  lemma {:induction false} RawCellsFill(bytes: seq<byte>)
    ensures CountWords(RawCells(bytes)) == 0
    ensures Fill(RawCells(bytes), []) == bytes
  {
    hide Fill, WordOf;
    if bytes == [] {
      NoCells([]);
    } else {
      RawCellsFill(bytes[1..]);
      assert RawCells(bytes)[1..] == RawCells(bytes[1..]);
      FillFirst(RawCells(bytes), []);
      assert bytes == [bytes[0]] + bytes[1..];
    }
  }

  lemma {:induction false} TokenBalance(L: seq<nat>, t: Token, k: nat)
    requires Table(L) && ValidToken(L, t) && 16 <= k <= 32
    ensures L[TokenSymbol(t)] + |DistanceField(t)| + TokenBuffered(L, t, k)
         == k + 16 * CountWords(TokenCells(L, t, k))
  {
    hide CountWords, Log2, Pow2, Fetch, RawCells, LengthBytes, TokenSymbol;
    var n := L[TokenSymbol(t)];
    FetchWords(k, n);
    if t.Match? {
      DistanceBits(t.distance);
      var d := Log2(t.distance);
      FetchWords(Buffered(k, n), d);
      RawCellsFill(LengthBytes(t));
      CountWordsConcat(Fetch(k, n), RawCells(LengthBytes(t)));
      CountWordsConcat(Fetch(k, n) + RawCells(LengthBytes(t)), Fetch(Buffered(k, n), d));
    }
  }

  /** Every fetched bit is either code or still buffered at the end. */
  lemma {:induction false} BitBalance(L: seq<nat>, ts: seq<Token>, k: nat, last: bool)
    requires Encodable(L, ts, last) && 16 <= k <= 32
    ensures |BlockBits(L, ts, last)| + FinalBuffered(L, ts, k, last) == k + 16 * CountWords(Cells(L, ts, k, last))
    decreases |ts|
  {
    if ts != [] {
      var t := ts[0];
      var k' := TokenBuffered(L, t, k);
      BitBalance(L, ts[1..], k', last);
      CountWordsConcat(TokenCells(L, t, k), Cells(L, ts[1..], k', last));
      TokenBalance(L, t, k);
    } else {
      FetchWords(k, if last then L[END_MARKER] else 0);
    }
  }

  /** How many bytes the cells take. */
  function CellBytes(cells: seq<Cell>): nat {
    if cells == [] then 0 else (if cells[0].Word16? then 2 else 1) + CellBytes(cells[1..])
  }

  lemma {:induction false} FillLength(cells: seq<Cell>, bits: seq<bool>)
    requires |bits| == 16 * CountWords(cells)
    ensures |Fill(cells, bits)| == CellBytes(cells)
  {
    hide WordOf;
    if cells == [] {
    } else {
      FillLength(cells[1..], if cells[0].Word16? then bits[16..] else bits);
    }
  }

  // ------------------------------------------------- what the decoder sees

  lemma {:induction false} ReadWord(mem: Memory, pos: nat, bits: seq<bool>)
    requires |bits| == 16 && At(mem, pos, WordOf(bits))
    ensures Bits(Word(mem, pos), 16) == bits
  {
    hide Bits, Val, Pow2;
    Pow2Values();
    ValBound(bits);
    assert mem(pos + 0) == WordOf(bits)[0] && mem(pos + 1) == WordOf(bits)[1];
    LowWord(Val(bits));
    BitsOfVal(bits);
  }

  /** The three parts of a bit string whose first word and first `m` bits are cut off. */
  lemma {:induction false} CutWord(bits: seq<bool>, m: nat)
    requires 16 <= m <= |bits|
    ensures bits[..m][..16] == bits[..16]
    ensures bits[..m][16..] == bits[16..][..m - 16]
    ensures bits[16..][m - 16..] == bits[m..]
  {}

  lemma {:induction false} FillConcat(a: seq<Cell>, b: seq<Cell>, bits: seq<bool>)
    requires |bits| == 16 * CountWords(a + b)
    ensures CountWords(a + b) == CountWords(a) + CountWords(b)
    ensures Fill(a + b, bits) == Fill(a, bits[..16 * CountWords(a)]) + Fill(b, bits[16 * CountWords(a)..])
  {
    hide WordOf, Fill, CountWords;
    CountWordsConcat(a, b);
    if a == [] {
      assert a + b == b;
      assert bits[0..] == bits;
      NoCells(bits[..0]);
    } else {
      var m := 16 * CountWords(a);
      assert (a + b)[1..] == a[1..] + b;
      FillFirst(a + b, bits);
      FillFirst(a, bits[..m]);
      if a[0].Word16? {
        FillConcat(a[1..], b, bits[16..]);
        CutWord(bits, m);
      } else {
        FillConcat(a[1..], b, bits);
      }
    }
  }

  /**
   The decoder's view of a partly read block: the queue holds the first bits of the
   block, and memory holds the cells with the remaining ones.
   */
  ghost predicate Sees(mem: Memory, c: Cursor, bits: seq<bool>, cells: seq<Cell>) {
    && 16 <= |c.queue| <= 32
    && |bits| == |c.queue| + 16 * CountWords(cells)
    && c.queue == bits[..|c.queue|]
    && At(mem, c.pos, Fill(cells, bits[|c.queue|..]))
  }

  /** Where the cells end. */
  ghost function End(mem: Memory, c: Cursor, bits: seq<bool>, cells: seq<Cell>): nat
    requires Sees(mem, c, bits, cells)
  {
    c.pos + |Fill(cells, bits[|c.queue|..])|
  }

  lemma {:induction false} FillOneWord(bits: seq<bool>)
    requires |bits| == 16
    ensures CountWords([Word16]) == 1 && Fill([Word16], bits) == WordOf(bits)
  {
    assert [Word16][1..] == [];
    assert bits[..16] == bits && bits[16..] == [];
  }

  /** Consuming bits moves past exactly the word the layout fetches. */
  lemma {:induction false} ConsumeSees(mem: Memory, c: Cursor, n: nat, bits: seq<bool>, rest: seq<Cell>)
    requires n <= 16 <= |c.queue| <= 32 && Sees(mem, c, bits, Fetch(|c.queue|, n) + rest)
    ensures var r := Consume(mem, c, n);
      && Sees(mem, r, bits[n..], rest)
      && r.queue <= bits[n..]
      && |r.queue| == Buffered(|c.queue|, n)
      && End(mem, r, bits[n..], rest) == End(mem, c, bits, Fetch(|c.queue|, n) + rest)
  {
    hide WordOf, Fill;
    var k := |c.queue|;
    var head := Fetch(k, n);
    FillConcat(head, rest, bits[k..]);
    var m := 16 * CountWords(head);
    if k - n < 16 {
      assert head[1..] == [];
      assert m == 16;
      FillOneWord(bits[k..k + 16]);
      assert bits[k..][..16] == bits[k..k + 16];
      AtConcat(mem, c.pos, WordOf(bits[k..k + 16]), Fill(rest, bits[k..][16..]));
      ReadWord(mem, c.pos, bits[k..k + 16]);
      assert bits[k..][16..] == bits[n..][k - n + 16..];
      assert c.queue[n..] + bits[k..k + 16] == bits[n..][..k - n + 16];
    } else {
      assert head == [] && head + rest == rest;
      assert bits[k..][0..] == bits[n..][k - n..];
      assert c.queue[n..] == bits[n..][..k - n];
    }
  }

  /** Raw bytes are read where the layout puts them. */
  lemma {:induction false} SkipRaw(mem: Memory, c: Cursor, bytes: seq<byte>, bits: seq<bool>, rest: seq<Cell>)
    requires Sees(mem, c, bits, RawCells(bytes) + rest)
    ensures At(mem, c.pos, bytes)
    ensures var r := c.(pos := c.pos + |bytes|);
      && Sees(mem, r, bits, rest)
      && End(mem, r, bits, rest) == End(mem, c, bits, RawCells(bytes) + rest)
  {
    hide Fill, RawCells, CountWords, Pow2, WordOf, At;
    var k := |c.queue|;
    RawCellsFill(bytes);
    FillConcat(RawCells(bytes), rest, bits[k..]);
    assert bits[k..][..0] == [];
    assert bits[k..][0..] == bits[k..];
    AtConcat(mem, c.pos, bytes, Fill(rest, bits[k..]));
  }

  lemma {:induction false} ReadLengthBytes(mem: Memory, pos: nat, t: Token)
    requires t.Match? && 3 <= t.length <= 0x1_0002 && At(mem, pos, LengthBytes(t))
    ensures MatchLength(mem, pos, Min(t.length - 3, 15)) == (t.length, pos + |LengthBytes(t)|)
  {
    var b := LengthBytes(t);
    if t.length >= 18 {
      assert mem(pos + 0) == b[0];
      if t.length >= 273 {
        assert mem(pos + 1) == b[1] && mem(pos + 2) == b[2];
      }
    }
  }

  lemma {:induction false} ReadDistance(q: seq<bool>, t: Token)
    requires t.Match? && t.distance < 0x1_0000 && DistanceField(t) <= q
    ensures Log2(t.distance) <= |q| && MatchDistance(q, Log2(t.distance)) == t.distance
  {
    var n := Log2(t.distance);
    assert q[..n] == DistanceField(t);
    ValOfBits(t.distance - Pow2(n), n);
  }

  lemma {:induction false} DecodesSymbol(L: seq<nat>, q: seq<bool>, s: nat)
    requires Table(L) && |q| >= 16 && s < CODES && L[s] > 0 && CodeBits(L, s) <= q
    ensures Acceptable(L) && Symbol(L, q) == s && SymbolBits(L, q) == L[s]
  {
    assert !AllZero(L);
    assert Matches(L, q, s);
    MatchUnique(L, q, s, Symbol(L, q));
  }

  // ------------------------------------------------------ one decoded token

  /** A run match (distance 1, length 3) shares its symbol with the end marker. */
  predicate LooksLikeEnd(t: Token) {
    t == Match(1, 3)
  }

  lemma {:induction false} OnlyRunsLookLikeEnd(t: Token)
    requires t.Match? ==> t.distance < 0x1_0000 && 3 <= t.length <= 0x1_0002
    ensures TokenSymbol(t) == END_MARKER <==> LooksLikeEnd(t)
  {
    if t.Match? && t.distance > 1 {
      assert Log2(t.distance) >= 1;
    }
  }

  /** The decoder stands before the tokens `ts` of a block, whose unread bits are `bits`. */
  ghost predicate OnTrack(L: seq<nat>, ts: seq<Token>, last: bool, mem: Memory, c: Cursor, bits: seq<bool>) {
    && Encodable(L, ts, last) && c.lengths == L
    && 16 <= |c.queue| <= 32
    && Sees(mem, c, bits, Cells(L, ts, |c.queue|, last))
    && BlockBits(L, ts, last) <= bits
  }

  /** Where the block ends. */
  ghost function EndPos(L: seq<nat>, ts: seq<Token>, last: bool, mem: Memory, c: Cursor, bits: seq<bool>): nat
    requires OnTrack(L, ts, last, mem, c, bits)
  {
    End(mem, c, bits, Cells(L, ts, |c.queue|, last))
  }

  /** What the decoder sees after the first token of `ts`. */
  ghost function AfterToken(mem: Memory, c: Cursor, t: Token): Cursor
    requires Table(c.lengths) && ValidToken(c.lengths, t) && 16 <= |c.queue| <= 32
  {
    var c1 := Consume(mem, c, c.lengths[TokenSymbol(t)]);
    if t.Literal? then c1
    else
      DistanceBits(t.distance);
      Consume(mem, c1.(pos := c1.pos + |LengthBytes(t)|), Log2(t.distance))
  }

  ghost function BitsAfter(L: seq<nat>, t: Token, bits: seq<bool>): seq<bool>
    requires Table(L) && ValidToken(L, t)
    requires L[TokenSymbol(t)] + |DistanceField(t)| <= |bits|
  {
    bits[L[TokenSymbol(t)] + |DistanceField(t)|..]
  }

  /** The first field of `ts` and what the rest of the block's bits begin with. */
  lemma {:induction false} FirstField(L: seq<nat>, ts: seq<Token>, last: bool, mem: Memory, c: Cursor, bits: seq<bool>)
    requires OnTrack(L, ts, last, mem, c, bits) && ts != []
    ensures Encodable(L, ts[1..], last) && c.queue <= bits
    ensures ts[0].Match? ==> Log2(ts[0].distance) < 16
    ensures CodeBits(L, TokenSymbol(ts[0])) + (DistanceField(ts[0]) + BlockBits(L, ts[1..], last)) <= bits
  {
    hide Cells, Fill, CountWords, At, Bits, Log2, Pow2, Kraft, CodeBits, DistanceField;
    var code, field, later := CodeBits(L, TokenSymbol(ts[0])), DistanceField(ts[0]), BlockBits(L, ts[1..], last);
    if ts[0].Match? {
      DistanceBits(ts[0].distance);
    }
    assert code + field + later == code + (field + later);
  }

  lemma LiteralCells(L: seq<nat>, ts: seq<Token>, k: nat, last: bool)
    requires Encodable(L, ts, last) && 16 <= k <= 32 && ts != [] && ts[0].Literal?
    ensures Encodable(L, ts[1..], last)
    ensures Cells(L, ts, k, last)
      == Fetch(k, L[TokenSymbol(ts[0])]) + Cells(L, ts[1..], TokenBuffered(L, ts[0], k), last)
  {}

  /** The first bits of a block are in the queue as far as one field goes. */
  lemma {:induction false} HeadBits(queue: seq<bool>, bits: seq<bool>, field: seq<bool>, rest: seq<bool>)
    requires queue <= bits && |field| <= |queue|
    requires field + rest <= bits
    ensures field <= queue && rest <= bits[|field|..]
  {
    assert field == (field + rest)[..|field|] == bits[..|field|] == queue[..|field|];
    assert rest == (field + rest)[|field|..];
    assert bits[|field|..][..|rest|] == bits[..|field + rest|][|field|..];
  }

  lemma {:induction false} LiteralDecodes(L: seq<nat>, ts: seq<Token>, last: bool, mem: Memory, c: Cursor,
                                          bits: seq<bool>)
    requires OnTrack(L, ts, last, mem, c, bits) && ts != [] && ts[0].Literal?
    ensures L[TokenSymbol(ts[0])] <= |bits|
    ensures var next, rest := AfterToken(mem, c, ts[0]), BitsAfter(L, ts[0], bits);
      && OnTrack(L, ts[1..], last, mem, next, rest)
      && |next.queue| == TokenBuffered(L, ts[0], |c.queue|)
      && EndPos(L, ts[1..], last, mem, next, rest) == EndPos(L, ts, last, mem, c, bits)
  {
    hide Fill, Consume, CountWords, Fetch, RawCells, At, Bits, Log2, Pow2, Cells, BlockBits, Sees, End, Kraft;
    var t := ts[0];
    var n := L[TokenSymbol(t)];
    var tail := Cells(L, ts[1..], TokenBuffered(L, t, |c.queue|), last);
    FirstField(L, ts, last, mem, c, bits);
    LiteralCells(L, ts, |c.queue|, last);
    assert DistanceField(t) + BlockBits(L, ts[1..], last) == BlockBits(L, ts[1..], last);
    HeadBits(c.queue, bits, CodeBits(L, TokenSymbol(t)), BlockBits(L, ts[1..], last));
    ConsumeSees(mem, c, n, bits, tail);
  }

  lemma SeqAssoc<T>(a: seq<T>, b: seq<T>, c: seq<T>, d: seq<T>)
    ensures a + b + c + d == a + (b + (c + d))
  {}

  lemma {:induction false} MatchCells(L: seq<nat>, ts: seq<Token>, k: nat, last: bool)
    requires Encodable(L, ts, last) && 16 <= k <= 32 && ts != [] && ts[0].Match?
    ensures Log2(ts[0].distance) < 16 && Encodable(L, ts[1..], last)
    ensures var t := ts[0];
      var n, d := L[TokenSymbol(t)], Log2(t.distance);
      Cells(L, ts, k, last)
      == Fetch(k, n) + (RawCells(LengthBytes(t)) + (Fetch(Buffered(k, n), d)
         + Cells(L, ts[1..], TokenBuffered(L, t, k), last)))
  {
    var t := ts[0];
    DistanceBits(t.distance);
    var n, d := L[TokenSymbol(t)], Log2(t.distance);
    SeqAssoc(Fetch(k, n), RawCells(LengthBytes(t)), Fetch(Buffered(k, n), d),
             Cells(L, ts[1..], TokenBuffered(L, t, k), last));
  }

  /** The cells of a match: its codeword's fetch, its raw bytes, its distance's fetch. */
  function MatchLayout(k: nat, n: nat, raw: seq<byte>, d: nat, tail: seq<Cell>): seq<Cell>
    requires n <= 16 <= k <= 32 && d <= 16
  {
    Fetch(k, n) + (RawCells(raw) + (Fetch(Buffered(k, n), d) + tail))
  }

  /** The decoder sees the cells, which end at `end`. */
  ghost predicate SeesTo(mem: Memory, c: Cursor, bits: seq<bool>, cells: seq<Cell>, end: nat) {
    Sees(mem, c, bits, cells) && End(mem, c, bits, cells) == end
  }

  /** Codeword, raw length bytes, then distance bits: the order the decoder reads a match in. */
  lemma {:induction false} MatchFields(mem: Memory, c: Cursor, bits: seq<bool>, n: nat, raw: seq<byte>, d: nat,
                    code: seq<bool>, field: seq<bool>, later: seq<bool>, tail: seq<Cell>,
                    end: nat)
    requires n <= 16 && d <= 16 && |code| == n && |field| == d && 16 <= |c.queue| <= 32
    requires c.queue <= bits && code + (field + later) <= bits
    requires SeesTo(mem, c, bits, MatchLayout(|c.queue|, n, raw, d, tail), end)
    ensures n + d <= |bits| && later <= bits[n + d..]
    ensures var c1 := Consume(mem, c, n);
      && At(mem, c1.pos, raw) && field <= c1.queue
      && var next := Consume(mem, c1.(pos := c1.pos + |raw|), d);
      && |next.queue| == Buffered(Buffered(|c.queue|, n), d)
      && SeesTo(mem, next, bits[n + d..], tail, end)
  {
    hide Sees, Fill, End, Consume, At, CountWords, RawCells, Fetch, Bits, Pow2;
    var lower := Fetch(Buffered(|c.queue|, n), d) + tail;
    HeadBits(c.queue, bits, code, field + later);
    ConsumeSees(mem, c, n, bits, RawCells(raw) + lower);
    var c1 := Consume(mem, c, n);
    SkipRaw(mem, c1, raw, bits[n..], lower);
    var c2 := c1.(pos := c1.pos + |raw|);
    HeadBits(c2.queue, bits[n..], field, later);
    ConsumeSees(mem, c2, d, bits[n..], tail);
    assert bits[n..][d..] == bits[n + d..];
  }

  lemma {:induction false} MatchDecodes(L: seq<nat>, ts: seq<Token>, last: bool, mem: Memory, c: Cursor,
                                        bits: seq<bool>)
    requires OnTrack(L, ts, last, mem, c, bits) && ts != [] && ts[0].Match?
    ensures L[TokenSymbol(ts[0])] + |DistanceField(ts[0])| <= |bits|
    ensures var next, rest := AfterToken(mem, c, ts[0]), BitsAfter(L, ts[0], bits);
      && OnTrack(L, ts[1..], last, mem, next, rest)
      && |next.queue| == TokenBuffered(L, ts[0], |c.queue|)
      && EndPos(L, ts[1..], last, mem, next, rest) == EndPos(L, ts, last, mem, c, bits)
    ensures var c1 := Consume(mem, c, L[TokenSymbol(ts[0])]);
      && At(mem, c1.pos, LengthBytes(ts[0]))
      && DistanceField(ts[0]) <= c1.queue
  {
    hide Fill, Consume, CountWords, Fetch, RawCells, At, Bits, Log2, Pow2, Cells, BlockBits, Sees, End, Kraft;
    hide LengthBytes;
    var t, k := ts[0], |c.queue|;
    var tail := Cells(L, ts[1..], TokenBuffered(L, t, k), last);
    FirstField(L, ts, last, mem, c, bits);
    MatchCells(L, ts, k, last);
    MatchFields(mem, c, bits, L[TokenSymbol(t)], LengthBytes(t), Log2(t.distance), CodeBits(L, TokenSymbol(t)),
                DistanceField(t), BlockBits(L, ts[1..], last), tail, EndPos(L, ts, last, mem, c, bits));
  }

  lemma {:induction false} SymbolDecodes(L: seq<nat>, ts: seq<Token>, last: bool, mem: Memory, c: Cursor,
                                         bits: seq<bool>)
    requires OnTrack(L, ts, last, mem, c, bits) && ts != []
    ensures Ready(c)
    ensures Symbol(L, c.queue) == TokenSymbol(ts[0])
    ensures SymbolBits(L, c.queue) == L[TokenSymbol(ts[0])]
  {
    hide Fill, Consume, CountWords, Fetch, RawCells, At, Bits, Log2, Pow2, Cells, BlockBits, Sees, Kraft;
    FirstField(L, ts, last, mem, c, bits);
    HeadBits(c.queue, bits, CodeBits(L, TokenSymbol(ts[0])), DistanceField(ts[0]) + BlockBits(L, ts[1..], last));
    DecodesSymbol(L, c.queue, TokenSymbol(ts[0]));
  }

  lemma MatchSymbolParts(t: Token)
    requires t.Match? && t.distance < 0x1_0000 && 3 <= t.length
    ensures (TokenSymbol(t) - 256) / 16 == Log2(t.distance)
    ensures (TokenSymbol(t) - 256) % 16 == Min(t.length - 3, 15)
  {}

  lemma {:induction false} MatchTokenReads(L: seq<nat>, mem: Memory, c: Cursor, t: Token)
    requires Table(L) && ValidToken(L, t) && t.Match? && c.lengths == L && 16 <= |c.queue| <= 32
    requires var c1 := Consume(mem, c, L[TokenSymbol(t)]);
      At(mem, c1.pos, LengthBytes(t)) && DistanceField(t) <= c1.queue
    ensures 256 <= TokenSymbol(t) < CODES
    ensures MatchToken(mem, Consume(mem, c, L[TokenSymbol(t)]), TokenSymbol(t) - END_MARKER)
      == Next(t, AfterToken(mem, c, t))
  {
    hide Consume, At, Bits, Log2, Pow2, Kraft, LengthBytes, MatchLength, MatchDistance, DistanceField;
    var c1 := Consume(mem, c, L[TokenSymbol(t)]);
    DistanceBits(t.distance);
    MatchSymbolParts(t);
    ReadLengthBytes(mem, c1.pos, t);
    ReadDistance(c1.queue, t);
  }

  /** A run match reads nothing after its codeword. */
  lemma {:induction false} RunMatchPosition(mem: Memory, c: Cursor, t: Token)
    requires Table(c.lengths) && ValidToken(c.lengths, t) && LooksLikeEnd(t) && 16 <= |c.queue| <= 32
    ensures AfterToken(mem, c, t).pos == Consume(mem, c, c.lengths[TokenSymbol(t)]).pos
  {
    assert Log2(1) == 0;
  }

  /** The decoder reads the next token, unless it takes a run match for the end marker. */
  lemma {:induction false} TokenDecodes(L: seq<nat>, ts: seq<Token>, last: bool, mem: Memory, len: nat,
                                        c: Cursor, bits: seq<bool>)
    requires OnTrack(L, ts, last, mem, c, bits) && ts != []
    ensures L[TokenSymbol(ts[0])] + |DistanceField(ts[0])| <= |bits|
    ensures var next, rest := AfterToken(mem, c, ts[0]), BitsAfter(L, ts[0], bits);
      && OnTrack(L, ts[1..], last, mem, next, rest)
      && EndPos(L, ts[1..], last, mem, next, rest) == EndPos(L, ts, last, mem, c, bits)
      && Ready(c) && |next.queue| == TokenBuffered(L, ts[0], |c.queue|)
      && (if LooksLikeEnd(ts[0]) && next.pos >= len - 1 then NextToken(mem, len, c) == Stop
          else NextToken(mem, len, c) == Next(ts[0], next))
  {
    hide Consume, At, Bits, Log2, Pow2, Kraft, LengthBytes, MatchToken, Sees, Cells, BlockBits;
    var t := ts[0];
    OnlyRunsLookLikeEnd(t);
    SymbolDecodes(L, ts, last, mem, c, bits);
    if t.Literal? {
      LiteralDecodes(L, ts, last, mem, c, bits);
    } else {
      MatchDecodes(L, ts, last, mem, c, bits);
      MatchTokenReads(L, mem, c, t);
      if LooksLikeEnd(t) {
        RunMatchPosition(mem, c, t);
      }
    }
  }
}
