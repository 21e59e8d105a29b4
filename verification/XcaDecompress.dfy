/**
 The decompressor of libnt/xca.c: one loop over a 32-bit accumulator, proved to decode
 exactly what the abstract bit-queue decoder of `XcaStream` decodes.
 */
module XcaDecompress {
  import opened Arith
  import opened HuffmanCode
  import opened HuffmanAlphabet
  import opened Lz77
  import opened XcaStream

  // ------------------------------------------------- the 32-bit accumulator

  /** The accumulator: the queued bits left-justified in 32 bits, zeros below. */
  ghost predicate Holds(accum: nat, q: seq<bool>) {
    |q| <= 32 && accum == Val(q) * Pow2(32 - |q|)
  }

  /** Bitwise OR of numbers with no common bits: `a` has none below bit `k`, `b` none above. */
  function OrDisjoint(a: nat, b: nat, ghost k: nat): nat
    requires a % Pow2(k) == 0 && b < Pow2(k)
  {
    a + b
  }

  /** A 32-bit left shift. */
  function ShiftLeft32(a: nat, n: nat): nat {
    (a * Pow2(n)) % 0x1_0000_0000
  }

  lemma {:induction false} HoldsIs32Bit(accum: nat, q: seq<bool>)
    requires Holds(accum, q)
    ensures accum < 0x1_0000_0000
  {
    Pow2Values();
    ValBound(q);
    Pow2Add(|q|, 32 - |q|);
    MulMonotone(Val(q) + 1, Pow2(|q|), Pow2(32 - |q|));
    MulDistributes(Val(q), 1, Pow2(32 - |q|));
  }

  lemma {:induction false} Rearrange(a: nat, b: nat, rest: nat, low: nat, n: nat)
    ensures ((a * rest + b) * low) * n == a * (rest * (low * n)) + b * (low * n)
  {
    var m := low * n;
    assert ((a * rest + b) * low) * n == (a * rest + b) * m;
    MulDistributes(a * rest, b, m);
    assert (a * rest) * m == a * (rest * m);
  }

  /** Shifting the accumulator left consumes bits from the front of the queue. */
  lemma {:induction false} ShiftConsumes(accum: nat, q: seq<bool>, n: nat)
    requires Holds(accum, q) && n <= |q|
    ensures Holds(ShiftLeft32(accum, n), q[n..])
  {
    hide Pow2, Val;
    var rest, low := |q| - n, 32 - |q|;
    assert q == q[..n] + q[n..];
    ValConcat(q[..n], q[n..]);
    var a, b := Val(q[..n]), Val(q[n..]);
    Pow2Add(low, n);
    Pow2Add(rest, low + n);
    Pow2Values();
    var shifted := b * Pow2(low + n);
    assert accum * Pow2(n) == a * 0x1_0000_0000 + shifted by {
      Rearrange(a, b, Pow2(rest), Pow2(low), Pow2(n));
    }
    HoldsIs32Bit(shifted, q[n..]);
    DivModUnique(accum * Pow2(n), 0x1_0000_0000, a, shifted);
  }

  lemma {:induction false} TopQuotient(a: nat, b: nat, rest: nat, low: nat)
    requires b < rest && low > 0
    ensures rest * low > 0 && ((a * rest + b) * low) / (rest * low) == a
  {
    MulMonotone(b + 1, rest, low);
    MulDistributes(b, 1, low);
    MulDistributes(a * rest, b, low);
    assert (a * rest) * low == a * (rest * low);
    DivModUnique((a * rest + b) * low, rest * low, a, b * low);
  }

  /** The top bits of the accumulator are the first bits of the queue. */
  lemma {:induction false} TopBits(accum: nat, q: seq<bool>, n: nat)
    requires Holds(accum, q) && n <= |q|
    ensures accum / Pow2(32 - n) == Val(q[..n])
  {
    assert q == q[..n] + q[n..];
    ValConcat(q[..n], q[n..]);
    ValBound(q[n..]);
    Pow2Add(|q| - n, 32 - |q|);
    TopQuotient(Val(q[..n]), Val(q[n..]), Pow2(|q| - n), Pow2(32 - |q|));
  }

  lemma {:induction false} WordBelow(v: nat, w: nat, d: nat)
    requires w < 0x1_0000 && d > 0
    ensures w * d < 0x1_0000 * d
    ensures v * (0x1_0000 * d) + w * d == (v * 0x1_0000 + w) * d
  {
    MulMonotone(w + 1, 0x1_0000, d);
    MulDistributes(w, 1, d);
    MulDistributes(v * 0x1_0000, w, d);
  }

  /** OR-ing in the next word, shifted to just below the queued bits, appends it to the queue. */
  lemma {:induction false} RefillAppends(accum: nat, q: seq<bool>, w: nat)
    requires Holds(accum, q) && |q| <= 16 && w < 0x1_0000
    ensures accum % Pow2(32 - |q|) == 0
    ensures w * Pow2(16 - |q|) < Pow2(32 - |q|)
    ensures Holds(accum + w * Pow2(16 - |q|), q + Bits(w, 16))
  {
    hide Pow2, Val;
    Pow2Values();
    ValOfBits(w, 16);
    ValConcat(q, Bits(w, 16));
    Pow2Add(16, 16 - |q|);
    DivModUnique(accum, Pow2(32 - |q|), Val(q), 0);
    WordBelow(Val(q), w, Pow2(16 - |q|));
  }

  /** The two words a block starts with fill the accumulator. */
  lemma {:induction false} FirstWords(w0: nat, w1: nat)
    requires w0 < 0x1_0000 && w1 < 0x1_0000
    ensures Holds(ShiftLeft32(w0, 16) + w1, Bits(w0, 16) + Bits(w1, 16))
    ensures ShiftLeft32(w0, 16) % Pow2(16) == 0 && w1 < Pow2(16)
  {
    hide Pow2, Val, Bits;
    var q0 := Bits(w0, 16);
    Pow2Values();
    ValOfBits(w0, 16);
    var accum := w0 * 0x1_0000;
    assert accum < 0x1_0000_0000;
    DivModUnique(accum, 0x1_0000_0000, 0, accum);
    DivModUnique(accum, 0x1_0000, w0, 0);
    assert 16 - |q0| == 0 && 32 - |q0| == 16;
    RefillAppends(accum, q0, w1);
  }

  // -------------------------------------------------------- the decompressor

  /** `xca_huf_len` over the whole table. */
  method ReadLengths(mem: Memory, pos: nat) returns (L: seq<nat>)
    ensures L == TableLengths(mem, pos)
  {
    L := [];
    while |L| < CODES
      invariant |L| <= CODES && forall s :: 0 <= s < |L| ==> L[s] == HufLen(mem, pos, s)
    {
      L := L + [HufLen(mem, pos, |L|)];
    }
  }

  /** Consumes `n` bits: shift, and refill from the source once the spare bits run out. */
  method ConsumeBits(mem: Memory, src: nat, accum: nat, extra: int, n: nat, ghost c: Cursor)
    returns (src': nat, accum': nat, extra': int)
    requires 16 <= |c.queue| <= 32 && n <= 16
    requires Holds(accum, c.queue) && extra == |c.queue| - 16 && src == c.pos
    ensures var r := Consume(mem, c, n);
      Holds(accum', r.queue) && extra' == |r.queue| - 16 && src' == r.pos
  {
    hide Pow2, Val, Holds, Bits;
    ShiftConsumes(accum, c.queue, n);
    src', accum', extra' := src, ShiftLeft32(accum, n), extra - n;
    if extra' < 0 {
      RefillAppends(accum', c.queue[n..], Word(mem, src));
      accum' := OrDisjoint(accum', Word(mem, src) * Pow2(-extra'), 16 - extra');
      src' := src' + 2;
      extra' := extra' + 16;
    }
  }

  /** The length of a match whose symbol carries `low`, with any extra length bytes. */
  method ReadMatchLength(mem: Memory, at: nat, low: nat) returns (matchLen: nat, src: nat)
    ensures (matchLen, src) == MatchLength(mem, at, low)
  {
    src, matchLen := at, low;
    if matchLen == 15 {
      matchLen := mem(src);
      src := src + 1;
      if matchLen == 255 {
        matchLen := Word(mem, src);
        src := src + 2;
      } else {
        matchLen := matchLen + 15;
      }
    }
    matchLen := matchLen + 3;
  }

  /** The distance of a match whose symbol asks for `n` more bits. */
  method ReadMatchDistance(accum: nat, n: nat, ghost q: seq<bool>) returns (offset: Distance)
    requires Holds(accum, q) && n <= 16 <= |q|
    ensures offset == MatchDistance(q, n)
  {
    if n != 0 {
      TopBits(accum, q, n);
      offset := accum / Pow2(32 - n) + Pow2(n);
    } else {
      offset := 1;
    }
  }

  method ReadFirstWords(mem: Memory, at: nat) returns (accum: nat, src: nat)
    ensures Holds(accum, Bits(Word(mem, at), 16) + Bits(Word(mem, at + 2), 16)) && src == at + 4
  {
    FirstWords(Word(mem, at), Word(mem, at + 2));
    accum := OrDisjoint(ShiftLeft32(Word(mem, at), 16), Word(mem, at + 2), 16);
    src := at + 4;
  }

  /** Reads the code table and the first two words of a block. */
  method InitBlock(mem: Memory, at: nat, alphabet: Alphabet, ghost c: Cursor)
    returns (rc: int, accum: nat, src: nat)
    requires alphabet.Shape() && alphabet.raw.Length == CODES && c == StartBlock(mem, at)
    modifies alphabet.huf, alphabet.lookup, alphabet.raw
    ensures rc == 0 <==> Acceptable(TableLengths(mem, at))
    ensures rc == 0 || rc == -1
    ensures rc == 0 ==> Ready(c) && alphabet.Built(c.lengths)
    ensures rc == 0 ==> src == c.pos == at + TABLE_BYTES + 4 && Holds(accum, c.queue) && |c.queue| == 32
  {
    src, accum := at + TABLE_BYTES, 0;
    var lengths := ReadLengths(mem, at);
    rc := alphabet.Build(lengths);
    if rc == 0 {
      accum, src := ReadFirstWords(mem, src);
    }
  }

  /** The accumulator state a cursor is represented by. */
  ghost predicate Synced(c: Cursor, src: nat, accum: nat, extra: int) {
    src == c.pos && Holds(accum, c.queue) && extra == |c.queue| - 16 && 0 <= extra <= 16
  }

  method ReadMatch(mem: Memory, src: nat, accum: nat, extra: int, raw: nat, ghost c: Cursor)
    returns (t: Token, src': nat, accum': nat, extra': int)
    requires 16 <= |c.queue| <= 32 && raw < 256
    requires src == c.pos && Holds(accum, c.queue) && extra == |c.queue| - 16
    ensures var r := MatchToken(mem, c, raw);
      && t == r.token && src' == r.next.pos
      && Holds(accum', r.next.queue) && extra' == |r.next.queue| - 16
  {
    var offsetBits, matchLen := raw / 16, 0;
    matchLen, src' := ReadMatchLength(mem, src, raw % 16);
    var offset := ReadMatchDistance(accum, offsetBits, c.queue);
    t := Match(offset, matchLen);
    src', accum', extra' := ConsumeBits(mem, src', accum, extra, offsetBits, c.(pos := src'));
  }

  /** Decodes one symbol and, for a match, its length and distance. */
  method ReadToken(mem: Memory, len: nat, alphabet: Alphabet, src: nat, accum: nat, extra: int, ghost c: Cursor)
    returns (stop: bool, t: Token, src': nat, accum': nat, extra': int)
    requires Ready(c) && alphabet.Built(c.lengths)
    requires src == c.pos && Holds(accum, c.queue) && extra == |c.queue| - 16
    ensures stop == NextToken(mem, len, c).Stop?
    ensures !stop ==> t == NextToken(mem, len, c).token && Synced(NextToken(mem, len, c).next, src', accum', extra')
  {
    hide Consume, MatchToken, Bits, Kraft, Holds, Pow2;
    TopBits(accum, c.queue, BITS);
    var huf := accum / Pow2(32 - BITS);
    var raw, bits := alphabet.DecodeSymbol(c.lengths, c.queue, huf);
    src', accum', extra' := ConsumeBits(mem, src, accum, extra, bits, c);
    ghost var c1 := Consume(mem, c, bits);
    stop, t := false, Literal(0);
    assert raw == Symbol(c.lengths, c.queue) && bits == SymbolBits(c.lengths, c.queue);

    if raw < END_MARKER {
      t := Literal(raw);
    } else if raw == END_MARKER && src' >= len - 1 {
      stop := true;
    } else {
      t, src', accum', extra' := ReadMatch(mem, src', accum', extra', raw - END_MARKER, c1);
    }
  }

  /** Decodes one token and appends its bytes to the output. */
  method Advance(mem: Memory, len: nat, buf: array?<byte>, under: Memory, alphabet: Alphabet,
                 src: nat, accum: nat, extra: int, size: nat,
                 ghost done: seq<Token>, ghost c: Cursor, ghost limit: nat, ghost orig: seq<byte>)
    returns (stop: bool, src': nat, accum': nat, extra': int, size': nat,
             ghost done': seq<Token>, ghost c': Cursor)
    requires ReachesToken(mem, len, done, c, size, limit)
    requires alphabet.Built(c.lengths) && Synced(c, src, accum, extra) && size == Size(done)
    requires buf != null ==> Size(Decompress(mem, len).tokens) <= buf.Length
    requires buf != null ==>
      buf as object != alphabet.huf && buf as object != alphabet.lookup && buf as object != alphabet.raw
    requires Written(buf, under, done, orig)
    modifies if buf == null then {} else {buf}
    ensures stop ==> Decompress(mem, len) == Outcome(done, size) && size' == size && done' == done
    ensures !stop ==> Reaches(mem, len, done', c', size', limit)
    ensures !stop ==> alphabet.Built(c'.lengths) && Synced(c', src', accum', extra')
    ensures !stop ==> Left(len, c') < Left(len, c)
    ensures size' == Size(done') && Written(buf, under, done', orig)
  {
    hide Decode, DecodeToken, NextToken, Reaches, ReachesToken, Decompress;
    hide Holds, Acceptable, Alphabet.Built, Written, Size;
    RunTakesToken(mem, len, done, c, size, limit);
    ghost var r := NextToken(mem, len, c);
    var t;
    stop, t, src', accum', extra' := ReadToken(mem, len, alphabet, src, accum, extra, c);
    size', done', c' := size, done, c;
    if !stop {
      Output(buf, under, size, t, done, Decompress(mem, len).tokens, orig);
      size', done', c' := size + TokenSize(t), done + [t], r.next;
    }
  }

  /** Decompresses into `buf`, or only sizes the output when `buf` is null. */
  method DecompressInto(mem: Memory, len: nat, buf: array?<byte>, under: Memory) returns (ret: int)
    requires buf != null ==> Size(Decompress(mem, len).tokens) <= buf.Length
    modifies if buf == null then {} else {buf}
    ensures ret == Decompress(mem, len).ret
    ensures Written(buf, under, Decompress(mem, len).tokens, old(Contents(buf)))
  {
    hide Decode, DecodeToken, NextToken, Reaches, ReachesToken, Decompress, Written, Size;
    hide Holds, Ready, Acceptable, TableLengths, StartBlock, Alphabet.Built;
    var src: nat, outLen: nat, threshold: nat, accum: nat, extra := 0, 0, 0, 0, 0;
    var alphabet := new Alphabet(CODES);
    ghost var c, done := Cursor([], [], 0), [];
    RunStarts(mem, len);
    WrittenNothing(buf, under);
    ghost var orig := Contents(buf);

    while src < len
      invariant src == c.pos && outLen == Size(done)
      invariant outLen < threshold ==> alphabet.Built(c.lengths) && Synced(c, src, accum, extra)
      invariant Reaches(mem, len, done, c, outLen, threshold)
      invariant Written(buf, under, done, orig)
      decreases Left(len, c)
    {
      RunEntersBlock(mem, len, done, c, outLen, threshold);
      if outLen >= threshold {
        if src + TABLE_BYTES > len {
          return -1;
        }
        c := StartBlock(mem, src);
        var rc;
        rc, accum, src := InitBlock(mem, src, alphabet, c);
        if rc != 0 {
          return rc;
        }
        extra := 16;
        threshold := outLen + BLOCK_SIZE;
      }

      var stop;
      stop, src, accum, extra, outLen, done, c :=
        Advance(mem, len, buf, under, alphabet, src, accum, extra, outLen, done, c, threshold, orig);
      if stop {
        return outLen;
      }
    }
    RunEnds(mem, len, done, c, outLen, threshold);
    if src == len {
      return outLen;
    }
    return -1;
  }

  lemma {:induction false} ReturnOfRun(mem: Memory, len: nat)
    ensures var o := Decompress(mem, len); o.ret >= 0 ==> o.ret == Size(o.tokens)
  {
    ReturnIsSize(mem, len, Cursor([], [], 0), 0, 0);
  }

  /**
   Sizing pass, allocation, writing pass, as utils/bmtool.c extracts an image. When every
   match stays inside the output, what lies below the buffer is irrelevant.
   */
  method Extract(mem: Memory, len: nat, under: Memory) returns (image: array?<byte>)
    ensures image == null <==> Decompress(mem, len).ret < 0
    ensures image != null ==> fresh(image) && image.Length == Decompress(mem, len).ret
    ensures image != null ==> image[..] == Expand([], under, Decompress(mem, len).tokens)
    ensures image != null && InRange(0, Decompress(mem, len).tokens) ==>
      forall other: Memory :: image[..] == Expand([], other, Decompress(mem, len).tokens)
  {
    hide Decompress, Expand, InRange;
    var size := DecompressInto(mem, len, null, under);
    if size < 0 {
      return null;
    }
    ReturnOfRun(mem, len);
    image := new byte[size](_ => 0);
    var again := DecompressInto(mem, len, image, under);
    ExpandSize([], under, Decompress(mem, len).tokens);
    assert image[..size] == image[..];
    if InRange(0, Decompress(mem, len).tokens) {
      forall other: Memory ensures image[..] == Expand([], other, Decompress(mem, len).tokens) {
        ExpandIgnoresUnder([], under, other, Decompress(mem, len).tokens);
      }
    }
  }
}
