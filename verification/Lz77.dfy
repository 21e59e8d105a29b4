/** LZ77 tokens, their expansion, and the byte-by-byte copy both decompressors use. */
module Lz77 {
  import opened Arith

  type Distance = d: int | d > 0 witness 1

  datatype Token = Literal(value: byte) | Match(distance: Distance, length: nat)

  /**
   The byte `distance` places before the end of the output. C reads whatever lies below
   the buffer when a match reaches further back than the output: `under(0)` is the byte
   just below it.
   */
  function Back(out: seq<byte>, under: Memory, distance: Distance): byte {
    if distance <= |out| then out[|out| - distance] else under(distance - |out| - 1)
  }

  function Copy(out: seq<byte>, under: Memory, distance: Distance, length: nat): (r: seq<byte>)
    ensures |r| == |out| + length && r[..|out|] == out
    decreases length
  {
    if length == 0 then out
    else
      var next := out + [Back(out, under, distance)];
      var r := Copy(next, under, distance, length - 1);
      assert r[..|out|] == r[..|next|][..|out|];
      r
  }

  function Emit(out: seq<byte>, under: Memory, t: Token): seq<byte> {
    match t
    case Literal(value) => out + [value]
    case Match(distance, length) => Copy(out, under, distance, length)
  }

  function Expand(out: seq<byte>, under: Memory, ts: seq<Token>): seq<byte>
    decreases |ts|
  {
    if ts == [] then out else Expand(Emit(out, under, ts[0]), under, ts[1..])
  }

  function TokenSize(t: Token): nat {
    if t.Literal? then 1 else t.length
  }

  function Size(ts: seq<Token>): nat {
    if ts == [] then 0 else TokenSize(ts[0]) + Size(ts[1..])
  }

  /** Tokens decoded and the value returned: the output length, or -1. */
  datatype Outcome = Outcome(tokens: seq<Token>, ret: int)

  function Prepend(ts: seq<Token>, o: Outcome): Outcome {
    Outcome(ts + o.tokens, o.ret)
  }

  lemma {:induction false} PrependPrepend(a: seq<Token>, b: seq<Token>, o: Outcome)
    ensures Prepend(a, Prepend(b, o)) == Prepend(a + b, o)
  {
    assert a + (b + o.tokens) == (a + b) + o.tokens;
  }

  /** Every match stays inside the output produced before it. */
  predicate InRange(n: nat, ts: seq<Token>)
    decreases |ts|
  {
    ts == [] ||
    ((ts[0].Match? ==> ts[0].distance <= n) && InRange(n + TokenSize(ts[0]), ts[1..]))
  }

  lemma {:induction false} ExpandSize(out: seq<byte>, under: Memory, ts: seq<Token>)
    ensures |Expand(out, under, ts)| == |out| + Size(ts)
    decreases |ts|
  {
    if ts == [] {
    } else {
      ExpandSize(Emit(out, under, ts[0]), under, ts[1..]);
    }
  }

  lemma {:induction false} ExpandAppend(out: seq<byte>, under: Memory, a: seq<Token>, b: seq<Token>)
    ensures Expand(out, under, a + b) == Expand(Expand(out, under, a), under, b)
    decreases |a|
  {
    if a == [] {
      assert a + b == b;
    } else {
      assert (a + b)[1..] == a[1..] + b;
      ExpandAppend(Emit(out, under, a[0]), under, a[1..], b);
    }
  }

  lemma {:induction false} SizeAppend(a: seq<Token>, b: seq<Token>)
    ensures Size(a + b) == Size(a) + Size(b)
  {
    if a == [] {
      assert a + b == b;
    } else {
      assert (a + b)[1..] == a[1..] + b;
      SizeAppend(a[1..], b);
    }
  }

  lemma {:induction false} PreviousRemainder(k: nat, d: nat)
    requires k > 0 && d > 0
    ensures (k - 1) % d == if k % d == 0 then d - 1 else k % d - 1
  {
    if k % d == 0 {
      DivModUnique(k - 1, d, k / d - 1, d - 1);
    } else {
      DivModUnique(k - 1, d, k / d, k % d - 1);
    }
  }

  lemma CopyStep(out: seq<byte>, under: Memory, distance: Distance, length: nat)
    requires distance <= |out| && length > 0
    ensures Copy(out, under, distance, length)
         == Copy(out + [out[|out| - distance]], under, distance, length - 1)
  {}

  /** An overlapping copy is the periodic extension of the last `distance` bytes. */
  lemma {:induction false} CopyIsPeriodic(out: seq<byte>, under: Memory, distance: Distance, length: nat, k: nat)
    requires distance <= |out| && k < length
    ensures Copy(out, under, distance, length)[|out| + k] == out[|out| - distance + k % distance]
    decreases length
  {
    hide Copy;
    var next := out + [out[|out| - distance]];
    CopyStep(out, under, distance, length);
    if k == 0 {
      var r := Copy(next, under, distance, length - 1);
      assert r[|out|] == r[..|next|][|out|];
    } else {
      CopyIsPeriodic(next, under, distance, length - 1, k - 1);
      PreviousRemainder(k, distance);
    }
  }

  lemma {:induction false} CopyIgnoresUnder(out: seq<byte>, a: Memory, b: Memory, distance: Distance, length: nat)
    requires distance <= |out|
    ensures Copy(out, a, distance, length) == Copy(out, b, distance, length)
    decreases length
  {
    if length == 0 {
    } else {
      CopyIgnoresUnder(out + [Back(out, a, distance)], a, b, distance, length - 1);
    }
  }

  /** What lies below the buffer matters only to matches that reach below it. */
  lemma {:induction false} ExpandIgnoresUnder(out: seq<byte>, a: Memory, b: Memory, ts: seq<Token>)
    requires InRange(|out|, ts)
    ensures Expand(out, a, ts) == Expand(out, b, ts)
    decreases |ts|
  {
    if ts == [] {
    } else {
      if ts[0].Match? {
        CopyIgnoresUnder(out, a, b, ts[0].distance, ts[0].length);
      }
      ExpandIgnoresUnder(Emit(out, a, ts[0]), a, b, ts[1..]);
    }
  }

  /** The copy loop, one byte at a time so that source and destination may overlap. */
  method CopyMatch(buf: array<byte>, under: Memory, at: nat, distance: Distance, length: nat)
    requires at + length <= buf.Length
    modifies buf
    ensures buf[..at + length] == Copy(old(buf[..at]), under, distance, length)
    ensures buf[at + length..] == old(buf[at + length..])
  {
    var out: nat, remaining: nat := at, length;
    while remaining > 0
      invariant out + remaining == at + length
      invariant Copy(buf[..out], under, distance, remaining) == Copy(old(buf[..at]), under, distance, length)
      invariant buf[at + length..] == old(buf[at + length..])
    {
      ghost var before := buf[..out];
      var source := out - distance;
      buf[out] := if source >= 0 then buf[source] else under(-source - 1);
      assert buf[..out + 1] == before + [Back(before, under, distance)];
      out, remaining := out + 1, remaining - 1;
    }
  }

  // ------------------------------------------------------ an output buffer

  /** The buffer holds the tokens' expansion and is otherwise as it was, `orig`. */
  ghost predicate Written(buf: array?<byte>, under: Memory, ts: seq<Token>, orig: seq<byte>)
    reads if buf == null then {} else {buf}
  {
    buf != null ==>
      && Size(ts) <= buf.Length == |orig|
      && buf[..Size(ts)] == Expand([], under, ts)
      && buf[Size(ts)..] == orig[Size(ts)..]
  }

  ghost function Contents(buf: array?<byte>): seq<byte>
    reads if buf == null then {} else {buf}
  {
    if buf == null then [] else buf[..]
  }

  lemma WrittenNothing(buf: array?<byte>, under: Memory)
    ensures Written(buf, under, [], Contents(buf)) && Size([]) == 0
  {}

  lemma {:induction false} SizePrefix(ts: seq<Token>, t: Token, all: seq<Token>)
    requires ts + [t] <= all
    ensures Size(ts + [t]) == Size(ts) + TokenSize(t) <= Size(all)
  {
    SizeAppend(ts, [t]);
    SizeAppend(ts + [t], all[|ts| + 1..]);
    assert all == (ts + [t]) + all[|ts| + 1..];
  }

  /** Appends one token's bytes to the output, when there is a buffer. */
  method Output(buf: array?<byte>, under: Memory, at: nat, t: Token,
                ghost done: seq<Token>, ghost all: seq<Token>, ghost orig: seq<byte>)
    requires at == Size(done) && done + [t] <= all
    requires buf != null ==> Size(all) <= buf.Length
    requires Written(buf, under, done, orig)
    modifies if buf == null then {} else {buf}
    ensures Written(buf, under, done + [t], orig)
    ensures Size(done + [t]) == at + TokenSize(t)
  {
    SizePrefix(done, t, all);
    ExpandAppend([], under, done, [t]);
    if buf != null {
      ghost var before := buf[..at];
      match t {
        case Literal(value) =>
          buf[at] := value;
        case Match(distance, length) =>
          CopyMatch(buf, under, at, distance, length);
      }
      assert buf[..at + TokenSize(t)] == Emit(before, under, t);
    }
  }
}
