/**
 Canonical Huffman codes over a table of code lengths: the mathematics behind the
 alphabet that libnt/huffman.c builds, stated without tables or pointers.
 */
module HuffmanCode {
  import opened Arith

  const BITS := 16

  /** A table the builder can be given: 16-bit symbols, lengths of at most 16 bits. */
  predicate ValidLengths(L: seq<nat>) {
    |L| < 0x1_0000 && forall i :: 0 <= i < |L| ==> L[i] <= BITS
  }

  predicate AllZero(L: seq<nat>) {
    forall i :: 0 <= i < |L| ==> L[i] == 0
  }

  /** How many of the first `n` symbols have length `b`. */
  function Count(L: seq<nat>, n: nat, b: nat): nat
    requires n <= |L|
  {
    if n == 0 then 0 else Count(L, n - 1, b) + (if L[n - 1] == b then 1 else 0)
  }

  function Freq(L: seq<nat>, b: nat): nat {
    Count(L, |L|, b)
  }

  /** The canonical code number of the first symbol of length `b`. */
  function First(L: seq<nat>, b: nat): nat {
    if b <= 1 then 0 else 2 * (First(L, b - 1) + Freq(L, b - 1))
  }

  /** How many symbols have a non-zero length below `b`. */
  function Cum(L: seq<nat>, b: nat): nat {
    if b <= 1 then 0 else Cum(L, b - 1) + Freq(L, b - 1)
  }

  /** The canonical code number of symbol `s`, to be read as `L[s]` bits. */
  function Code(L: seq<nat>, s: nat): nat
    requires s < |L|
  {
    First(L, L[s]) + Count(L, s, L[s])
  }

  /** The codeword of symbol `s`. */
  function CodeBits(L: seq<nat>, s: nat): seq<bool>
    requires s < |L|
  {
    Bits(Code(L, s), L[s])
  }

  /** Share of the 16-bit code space taken by the lengths up to `b` among the first `n` symbols. */
  function Space(L: seq<nat>, n: nat, b: nat): nat
    requires ValidLengths(L) && n <= |L|
  {
    if n == 0 then 0
    else Space(L, n - 1, b) + (if 0 < L[n - 1] <= b then Pow2(BITS - L[n - 1]) else 0)
  }

  /** The Kraft sum, scaled by 2^16. */
  function Kraft(L: seq<nat>): nat
    requires ValidLengths(L)
  {
    Space(L, |L|, BITS)
  }

  /** The 16-bit window at which the codes of length `b` start. */
  function Start(L: seq<nat>, b: nat): nat
    requires b <= BITS
  {
    First(L, b) * Pow2(BITS - b)
  }

  /** `s` is the symbol whose codeword the bit string `q` begins with. */
  predicate Matches(L: seq<nat>, q: seq<bool>, s: nat) {
    s < |L| && L[s] > 0 && CodeBits(L, s) <= q
  }

  // ------------------------------------------------------------- counting

  lemma {:induction false} CountMonotone(L: seq<nat>, m: nat, n: nat, b: nat)
    requires m <= n <= |L|
    ensures Count(L, m, b) <= Count(L, n, b)
  {
    if m == n {
    } else {
      CountMonotone(L, m, n - 1, b);
    }
  }

  /** Equal-length symbols are ranked in symbol order. */
  lemma {:induction false} RankStrict(L: seq<nat>, s: nat, t: nat)
    requires s < t < |L| && L[s] == L[t]
    ensures Count(L, s, L[s]) < Count(L, t, L[t])
  {
    CountMonotone(L, s + 1, t, L[s]);
  }

  lemma {:induction false} RankBelowFreq(L: seq<nat>, s: nat)
    requires s < |L|
    ensures Count(L, s, L[s]) < Freq(L, L[s])
  {
    CountMonotone(L, s + 1, |L|, L[s]);
  }

  /** Every rank below the frequency belongs to some symbol. */
  lemma {:induction false} SymbolOfRank(L: seq<nat>, n: nat, b: nat, k: nat) returns (s: nat)
    requires n <= |L| && k < Count(L, n, b)
    ensures s < n && L[s] == b && Count(L, s, b) == k
  {
    if k < Count(L, n - 1, b) {
      s := SymbolOfRank(L, n - 1, b, k);
    } else {
      s := n - 1;
    }
  }

  lemma {:induction false} CumMonotone(L: seq<nat>, a: nat, b: nat)
    requires 1 <= a <= b
    ensures Cum(L, a) <= Cum(L, b)
    ensures a < b ==> Cum(L, a) + Freq(L, a) <= Cum(L, b)
  {
    if a == b {
    } else {
      CumMonotone(L, a, b - 1);
    }
  }

  /** `Cum` restricted to the first `n` symbols. */
  function CumOf(L: seq<nat>, n: nat, b: nat): nat
    requires n <= |L|
  {
    if b <= 1 then 0 else CumOf(L, n, b - 1) + Count(L, n, b - 1)
  }

  lemma {:induction false} CumOfNone(L: seq<nat>, b: nat)
    ensures CumOf(L, 0, b) == 0
  {
    if b <= 1 {
    } else {
      CumOfNone(L, b - 1);
    }
  }

  lemma {:induction false} CumOfStep(L: seq<nat>, n: nat, b: nat)
    requires 0 < n <= |L|
    ensures CumOf(L, n, b) == CumOf(L, n - 1, b) + (if 0 < L[n - 1] < b then 1 else 0)
  {
    if b <= 1 {
    } else {
      CumOfStep(L, n, b - 1);
    }
  }

  /** Counting class by class visits no symbol twice. */
  lemma {:induction false} CumBound(L: seq<nat>, n: nat, b: nat)
    requires n <= |L|
    ensures CumOf(L, n, b) <= n
  {
    if n > 0 {
      CumBound(L, n - 1, b);
      CumOfStep(L, n, b);
    } else {
      CumOfNone(L, b);
    }
  }

  lemma {:induction false} CumIsCumOf(L: seq<nat>, b: nat)
    ensures Cum(L, b) == CumOf(L, |L|, b)
  {
    if b <= 1 {
    } else {
      CumIsCumOf(L, b - 1);
    }
  }

  lemma {:induction false} CumAtMostSymbols(L: seq<nat>, b: nat)
    ensures Cum(L, b) <= |L|
  {
    CumIsCumOf(L, b);
    CumBound(L, |L|, b);
  }

  // ------------------------------------------------------------ code space

  lemma {:induction false} SpaceStep(L: seq<nat>, n: nat, b: nat)
    requires ValidLengths(L) && n <= |L| && 1 <= b <= BITS
    ensures Space(L, n, b) == Space(L, n, b - 1) + Count(L, n, b) * Pow2(BITS - b)
  {
    var d := Pow2(BITS - b);
    if n == 0 {
    } else {
      SpaceStep(L, n - 1, b);
      MulDistributes(Count(L, n - 1, b), 1, d);
      if L[n - 1] == b {
        assert Space(L, n, b) == Space(L, n - 1, b) + d;
        assert Space(L, n, b - 1) == Space(L, n - 1, b - 1);
      }
    }
  }

  lemma {:induction false} SpaceNone(L: seq<nat>, n: nat)
    requires ValidLengths(L) && n <= |L|
    ensures Space(L, n, 0) == 0
  {
    if n == 0 {
    } else {
      SpaceNone(L, n - 1);
    }
  }

  lemma {:induction false} StartDoubles(huf: nat, b: nat)
    requires b < BITS
    ensures (2 * huf) * Pow2(BITS - (b + 1)) == huf * Pow2(BITS - b)
  {
    hide Pow2;
    Pow2Double(BITS - (b + 1));
    MulAssociates(2, huf, Pow2(BITS - (b + 1)));
  }

  /** The codes of each length start exactly where the shorter codes end. */
  lemma {:induction false} StartIsSpace(L: seq<nat>, b: nat)
    requires ValidLengths(L) && 1 <= b <= BITS
    ensures Start(L, b) == Space(L, |L|, b - 1)
    ensures (First(L, b) + Freq(L, b)) * Pow2(BITS - b) == Space(L, |L|, b)
    ensures b < BITS ==> Start(L, b + 1) == Space(L, |L|, b)
  {
    if b == 1 {
      SpaceNone(L, |L|);
    } else {
      StartIsSpace(L, b - 1);
    }
    SpaceStep(L, |L|, b);
    MulDistributes(First(L, b), Freq(L, b), Pow2(BITS - b));
    if b < BITS {
      StartDoubles(First(L, b) + Freq(L, b), b);
    }
  }

  lemma {:induction false} SpaceMonotone(L: seq<nat>, n: nat, a: nat, b: nat)
    requires ValidLengths(L) && n <= |L| && a <= b
    ensures Space(L, n, a) <= Space(L, n, b)
  {
    if n == 0 {
    } else {
      SpaceMonotone(L, n - 1, a, b);
    }
  }

  lemma {:induction false} StartMonotone(L: seq<nat>, a: nat, b: nat)
    requires ValidLengths(L) && 1 <= a <= b <= BITS
    ensures Start(L, a) <= Start(L, b)
  {
    StartIsSpace(L, a);
    StartIsSpace(L, b);
    SpaceMonotone(L, |L|, a - 1, b - 1);
  }

  // ------------------------------------------------------ prefix-code theory

  /** The windows that begin with the codeword of `s`. */
  predicate InInterval(L: seq<nat>, s: nat, w: nat)
    requires s < |L| && L[s] <= BITS
  {
    var d := Pow2(BITS - L[s]);
    Start(L, L[s]) + Count(L, s, L[s]) * d <= w < Start(L, L[s]) + (Count(L, s, L[s]) + 1) * d
  }

  lemma {:induction false} CodeFits(L: seq<nat>, s: nat)
    requires ValidLengths(L) && s < |L| && L[s] > 0 && Kraft(L) <= 0x1_0000
    ensures Code(L, s) < Pow2(L[s])
  {
    hide Pow2;
    var b := L[s];
    RankBelowFreq(L, s);
    StartIsSpace(L, b);
    SpaceMonotone(L, |L|, b, BITS);
    Pow2Values();
    Pow2Add(b, BITS - b);
    if Code(L, s) >= Pow2(b) {
      MulMonotone(Pow2(b) + 1, First(L, b) + Freq(L, b), Pow2(BITS - b));
      MulDistributes(Pow2(b), 1, Pow2(BITS - b));
    }
  }

  lemma {:induction false} PrefixIsQuotient(q: seq<bool>, code: nat, b: nat)
    requires |q| >= BITS && b <= BITS && code < Pow2(b)
    ensures Bits(code, b) <= q <==> Val(q[..BITS]) / Pow2(BITS - b) == code
  {
    hide Pow2, Val;
    ValOfBits(code, b);
    ValSplit(q[..BITS], b);
    assert q[..BITS][..b] == q[..b];
    BitsOfVal(q[..b]);
    assert Bits(code, b) <= q <==> Bits(code, b) == q[..b];
  }

  lemma {:induction false} IntervalIsQuotient(L: seq<nat>, s: nat, w: nat)
    requires s < |L| && L[s] <= BITS
    ensures InInterval(L, s, w) <==> w / Pow2(BITS - L[s]) == Code(L, s)
  {
    var d := Pow2(BITS - L[s]);
    DivUnique(w, d, Code(L, s));
    MulDistributes(First(L, L[s]), Count(L, s, L[s]), d);
    MulDistributes(First(L, L[s]), Count(L, s, L[s]) + 1, d);
  }

  /** Codeword matching is an interval test on the first 16 bits. */
  lemma {:induction false} MatchIsInterval(L: seq<nat>, q: seq<bool>, s: nat)
    requires ValidLengths(L) && Kraft(L) <= 0x1_0000 && |q| >= BITS && s < |L| && L[s] > 0
    ensures Matches(L, q, s) <==> InInterval(L, s, Val(q[..BITS]))
  {
    CodeFits(L, s);
    PrefixIsQuotient(q, Code(L, s), L[s]);
    IntervalIsQuotient(L, s, Val(q[..BITS]));
  }

  lemma {:induction false} IntervalBelowNext(L: seq<nat>, s: nat)
    requires ValidLengths(L) && s < |L| && L[s] > 0
    ensures Start(L, L[s]) + (Count(L, s, L[s]) + 1) * Pow2(BITS - L[s]) <= Space(L, |L|, L[s])
    ensures L[s] < BITS ==> Space(L, |L|, L[s]) == Start(L, L[s] + 1)
  {
    StartIsSpace(L, L[s]);
    RankBelowFreq(L, s);
    MulMonotone(Count(L, s, L[s]) + 1, Freq(L, L[s]), Pow2(BITS - L[s]));
    MulDistributes(First(L, L[s]), Freq(L, L[s]), Pow2(BITS - L[s]));
  }

  /** No window begins with the codewords of two symbols. */
  lemma {:induction false} IntervalsDisjoint(L: seq<nat>, s: nat, t: nat, w: nat)
    requires ValidLengths(L) && s < |L| && t < |L| && L[s] > 0 && L[t] > 0
    requires InInterval(L, s, w) && InInterval(L, t, w)
    ensures s == t
  {
    hide Start, Space, Count, Pow2;
    if s != t {
      if L[s] == L[t] {
        var a, b := if s < t then s else t, if s < t then t else s;
        RankStrict(L, a, b);
        MulMonotone(Count(L, a, L[a]) + 1, Count(L, b, L[b]), Pow2(BITS - L[s]));
      } else {
        var a, b := if L[s] < L[t] then s else t, if L[s] < L[t] then t else s;
        IntervalBelowNext(L, a);
        StartMonotone(L, L[a] + 1, L[b]);
        MulMonotone(0, Count(L, b, L[b]), Pow2(BITS - L[b]));
      }
    }
  }

  /** Unique decodability: at most one codeword begins any bit string. */
  lemma {:induction false} MatchUnique(L: seq<nat>, q: seq<bool>, s: nat, t: nat)
    requires ValidLengths(L) && Kraft(L) <= 0x1_0000 && |q| >= BITS
    requires Matches(L, q, s) && Matches(L, q, t)
    ensures s == t
  {
    MatchIsInterval(L, q, s);
    MatchIsInterval(L, q, t);
    IntervalsDisjoint(L, s, t, Val(q[..BITS]));
  }

  /** No codeword is a prefix of another. */
  lemma {:induction false} PrefixFree(L: seq<nat>, s: nat, t: nat)
    requires ValidLengths(L) && Kraft(L) <= 0x1_0000
    requires s < |L| && t < |L| && L[s] > 0 && L[t] > 0
    requires CodeBits(L, s) <= CodeBits(L, t)
    ensures s == t
  {
    var q := CodeBits(L, t) + Bits(0, BITS);
    assert CodeBits(L, t) <= q;
    assert CodeBits(L, s) <= q;
    MatchUnique(L, q, s, t);
  }

  lemma {:induction false} RankOfWindow(start: nat, freq: nat, d: nat, w: nat) returns (k: nat)
    requires d > 0 && start <= w < start + freq * d
    ensures k < freq && start + k * d <= w < start + (k + 1) * d
  {
    k := (w - start) / d;
    DivUnique(w - start, d, k);
    if k >= freq {
      MulMonotone(freq, k, d);
    }
  }

  /** The symbol of a window that lies between two class starts. */
  lemma {:induction false} SymbolInClass(L: seq<nat>, b: nat, w: nat) returns (s: nat)
    requires ValidLengths(L) && 1 <= b <= BITS
    requires Start(L, b) <= w < Space(L, |L|, b)
    ensures s < |L| && L[s] == b && InInterval(L, s, w)
  {
    StartIsSpace(L, b);
    MulDistributes(First(L, b), Freq(L, b), Pow2(BITS - b));
    var k := RankOfWindow(Start(L, b), Freq(L, b), Pow2(BITS - b), w);
    s := SymbolOfRank(L, |L|, b, k);
  }

  /** In a complete code every 16-bit window begins with some codeword. */
  lemma {:induction false} ClassExists(L: seq<nat>, b: nat, w: nat) returns (c: nat)
    requires ValidLengths(L) && b <= BITS && w < Space(L, |L|, b)
    ensures 1 <= c <= b && Start(L, c) <= w < Space(L, |L|, c)
  {
    if b == 0 {
      SpaceNone(L, |L|);
      assert false;
    } else {
      StartIsSpace(L, b);
      if Start(L, b) <= w {
        c := b;
      } else {
        c := ClassExists(L, b - 1, w);
      }
    }
  }

  lemma {:induction false} MatchExists(L: seq<nat>, q: seq<bool>) returns (s: nat)
    requires ValidLengths(L) && Kraft(L) == 0x1_0000 && |q| >= BITS
    ensures Matches(L, q, s)
  {
    ValBound(q[..BITS]);
    Pow2Values();
    var c := ClassExists(L, BITS, Val(q[..BITS]));
    s := SymbolInClass(L, c, Val(q[..BITS]));
    MatchIsInterval(L, q, s);
  }
}
