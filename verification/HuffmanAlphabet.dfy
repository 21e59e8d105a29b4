/**
 The alphabet of libnt/huffman.c: symbol classes by code length, a 7-bit quick lookup
 table, and a raw symbol table that each class reaches through a re-based pointer.
 */
module HuffmanAlphabet {
  import opened Arith
  import opened HuffmanCode

  const QL_SIZE := 128
  const QL_SPAN := 512      // windows that share a lookup entry: 2 to the power of BITS - 7

  /** Symbols sharing one code length. `raw` is a pointer, as an index relative to the raw table. */
  datatype Symbols = Symbols(bits: nat, shift: nat, freq: nat, start: nat, raw: int)

  // The class sizes the builder works with: an all-zero table is given two 1-bit codes.

  function TableFreq(L: seq<nat>, b: nat): nat {
    if AllZero(L) then (if b == 1 then 2 else 0) else Freq(L, b)
  }

  function TableFirst(L: seq<nat>, b: nat): nat {
    if AllZero(L) then (if b <= 1 then 0 else Pow2(b)) else First(L, b)
  }

  function TableCum(L: seq<nat>, b: nat): nat {
    if AllZero(L) then (if b <= 1 then 0 else 2) else Cum(L, b)
  }

  function TableStart(L: seq<nat>, b: nat): nat
    requires b <= BITS
  {
    TableFirst(L, b) * Pow2(BITS - b)
  }

  lemma FirstStart(L: seq<nat>)
    ensures TableStart(L, 1) == 0
  {}

  lemma AboveIndex(w: nat, start: nat)
    ensures start / QL_SPAN > w / QL_SPAN ==> start > w
  {}

  /** The raw pointer of class `b` after re-basing: indexed by a code number of length `b`. */
  function TableRaw(L: seq<nat>, b: nat): int {
    TableCum(L, b) + Freq(L, b) - TableFreq(L, b) - TableFirst(L, b)
  }

  /** Where symbol `s` is stored in the raw table. */
  function Slot(L: seq<nat>, s: nat): nat
    requires s < |L|
  {
    Cum(L, L[s]) + Count(L, s, L[s])
  }

  lemma {:induction false} SlotDistinct(L: seq<nat>, s: nat, t: nat)
    requires s < t < |L| && L[s] > 0 && L[t] > 0
    ensures Slot(L, s) != Slot(L, t)
  {
    RankBelowFreq(L, s);
    RankBelowFreq(L, t);
    if L[s] == L[t] {
      RankStrict(L, s, t);
    } else if L[s] < L[t] {
      CumMonotone(L, L[s], L[t]);
    } else {
      CumMonotone(L, L[t], L[s]);
    }
  }

  lemma {:induction false} SlotInTable(L: seq<nat>, s: nat)
    requires s < |L| && L[s] > 0
    ensures Slot(L, s) < |L|
  {
    RankBelowFreq(L, s);
    CumAtMostSymbols(L, L[s] + 1);
  }

  lemma {:induction false} CountNone(L: seq<nat>, n: nat, b: nat)
    requires n <= |L| && b > 0 && forall i :: 0 <= i < n ==> L[i] == 0
    ensures Count(L, n, b) == 0
  {
    if n == 0 {
    } else {
      CountNone(L, n - 1, b);
    }
  }

  /** The recurrence the builder's running code number and symbol count follow. */
  lemma {:induction false} TableStep(L: seq<nat>, b: nat)
    requires b >= 1
    ensures TableFirst(L, b + 1) == 2 * (TableFirst(L, b) + TableFreq(L, b))
    ensures TableCum(L, b + 1) == TableCum(L, b) + TableFreq(L, b)
  {
    if b == 1 {
      assert Pow2(2) == 4;
    }
  }

  /** Every class accepted so far fits its code length. */
  predicate NoOverflow(L: seq<nat>, b: nat) {
    forall c :: 1 <= c < b ==> TableFirst(L, c) + TableFreq(L, c) <= Pow2(c)
  }

  lemma NoClassYet(L: seq<nat>)
    ensures TableFirst(L, 1) == 0 && TableCum(L, 1) == 0 && NoOverflow(L, 1)
  {}

  lemma ClassFits(L: seq<nat>, b: nat)
    requires NoOverflow(L, b) && TableFirst(L, b) + TableFreq(L, b) <= Pow2(b)
    ensures NoOverflow(L, b + 1)
  {}

  /** A class that overflows makes the Kraft sum exceed the code space. */
  lemma {:induction false} OverflowMeansTooManyCodes(L: seq<nat>, b: nat)
    requires ValidLengths(L) && 1 <= b <= BITS
    requires TableFirst(L, b) + TableFreq(L, b) > Pow2(b)
    ensures !AllZero(L) && Kraft(L) > 0x1_0000
  {
    Pow2Values();
    if b > 1 {
      Pow2Monotone(2, b);
    }
    hide Pow2;
    StartIsSpace(L, b);
    SpaceMonotone(L, |L|, b, BITS);
    Pow2Add(b, BITS - b);
    MulMonotone(Pow2(b) + 1, First(L, b) + Freq(L, b), Pow2(BITS - b));
    MulDistributes(Pow2(b), 1, Pow2(BITS - b));
  }

  lemma {:induction false} CompleteMeansKraft(L: seq<nat>, b: nat)
    requires ValidLengths(L) && b == BITS + 1
    ensures TableFirst(L, b) == Pow2(b) <==> AllZero(L) || Kraft(L) == 0x1_0000
  {
    Pow2Values();
    if !AllZero(L) {
      var c := b - 1;
      StartIsSpace(L, c);
      assert Pow2(BITS - c) == 1;
    }
  }

  /** The class of code length `b`, apart from its raw pointer. */
  ghost predicate Classified(L: seq<nat>, b: nat, s: Symbols)
    requires b <= BITS
  {
    && s.bits == b
    && s.shift == BITS - b
    && s.freq == TableFreq(L, b)
    && s.start == TableStart(L, b)
  }

  class Alphabet {
    const huf: array<Symbols>
    const lookup: array<nat>
    const raw: array<nat>

    ghost predicate Shape() {
      huf.Length == BITS && lookup.Length == QL_SIZE && lookup != raw
    }

    /** Storage for an alphabet whose raw table holds `symbols` entries. */
    constructor (symbols: nat)
      ensures Shape() && raw.Length == symbols
      ensures fresh(huf) && fresh(lookup) && fresh(raw)
    {
      huf := new Symbols[BITS](_ => Symbols(0, 0, 0, 0, 0));
      lookup := new nat[QL_SIZE](_ => 0);
      raw := new nat[symbols](_ => 0);
    }

    ghost predicate RawFilled(L: seq<nat>, n: nat)
      requires n <= |L| <= raw.Length
      reads raw
    {
      forall s :: 0 <= s < n && L[s] > 0 ==>
        Slot(L, s) < raw.Length && raw[Slot(L, s)] == s
    }

    /** Quick lookup entry `p` is the last of the first `n` classes starting at or before `p`. */
    ghost predicate LookupUpTo(L: seq<nat>, p: nat, n: nat)
      requires Shape() && p < QL_SIZE && n <= BITS
      reads lookup
    {
      && lookup[p] < n
      && TableStart(L, lookup[p] + 1) / QL_SPAN <= p
      && forall b :: lookup[p] + 1 < b <= n ==> TableStart(L, b) / QL_SPAN > p
    }

    ghost predicate Indexed(L: seq<nat>, n: nat)
      requires Shape() && n <= BITS
      reads lookup
    {
      forall p :: 0 <= p < QL_SIZE ==> LookupUpTo(L, p, n)
    }

    /** The finished tables for the lengths `L`. */
    ghost predicate Built(L: seq<nat>)
      reads huf, lookup, raw
    {
      && Shape()
      && ValidLengths(L) && |L| <= raw.Length
      && (AllZero(L) || Kraft(L) == 0x1_0000)
      && (forall c :: 0 <= c < BITS ==> Classified(L, c + 1, huf[c]) && huf[c].raw == TableRaw(L, c + 1))
      && RawFilled(L, |L|)
      && Indexed(L, BITS)
    }

    method CountLengths(L: seq<nat>)
      requires Shape() && ValidLengths(L)
      modifies huf
      ensures forall c :: 0 <= c < BITS ==> huf[c].freq == TableFreq(L, c + 1)
    {
      for c := 0 to BITS
        invariant forall i :: 0 <= i < c ==> huf[i].freq == 0
      {
        huf[c] := Symbols(0, 0, 0, 0, 0);
      }
      var empty := true;
      for s := 0 to |L|
        invariant forall c :: 0 <= c < BITS ==> huf[c].freq == Count(L, s, c + 1)
        invariant empty <==> forall i :: 0 <= i < s ==> L[i] == 0
      {
        var bits := L[s];
        if bits != 0 {
          huf[bits - 1] := huf[bits - 1].(freq := huf[bits - 1].freq + 1);
          empty := false;
        }
      }
      if empty {
        forall c | 0 <= c < BITS ensures huf[c].freq == 0 {
          CountNone(L, |L|, c + 1);
        }
        huf[0] := huf[0].(freq := 2);
      }
    }

    method StoreClass(ghost L: seq<nat>, bits: nat, code: nat, cumFreq: nat)
      requires Shape() && 1 <= bits <= BITS
      requires code == TableFirst(L, bits) && huf[bits - 1].freq == TableFreq(L, bits)
      modifies huf
      ensures Classified(L, bits, huf[bits - 1]) && huf[bits - 1].raw == cumFreq
      ensures huf[bits - 1].freq == old(huf[bits - 1].freq)
      ensures forall c :: 0 <= c < BITS && c != bits - 1 ==> huf[c] == old(huf[c])
    {
      hide TableFirst, TableFreq, Pow2;
      var shift := BITS - bits;
      huf[bits - 1] := Symbols(bits, shift, huf[bits - 1].freq, code * Pow2(shift), cumFreq);
    }

    method PopulateClasses(L: seq<nat>) returns (ok: bool, complete: bool)
      requires Shape() && ValidLengths(L)
      requires forall c :: 0 <= c < BITS ==> huf[c].freq == TableFreq(L, c + 1)
      modifies huf
      ensures !ok ==> !AllZero(L) && Kraft(L) > 0x1_0000
      ensures ok ==> NoOverflow(L, 17)
      ensures ok ==> forall c :: 0 <= c < BITS ==> Classified(L, c + 1, huf[c]) && huf[c].raw == TableCum(L, c + 1)
      ensures ok ==> (complete <==> AllZero(L) || Kraft(L) == 0x1_0000)
    {
      hide Classified, AllZero, Kraft, TableFreq, TableFirst, TableCum, NoOverflow, Pow2;
      NoClassYet(L);
      var code, cumFreq := 0, 0;
      var bits := 1;
      while bits <= BITS
        invariant 1 <= bits <= 17
        invariant code == TableFirst(L, bits) && cumFreq == TableCum(L, bits)
        invariant NoOverflow(L, bits)
        invariant forall c :: 0 <= c < BITS ==> huf[c].freq == TableFreq(L, c + 1)
        invariant forall c :: 0 <= c < bits - 1 ==> Classified(L, c + 1, huf[c]) && huf[c].raw == TableCum(L, c + 1)
      {
        TableStep(L, bits);
        var freq := huf[bits - 1].freq;
        StoreClass(L, bits, code, cumFreq);
        code := code + freq;
        if code > Pow2(bits) {
          OverflowMeansTooManyCodes(L, bits);
          return false, false;
        }
        ClassFits(L, bits);
        code := code * 2;
        cumFreq := cumFreq + freq;
        bits := bits + 1;
      }
      complete := code == Pow2(bits);
      CompleteMeansKraft(L, bits);
      ok := true;
    }

    method PopulateRaw(L: seq<nat>)
      requires Shape() && ValidLengths(L) && |L| <= raw.Length
      requires forall c :: 0 <= c < BITS ==> Classified(L, c + 1, huf[c]) && huf[c].raw == TableCum(L, c + 1)
      modifies huf, raw
      ensures forall c :: 0 <= c < BITS ==>
        Classified(L, c + 1, huf[c]) && huf[c].raw == TableCum(L, c + 1) + Freq(L, c + 1)
      ensures RawFilled(L, |L|)
    {
      for s := 0 to |L|
        invariant forall c :: 0 <= c < BITS ==>
          Classified(L, c + 1, huf[c]) && huf[c].raw == TableCum(L, c + 1) + Count(L, s, c + 1)
        invariant RawFilled(L, s)
      {
        var bits := L[s];
        if bits != 0 {
          assert !AllZero(L);
          SlotInTable(L, s);
          forall t | 0 <= t < s && L[t] > 0 ensures Slot(L, t) != Slot(L, s) {
            SlotDistinct(L, t, s);
          }
          raw[huf[bits - 1].raw] := s;
          huf[bits - 1] := huf[bits - 1].(raw := huf[bits - 1].raw + 1);
        }
      }
    }

    method FillLookup(L: seq<nat>, bits: nat, prefix: nat)
      requires Shape() && 1 <= bits <= BITS && prefix == TableStart(L, bits) / QL_SPAN
      requires bits > 1 ==> Indexed(L, bits - 1)
      modifies lookup
      ensures Indexed(L, bits)
    {
      hide TableStart;
      var p := prefix;
      while p < QL_SIZE
        invariant p >= prefix
        invariant forall i :: prefix <= i < p && i < QL_SIZE ==> lookup[i] == bits - 1
        invariant forall i :: 0 <= i < QL_SIZE && (i < prefix || i >= p) ==> lookup[i] == old(lookup[i])
      {
        lookup[p] := bits - 1;
        p := p + 1;
      }
      FirstStart(L);
      forall i | 0 <= i < QL_SIZE ensures LookupUpTo(L, i, bits) {
        if i < prefix {
          assert old(LookupUpTo(L, i, bits - 1));
        }
      }
    }

    method AdjustClass(ghost L: seq<nat>, bits: nat)
      requires Shape() && 1 <= bits <= BITS && Classified(L, bits, huf[bits - 1])
      requires huf[bits - 1].raw == TableCum(L, bits) + Freq(L, bits)
      modifies huf
      ensures Classified(L, bits, huf[bits - 1]) && huf[bits - 1].raw == TableRaw(L, bits)
      ensures forall c :: 0 <= c < BITS && c != bits - 1 ==> huf[c] == old(huf[c])
    {
      hide TableCum, Freq, TableFreq, TableFirst, Pow2;
      var sym := huf[bits - 1];
      DivModUnique(sym.start, Pow2(sym.shift), TableFirst(L, bits), 0);
      var adjustment := sym.start / Pow2(sym.shift);
      huf[bits - 1] := sym.(raw := sym.raw - sym.freq - adjustment);
    }

    method AdjustAndIndex(L: seq<nat>)
      requires Shape() && ValidLengths(L) && |L| <= raw.Length
      requires forall c :: 0 <= c < BITS ==>
        Classified(L, c + 1, huf[c]) && huf[c].raw == TableCum(L, c + 1) + Freq(L, c + 1)
      modifies huf, lookup
      ensures forall c :: 0 <= c < BITS ==> Classified(L, c + 1, huf[c]) && huf[c].raw == TableRaw(L, c + 1)
      ensures Indexed(L, BITS)
      ensures raw[..] == old(raw[..])
    {
      hide TableStart, TableRaw, TableCum, Freq, Indexed, ValidLengths;
      var bits := 1;
      while bits <= BITS
        invariant 1 <= bits <= 17
        invariant forall c :: 0 <= c < BITS ==> Classified(L, c + 1, huf[c])
        invariant forall c :: 0 <= c < bits - 1 ==> huf[c].raw == TableRaw(L, c + 1)
        invariant forall c :: bits - 1 <= c < BITS ==> huf[c].raw == TableCum(L, c + 1) + Freq(L, c + 1)
        invariant bits > 1 ==> Indexed(L, bits - 1)
        invariant raw[..] == old(raw[..])
      {
        AdjustClass(L, bits);
        assert Classified(L, bits, huf[bits - 1]);
        FillLookup(L, bits, huf[bits - 1].start / QL_SPAN);
        bits := bits + 1;
      }
    }

    /** Builds the tables; 0 exactly for a complete code or an unused alphabet. */
    method Build(L: seq<nat>) returns (rc: int)
      requires Shape() && ValidLengths(L) && |L| <= raw.Length
      modifies huf, lookup, raw
      ensures rc == 0 <==> AllZero(L) || Kraft(L) == 0x1_0000
      ensures rc == 0 || rc == -1
      ensures rc == 0 ==> Built(L)
    {
      CountLengths(L);
      var ok, complete := PopulateClasses(L);
      if !ok {
        return -1;
      }
      PopulateRaw(L);
      AdjustAndIndex(L);
      if !complete {
        return -1;
      }
      return 0;
    }

    /**
     The class of a 16-bit window: quick lookup, then a walk back to the last class that
     starts at or before the window. The walk never leaves the table.
     */
    method FindSymbols(ghost L: seq<nat>, w: nat) returns (c: nat)
      requires Built(L) && w < 0x1_0000
      ensures c < BITS
      ensures TableStart(L, c + 1) <= w
      ensures forall b :: c + 1 < b <= BITS ==> w < TableStart(L, b)
    {
      hide TableStart, TableRaw, Kraft, AllZero, ValidLengths;
      FirstStart(L);
      var index := w / QL_SPAN;
      assert LookupUpTo(L, index, BITS);
      c := lookup[index];
      forall b | c + 1 < b <= BITS ensures w < TableStart(L, b) {
        AboveIndex(w, TableStart(L, b));
      }
      while w < huf[c].start
        invariant c < BITS
        invariant forall b :: c + 1 < b <= BITS ==> w < TableStart(L, b)
        decreases c
      {
        assert Classified(L, c + 1, huf[c]);
        c := c - 1;
      }
      assert Classified(L, c + 1, huf[c]);
    }

    /**
     What C reads through a raw pointer. The lookup table lies directly before the raw
     table, so small negative indices read pairs of lookup bytes.
     */
    function RawSymbol(i: int): nat
      requires Shape() && -64 <= i < raw.Length
      reads lookup, raw
    {
      if i >= 0 then raw[i] else lookup[QL_SIZE + 2 * i] + 256 * lookup[QL_SIZE + 2 * i + 1]
    }

    /** The class `c` a window belongs to, as `FindSymbols` reports it. */
    ghost predicate ClassOf(L: seq<nat>, w: nat, c: nat) {
      && c < BITS
      && TableStart(L, c + 1) <= w
      && forall b :: c + 1 < b <= BITS ==> w < TableStart(L, b)
    }

    /** In a used alphabet the class's re-based pointer lands on the symbol whose codeword begins `q`. */
    lemma {:induction false} RawSymbolMatches(L: seq<nat>, q: seq<bool>, c: nat)
      requires Built(L) && !AllZero(L) && |q| >= BITS
      requires ClassOf(L, Val(q[..BITS]), c)
      ensures 0 <= huf[c].raw + Val(q[..BITS]) / Pow2(huf[c].shift) < raw.Length
      ensures var s := RawSymbol(huf[c].raw + Val(q[..BITS]) / Pow2(huf[c].shift));
        Matches(L, q, s) && L[s] == huf[c].bits
    {
      var w, b := Val(q[..BITS]), c + 1;
      assert Classified(L, c + 1, huf[c]);
      Pow2Values();
      ValBound(q[..BITS]);
      StartIsSpace(L, b);
      if b < BITS {
        assert w < TableStart(L, b + 1);
      }
      var s := SymbolInClass(L, b, w);
      MatchIsInterval(L, q, s);
      IntervalIsQuotient(L, s, w);
      SlotInTable(L, s);
      assert Slot(L, s) < raw.Length && raw[Slot(L, s)] == s;
    }

    lemma {:induction false} LaterClassesEmpty(L: seq<nat>, b: nat)
      requires AllZero(L) && 1 <= b <= BITS
      ensures b > 1 ==> TableStart(L, b) == 0x1_0000
    {
      Pow2Values();
      Pow2Add(b, BITS - b);
    }

    /**
     An unused alphabet decodes every window to symbol 0 with a 1-bit code: the pointer
     was moved back over two symbols that were never stored, into the lookup table.
     */
    lemma {:induction false} UnusedAlphabet(L: seq<nat>, w: nat, c: nat)
      requires Built(L) && AllZero(L) && w < 0x1_0000 && ClassOf(L, w, c)
      ensures c == 0 && huf[0].bits == 1
      ensures -2 <= huf[0].raw + w / Pow2(huf[0].shift) < 0
      ensures RawSymbol(huf[0].raw + w / Pow2(huf[0].shift)) == 0
    {
      Pow2Values();
      LaterClassesEmpty(L, c + 1);
      assert Classified(L, 1, huf[0]);
      CountNone(L, |L|, 1);
      assert Pow2(huf[0].shift) == 0x8000;
      forall p | 0 <= p < QL_SIZE ensures lookup[p] == 0 {
        assert LookupUpTo(L, p, BITS);
        LaterClassesEmpty(L, lookup[p] + 1);
      }
    }

    /** A decode reads outside the raw table exactly when the alphabet is unused. */
    lemma {:induction false} OutsideExactlyWhenUnused(L: seq<nat>, q: seq<bool>, c: nat)
      requires Built(L) && |q| >= BITS && ClassOf(L, Val(q[..BITS]), c)
      ensures huf[c].raw + Val(q[..BITS]) / Pow2(huf[c].shift) < 0 <==> AllZero(L)
    {
      if AllZero(L) {
        Pow2Values();
        ValBound(q[..BITS]);
        UnusedAlphabet(L, Val(q[..BITS]), c);
      } else {
        RawSymbolMatches(L, q, c);
      }
    }

    /** Decodes the symbol at the head of the bit string `q`, seen through its 16-bit window. */
    method DecodeSymbol(ghost L: seq<nat>, ghost q: seq<bool>, w: nat) returns (symbol: nat, len: nat)
      requires Built(L) && |q| >= BITS && w == Val(q[..BITS])
      ensures 1 <= len <= BITS
      ensures AllZero(L) ==> symbol == 0 && len == 1
      ensures !AllZero(L) ==> Matches(L, q, symbol) && len == L[symbol]
      ensures !AllZero(L) ==> forall s :: Matches(L, q, s) ==> s == symbol
    {
      hide Matches, AllZero, Val;
      Pow2Values();
      ValBound(q[..BITS]);
      var c := FindSymbols(L, w);
      if AllZero(L) {
        UnusedAlphabet(L, w, c);
      } else {
        RawSymbolMatches(L, q, c);
      }
      symbol := RawSymbol(huf[c].raw + w / Pow2(huf[c].shift));
      len := huf[c].bits;
      assert Classified(L, c + 1, huf[c]);
      forall s | !AllZero(L) && Matches(L, q, s) ensures s == symbol {
        MatchUnique(L, q, s, symbol);
      }
    }
  }
}
