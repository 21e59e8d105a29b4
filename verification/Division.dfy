/**
 The two 64-bit shift-and-subtract divisions: `__udivmoddi4` of posix/libgcc.c and `divmod64` of
 disk/biosdisk.c. Every assignment to a `Word64` is checked against overflow; the only shift that
 loses a bit, that of `divmod64`'s numerator, is written with its wrap-around.
 */
module Division {
  import opened Arith

  const WORD: nat := 0x1_0000_0000_0000_0000
  const TOP_BIT: nat := 0x8000_0000_0000_0000

  type Word64 = x: int | 0 <= x < WORD

  lemma DoubleProduct(d: int, q: int)
    ensures d * (q * 2) == d * q * 2
  {}

  /** Adding the next bit keeps the quotient's product within the numerator. */
  lemma {:induction false} QuotientFits(n: nat, d: nat, quot: nat, qbit: nat, num: nat)
    requires d > 0 && quot * d + num == n && d * qbit <= num
    ensures (quot + qbit) * d + (num - d * qbit) == n
    ensures quot + qbit <= n
  {
    MulDistributes(quot, qbit, d);
    assert (quot + qbit) * d <= n;
    MulMonotone(1, d, quot + qbit);
  }

  /** The denominator is justified left, then subtracted at every lower bit. */
  method UDivMod(n: Word64, d: Word64) returns (quot: Word64, rem: Word64)
    requires d != 0
    ensures quot == n / d && rem == n % d
  {
    var num, den: Word64, qbit: Word64 := n, d, 1;
    quot := 0;
    ghost var k: nat := 0;
    while den < TOP_BIT
      invariant qbit == Pow2(k) && den == d * qbit && qbit <= den
      decreases WORD - den
    {
      DoubleProduct(d, qbit);
      den := den * 2;
      qbit := qbit * 2;
      k := k + 1;
    }
    while qbit != 0
      invariant quot * d + num == n && 0 <= num
      invariant qbit != 0 ==> qbit == Pow2(k) && den == d * qbit && num < 2 * den
      invariant qbit == 0 ==> num < d
      decreases qbit
    {
      if den <= num {
        QuotientFits(n, d, quot, qbit, num);
        num := num - den;
        quot := quot + qbit;
      }
      if k > 0 {
        DoubleProduct(d, qbit / 2);
        k := k - 1;
      }
      den := den / 2;
      qbit := qbit / 2;
    }
    rem := num;
    DivModUnique(n, d, quot, rem);
  }

  ghost predicate Split(n: nat, bits: nat, prefix: nat, rest: nat) {
    n == prefix * Pow2(bits) + rest && rest < Pow2(bits)
  }

  /** `q` and `m` divide the prefix; for a zero divisor `q` is all ones, `count` of them. */
  ghost predicate Divided(prefix: nat, d: nat, q: nat, m: nat, count: nat) {
    if d == 0 then q == Pow2(count) - 1 && m == prefix
    else prefix == q * d + m && m < d
  }

  lemma {:induction false} Widths()
    ensures Pow2(64) == WORD && Pow2(63) == TOP_BIT
  {
    Pow2Values();
    Pow2Add(32, 32);
    Pow2Add(63, 1);
  }

  lemma {:induction false} NothingDivided(n: nat, d: nat)
    requires n < WORD
    ensures Split(n, 64, 0, n) && n * Pow2(0) == n && Divided(0, d, 0, 0, 0)
  {
    Widths();
  }

  lemma {:induction false} AllDivided(n: nat, d: nat, prefix: nat, rest: nat, q: nat, m: nat)
    requires Split(n, 0, prefix, rest) && Divided(prefix, d, q, m, 64)
    ensures d != 0 ==> q == n / d && m == n % d
    ensures d == 0 ==> q == WORD - 1 && m == n
  {
    Widths();
    if d != 0 {
      DivModUnique(n, d, q, m);
    }
  }

  lemma {:induction false} DividedStep(prefix: nat, d: nat, q: nat, m: nat, count: nat, bit: nat)
    requires Divided(prefix, d, q, m, count) && bit <= 1
    ensures var m' := 2 * m + bit;
      if m' >= d then Divided(2 * prefix + bit, d, 2 * q + 1, m' - d, count + 1)
      else Divided(2 * prefix + bit, d, 2 * q, m', count + 1)
  {
    MulDistributes(2 * q, 1, d);
    assert 2 * (q * d) == 2 * q * d;
  }

  lemma {:induction false} PrefixSmall(n: nat, bits: nat, prefix: nat, rest: nat)
    requires n < WORD && 0 < bits <= 64 && Split(n, bits, prefix, rest)
    ensures prefix < TOP_BIT
  {
    Widths();
    Pow2Monotone(1, bits);
    if prefix >= TOP_BIT {
      MulMonotone(TOP_BIT, prefix, Pow2(bits));
    }
  }

  /** No doubling of the remainder or the quotient overflows. */
  lemma {:induction false} DividedFits(prefix: nat, d: nat, q: nat, m: nat, count: nat)
    requires Divided(prefix, d, q, m, count) && prefix < TOP_BIT && count < 64
    ensures 2 * m + 1 < WORD && 2 * q + 1 < WORD
  {
    Widths();
    if d == 0 {
      Pow2Monotone(count, 63);
    } else {
      MulMonotone(1, d, q);
    }
  }

  lemma PowSucc(k: nat)
    ensures Pow2(k + 1) == 2 * Pow2(k)
  {}

  lemma {:induction false} ShiftedOut(rest: nat, half: nat, up: nat)
    requires half > 0 && up > 0 && half * up == TOP_BIT && rest < 2 * half
    ensures var bit := if rest >= half then 1 else 0;
      && (rest * up >= TOP_BIT <==> bit == 1)
      && rest * up * 2 % WORD == (rest - bit * half) * (2 * up)
  {
    var bit := if rest >= half then 1 else 0;
    var left := rest - bit * half;
    MulDistributes(left, bit * half, up);
    assert bit * half * up == bit * (half * up);
    MulMonotone(left + 1, half, up);
    MulDistributes(left, 1, up);
    assert left * (2 * up) == left * up * 2;
    DivModUnique(rest * up * 2, WORD, bit, left * (2 * up));
  }

  lemma {:induction false} SplitMoves(prefix: nat, rest: nat, half: nat)
    requires half > 0 && rest < 2 * half
    ensures var bit := if rest >= half then 1 else 0;
      prefix * (2 * half) + rest == (2 * prefix + bit) * half + (rest - bit * half) && 0 <= rest - bit * half < half
  {
    MulDistributes(2 * prefix, if rest >= half then 1 else 0, half);
  }

  /** The numerator's top bit is the next one of the rest. */
  lemma {:induction false} ShiftedBit(n: nat, bits: nat, prefix: nat, rest: nat)
    requires 0 < bits <= 64 && Split(n, bits, prefix, rest)
    ensures var bit := if rest >= Pow2(bits - 1) then 1 else 0;
      var low := rest * Pow2(64 - bits);
      && (low >= TOP_BIT <==> bit == 1)
      && Split(n, bits - 1, 2 * prefix + bit, rest - bit * Pow2(bits - 1))
      && low * 2 % WORD == (rest - bit * Pow2(bits - 1)) * Pow2(64 - (bits - 1))
  {
    hide Pow2;
    Widths();
    PowSucc(bits - 1);
    PowSucc(64 - bits);
    var half, up := Pow2(bits - 1), Pow2(64 - bits);
    Pow2Add(bits - 1, 64 - bits);
    assert Pow2(bits) == 2 * half && Pow2(64 - (bits - 1)) == 2 * up;
    ShiftedOut(rest, half, up);
    SplitMoves(prefix, rest, half);
  }

  /** The numerator is shifted in from its highest bit; division by zero gives all ones. */
  method DivMod64(n: Word64, d: Word64) returns (q: Word64, m: Word64)
    ensures d != 0 ==> q == n / d && m == n % d
    ensures d == 0 ==> q == WORD - 1 && m == n
  {
    hide Pow2, Split, Divided;
    var bits: nat, low: Word64 := 64, n;
    q, m := 0, 0;
    // the part of the numerator already shifted in, and the part left
    ghost var prefix: nat, rest: nat := 0, n;
    NothingDivided(n, d);
    while bits > 0
      invariant bits <= 64 && Split(n, bits, prefix, rest) && low == rest * Pow2(64 - bits)
      invariant Divided(prefix, d, q, m, 64 - bits)
    {
      ShiftedBit(n, bits, prefix, rest);
      PrefixSmall(n, bits, prefix, rest);
      DividedFits(prefix, d, q, m, 64 - bits);
      ghost var bit := if rest >= Pow2(bits - 1) then 1 else 0;
      DividedStep(prefix, d, q, m, 64 - bits, bit);
      bits := bits - 1;
      m := m * 2;
      if low >= TOP_BIT {
        m := m + 1;
      }
      q := q * 2;
      low := low * 2 % WORD;
      if m >= d {
        q := q + 1;
        m := m - d;
      }
      prefix, rest := 2 * prefix + bit, rest - bit * Pow2(bits);
    }
    AllDivided(n, d, prefix, rest, q, m);
  }
}
