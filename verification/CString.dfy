/**
 `strtoul` of posix/string.c on NUL-terminated strings, with 64-bit `unsigned long`.
 */
module CString {
  import opened Arith

  const LONG: nat := 0x1_0000_0000_0000_0000
  const UINT := 0x1_0000_0000

  predicate IsSpace(c: byte) {
    c == 0x20 || c == 0x0c || c == 0x0a || c == 0x0d || c == 0x09 || c == 0x0b
  }

  /** The digit a character stands for; any other character gives a number no base reaches. */
  function Digit(c: byte): nat {
    if c >= 0x61 then c - 0x61 + 10
    else if c >= 0x41 then c - 0x41 + 10
    else if c <= 0x39 then (c as int - 0x30) % UINT
    else c
  }

  function SkipSpaces(s: seq<byte>, i: nat): (j: nat)
    requires i <= |s|
    ensures i <= j <= |s|
    decreases |s| - i
  {
    if i < |s| && IsSpace(s[i]) then SkipSpaces(s, i + 1) else i
  }

  /** The value of the digits from `i` on, after those that gave `val`. */
  function Digits(s: seq<byte>, i: nat, base: nat, val: nat): (v: nat)
    requires i <= |s|
    ensures val < LONG ==> v < LONG
    decreases |s| - i
  {
    if i < |s| && Digit(s[i]) < base then Digits(s, i + 1, base, (val * base + Digit(s[i])) % LONG) else val
  }

  /** Base 0 is read off the prefix: `0x` is hexadecimal, `0` octal. */
  function Prefix(s: seq<byte>, i: nat, base: nat): (r: (nat, nat))
    requires i <= |s|
    ensures i <= r.0 <= |s|
  {
    if base != 0 then (i, base)
    else if i < |s| && s[i] == 0x30 then
      if i + 1 < |s| && (s[i + 1] == 0x58 || s[i + 1] == 0x78) then (i + 2, 16) else (i + 1, 8)
    else (i, 10)
  }

  function StrToUl(s: seq<byte>, base: nat): nat {
    var i := SkipSpaces(s, 0);
    var negate := i < |s| && s[i] == 0x2d;
    var signed := negate || (i < |s| && s[i] == 0x2b);
    var p := Prefix(s, if signed then i + 1 else i, base);
    var val := Digits(s, p.0, p.1, 0);
    if negate then (LONG - val) % LONG else val
  }

  lemma Stops(s: seq<byte>, stop: nat, base: nat)
    requires stop < |s| && s[stop] == 0 && base <= 36
    ensures !IsSpace(s[stop]) && Digit(s[stop]) >= 36 && s[stop] != 0x30 && s[stop] != 0x2b && s[stop] != 0x2d
  {}

  lemma SpaceStep(s: seq<byte>, i: nat)
    requires i < |s|
    ensures SkipSpaces(s, i) == if IsSpace(s[i]) then SkipSpaces(s, i + 1) else i
  {}

  lemma DigitStep(s: seq<byte>, i: nat, base: nat, val: nat)
    requires i < |s|
    ensures Digits(s, i, base, val)
         == if Digit(s[i]) < base then Digits(s, i + 1, base, (val * base + Digit(s[i])) % LONG) else val
  {}

  /** The characters up to the first NUL are all that is read. */
  method ParseULong(s: seq<byte>, base: nat) returns (val: nat)
    requires 0 in s && base <= 36
    ensures val == StrToUl(s, base)
  {
    hide Digits, SkipSpaces;
    var i: nat := 0;
    ghost var stop: nat :| stop < |s| && s[stop] == 0;
    Stops(s, stop, base);
    while IsSpace(s[i])
      invariant i <= stop && SkipSpaces(s, 0) == SkipSpaces(s, i)
      decreases stop - i
    {
      SpaceStep(s, i);
      i := i + 1;
    }
    SpaceStep(s, i);
    var negate := false;
    if s[i] == 0x2b {
      i := i + 1;
    } else if s[i] == 0x2d {
      i := i + 1;
      negate := true;
    }
    var b := base;
    ghost var start := i;
    if b == 0 {
      b := 10;
      if s[i] == 0x30 {
        i := i + 1;
        b := 8;
        if s[i] == 0x58 || s[i] == 0x78 {
          i := i + 1;
          b := 16;
        }
      }
    }
    assert (i, b) == Prefix(s, start, base);
    val := 0;
    ghost var first := i;
    var digit := Digit(s[i]);
    while digit < b
      invariant first <= i <= stop && digit == Digit(s[i]) && val < LONG
      invariant Digits(s, first, b, 0) == Digits(s, i, b, val)
      decreases stop - i
    {
      DigitStep(s, i, b, val);
      val := (val * b + digit) % LONG;
      i := i + 1;
      digit := Digit(s[i]);
    }
    DigitStep(s, i, b, val);
    if negate {
      val := (LONG - val) % LONG;
    }
  }

  // ----------------------------------------------------------------- writing

  function Hex(val: nat): byte
    requires val < 16
  {
    if val < 10 then 0x30 + val else 0x61 + val - 10
  }

  /** `n` hexadecimal digits of a value, most significant first. */
  function HexField(v: nat, n: nat): (s: seq<byte>)
    ensures |s| == n
  {
    if n == 0 then [] else HexField(v / 16, n - 1) + [Hex(v % 16)]
  }

  function Pow16(n: nat): (p: nat)
    ensures p > 0
  {
    if n == 0 then 1 else 16 * Pow16(n - 1)
  }

  lemma HexValue(d: nat)
    requires d < 16
    ensures Digit(Hex(d)) == d
  {}

  /** The digits of a value read back as the value, whatever follows them. */
  lemma {:induction false} HexDigits(v: nat, n: nat, rest: seq<byte>)
    requires v < Pow16(n) && v < LONG
    ensures Digits(HexField(v, n) + rest, 0, 16, 0) == Digits(HexField(v, n) + rest, n, 16, v)
  {
    hide Digits, Digit, Hex;
    if n == 0 {
    } else {
      var s, last := HexField(v, n) + rest, Hex(v % 16);
      assert s == HexField(v / 16, n - 1) + ([last] + rest);
      HexDigits(v / 16, n - 1, [last] + rest);
      DigitStep(s, n - 1, 16, v / 16);
      HexValue(v % 16);
    }
  }

  lemma DigitsStop(s: seq<byte>, i: nat, val: nat)
    requires i <= |s| && (i == |s| || Digit(s[i]) >= 16)
    ensures Digits(s, i, 16, val) == val
  {}

  lemma {:induction false} DivTwice(v: nat, p: nat)
    requires p > 0
    ensures v / 16 / p == v / (16 * p)
  {
    var a, b := v / 16, v % 16;
    var q, r := a / p, a % p;
    assert a * 16 == q * (16 * p) + 16 * r;
    DivModUnique(v, 16 * p, q, 16 * r + b);
  }

  lemma {:induction false} HexFieldAt(v: nat, n: nat, i: nat)
    requires i < n
    ensures HexField(v, n)[i] == Hex(v / Pow16(n - 1 - i) % 16)
  {
    if i == n - 1 {
    } else {
      HexFieldAt(v / 16, n - 1, i);
      DivTwice(v, Pow16(n - 2 - i));
      assert Pow16(n - 1 - i) == 16 * Pow16(n - 2 - i);
    }
  }

  lemma NotSign(d: nat)
    requires d < 16
    ensures !IsSpace(Hex(d)) && Hex(d) != 0x2b && Hex(d) != 0x2d
  {}

  /** A 32-bit value written as eight hexadecimal digits is read back by `strtoul`. */
  lemma {:induction false} FieldReads(v: nat)
    requires v < UINT
    ensures StrToUl(HexField(v, 8) + [0], 16) == v
  {
    hide Digits, HexField;
    var s := HexField(v, 8) + [0];
    assert Pow16(8) == UINT;
    HexFieldAt(v, 8, 0);
    NotSign(v / Pow16(7) % 16);
    SpaceStep(s, 0);
    HexDigits(v, 8, [0]);
    DigitsStop(s, 8, v);
  }
}
