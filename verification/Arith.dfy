/** Bytes, memory, powers of two and bit strings shared by the models. */
module Arith {

  type byte = x: int | 0 <= x < 256

  /** What C code can read through a pointer: every offset holds some byte. */
  type Memory = nat -> byte

  /** The 16-bit little-endian word at offset `pos`. */
  function Word(mem: Memory, pos: nat): (w: nat)
    ensures w < 0x1_0000
  {
    mem(pos) + 256 * mem(pos + 1)
  }

  /** The 32-bit little-endian value at offset `pos`. */
  function Long(mem: Memory, pos: nat): (v: nat)
    ensures v < 0x1_0000_0000
  {
    Word(mem, pos) + 0x1_0000 * Word(mem, pos + 2)
  }

  datatype Option<T> = None | Some(value: T)

  function LE16(v: nat): (b: seq<byte>)
    ensures |b| == 2
  {
    [v % 256, v / 256 % 256]
  }

  function LE32(v: nat): (b: seq<byte>)
    ensures |b| == 4
  {
    [v % 256, v / 256 % 256, v / 0x1_0000 % 256, v / 0x100_0000 % 256]
  }

  /** A byte read as a signed C char and stored in 16 bits. */
  function SignExtended(b: byte): (c: nat)
    ensures c < 0x1_0000
    ensures c == b <==> b < 0x80
    ensures c == 0 <==> b == 0
  {
    if b < 0x80 then b else b + 0xff00
  }

  /** The little-endian fields of a byte sequence. */
  function U16(s: seq<byte>, o: nat): (v: nat)
    requires o + 2 <= |s|
    ensures v < 0x1_0000
  {
    s[o] as int + 256 * s[o + 1] as int
  }

  function U32(s: seq<byte>, o: nat): (v: nat)
    requires o + 4 <= |s|
    ensures v < 0x1_0000_0000
  {
    U16(s, o) + 0x1_0000 * U16(s, o + 2)
  }

  lemma {:induction false} MulMonotone(a: int, b: int, d: int)
    requires a <= b && d >= 0
    ensures a * d <= b * d
  {
    assert b * d - a * d == (b - a) * d;
  }

  /** Euclidean division is determined by any quotient and in-range remainder. */
  lemma {:induction false} DivModUnique(x: int, d: int, q: int, r: int)
    requires d > 0 && x == q * d + r && 0 <= r < d
    ensures x / d == q && x % d == r
  {
    var q', r' := x / d, x % d;
    assert (q' - q) * d == r - r';
    if q' > q {
      MulMonotone(1, q' - q, d);
    } else if q' < q {
      MulMonotone(1, q - q', d);
    }
  }

  lemma {:induction false} LowWord(v: nat)
    requires v < 0x1_0000
    ensures v % 256 + 256 * (v / 256 % 256) == v
  {
    DivModUnique(v / 256, 256, 0, v / 256);
  }

  lemma {:induction false} FieldReadsBack(v: nat)
    requires v < 0x1_0000_0000
    ensures U32(LE32(v), 0) == v
  {
    var a := v / 256;
    DivModUnique(v, 0x1_0000, a / 256, a % 256 * 256 + v % 256);
    DivModUnique(v, 0x100_0000, a / 256 / 256, a / 256 % 256 * 0x1_0000 + a % 256 * 256 + v % 256);
  }

  /** A field of a byte sequence reads as it does on its own. */
  lemma {:induction false} FieldAlone(s: seq<byte>, o: nat)
    ensures o + 2 <= |s| ==> U16(s, o) == U16(s[o..o + 2], 0)
    ensures o + 4 <= |s| ==> U32(s, o) == U32(s[o..o + 4], 0)
  {}

  lemma {:induction false} ReadsBack(s: seq<byte>, o: nat, v: nat)
    ensures o + 2 <= |s| && s[o..o + 2] == LE16(v) && v < 0x1_0000 ==> U16(s, o) == v
    ensures o + 4 <= |s| && s[o..o + 4] == LE32(v) && v < 0x1_0000_0000 ==> U32(s, o) == v
  {
    hide LE32, U32;
    FieldAlone(s, o);
    if o + 2 <= |s| && s[o..o + 2] == LE16(v) && v < 0x1_0000 {
      LowWord(v);
    }
    if v < 0x1_0000_0000 {
      FieldReadsBack(v);
    }
  }

  lemma {:induction false} FourBytes(a: nat, b: nat, c: nat, d: nat)
    requires a < 256 && b < 256 && c < 256 && d < 256
    ensures LE32(a + 256 * b + 0x1_0000 * c + 0x100_0000 * d) == [a, b, c, d]
  {
    var v := a + 256 * b + 0x1_0000 * c + 0x100_0000 * d;
    DivModUnique(v, 256, b + 256 * c + 0x1_0000 * d, a);
    DivModUnique(b + 256 * c + 0x1_0000 * d, 256, c + 256 * d, b);
    DivModUnique(v, 0x1_0000, c + 256 * d, a + 256 * b);
    DivModUnique(c + 256 * d, 256, d, c);
    DivModUnique(v, 0x100_0000, d, a + 256 * b + 0x1_0000 * c);
  }

  /** A 32-bit value's bytes are the ones it was read from. */
  lemma {:induction false} BytesOfU32(s: seq<byte>, o: nat)
    requires o + 4 <= |s|
    ensures s[o..o + 4] == LE32(U32(s, o))
  {
    FourBytes(s[o], s[o + 1], s[o + 2], s[o + 3]);
    assert U32(s, o) == s[o] as int + 256 * s[o + 1] as int + 0x1_0000 * s[o + 2] as int + 0x100_0000 * s[o + 3] as int;
  }

  /** `s` with the bytes `f` stored at offset `o`. */
  function Patch(s: seq<byte>, o: nat, f: seq<byte>): (r: seq<byte>)
    requires o + |f| <= |s|
    ensures |r| == |s|
    ensures r[o..o + |f|] == f
    ensures forall i :: 0 <= i < |s| && (i < o || i >= o + |f|) ==> r[i] == s[i]
  {
    s[..o] + f + s[o + |f|..]
  }

  /** Memory holds `bytes` at `pos`. */
  ghost predicate At(mem: Memory, pos: nat, bytes: seq<byte>) {
    forall i :: 0 <= i < |bytes| ==> mem(pos + i) == bytes[i]
  }

  lemma {:induction false} AtConcat(mem: Memory, pos: nat, a: seq<byte>, b: seq<byte>)
    requires At(mem, pos, a + b)
    ensures At(mem, pos, a) && At(mem, pos + |a|, b)
  {
    forall i | 0 <= i < |a| ensures mem(pos + i) == a[i] {
      assert (a + b)[i] == a[i];
    }
    forall i | 0 <= i < |b| ensures mem(pos + |a| + i) == b[i] {
      assert mem(pos + (|a| + i)) == (a + b)[|a| + i];
    }
  }

  function Min(a: int, b: int): int {
    if a < b then a else b
  }

  function Pow2(n: nat): (p: nat)
    ensures p > 0
  {
    if n == 0 then 1 else 2 * Pow2(n - 1)
  }

  lemma {:induction false} Pow2Add(a: nat, b: nat)
    ensures Pow2(a + b) == Pow2(a) * Pow2(b)
  {
    if a == 0 {
    } else {
      Pow2Add(a - 1, b);
      assert Pow2(a) * Pow2(b) == 2 * (Pow2(a - 1) * Pow2(b));
    }
  }

  lemma {:induction false} Pow2Monotone(a: nat, b: nat)
    requires a <= b
    ensures Pow2(a) <= Pow2(b)
    ensures a < b ==> 2 * Pow2(a) <= Pow2(b)
  {
    if a == b {
    } else {
      Pow2Monotone(a, b - 1);
    }
  }

  lemma Pow2Double(n: nat)
    ensures Pow2(0) == 1 && Pow2(n + 1) == 2 * Pow2(n)
  {}

  lemma {:induction false} Pow2Values()
    ensures Pow2(0) == 1 && Pow2(1) == 2 && Pow2(2) == 4 && Pow2(3) == 8 && Pow2(4) == 16
    ensures Pow2(7) == 128 && Pow2(8) == 256 && Pow2(9) == 512 && Pow2(12) == 4096
    ensures Pow2(15) == 0x8000 && Pow2(16) == 0x1_0000 && Pow2(17) == 0x2_0000
    ensures Pow2(32) == 0x1_0000_0000
  {
    hide Pow2;
    Pow2Double(0);
    Pow2Double(1);
    Pow2Double(2);
    Pow2Double(3);
    Pow2Add(3, 4);
    Pow2Add(4, 4);
    Pow2Add(8, 1);
    Pow2Add(8, 4);
    Pow2Add(8, 7);
    Pow2Add(8, 8);
    Pow2Add(16, 1);
    Pow2Add(16, 16);
  }

  /** Division is determined by the interval the dividend lies in. */
  lemma {:induction false} DivUnique(x: int, d: int, q: int)
    requires d > 0
    ensures x / d == q <==> q * d <= x < (q + 1) * d
  {
    assert (q + 1) * d == q * d + d;
    if q * d <= x < (q + 1) * d {
      DivModUnique(x, d, q, x - q * d);
    }
  }

  lemma MulAssociates(a: int, b: int, d: int)
    ensures (a * b) * d == b * (a * d)
  {}

  lemma MulDistributes(a: int, b: int, d: int)
    ensures (a + b) * d == a * d + b * d
  {}

  // ------------------------------------------------------------ bit strings

  /** The number a bit string spells, most significant bit first. */
  function Val(q: seq<bool>): (v: nat)
  {
    if q == [] then 0
    else 2 * Val(q[..|q| - 1]) + (if q[|q| - 1] then 1 else 0)
  }

  /** The low `n` bits of `v`, most significant bit first. */
  function Bits(v: nat, n: nat): (q: seq<bool>)
    ensures |q| == n
  {
    if n == 0 then [] else Bits(v / 2, n - 1) + [v % 2 == 1]
  }

  lemma {:induction false} ValBound(q: seq<bool>)
    ensures Val(q) < Pow2(|q|)
  {
    if q == [] {
    } else {
      ValBound(q[..|q| - 1]);
    }
  }

  lemma {:induction false} ValOfBits(v: nat, n: nat)
    requires v < Pow2(n)
    ensures Val(Bits(v, n)) == v
  {
    if n == 0 {
    } else {
      ValOfBits(v / 2, n - 1);
      assert Bits(v, n)[..n - 1] == Bits(v / 2, n - 1);
    }
  }

  lemma {:induction false} BitsOfVal(q: seq<bool>)
    ensures Bits(Val(q), |q|) == q
  {
    if q == [] {
    } else {
      var p := q[..|q| - 1];
      BitsOfVal(p);
      assert Val(q) / 2 == Val(p);
      assert q == p + [q[|q| - 1]];
    }
  }

  lemma {:induction false} ValConcat(a: seq<bool>, b: seq<bool>)
    ensures Val(a + b) == Val(a) * Pow2(|b|) + Val(b)
  {
    if b == [] {
      assert a + b == a;
    } else {
      var b' := b[..|b| - 1];
      ValConcat(a, b');
      assert (a + b)[..|a + b| - 1] == a + b';
      assert Val(a) * Pow2(|b|) == 2 * (Val(a) * Pow2(|b'|));
    }
  }

  /** Shifting right keeps the leading bits, taking the remainder keeps the trailing ones. */
  lemma {:induction false} ValSplit(q: seq<bool>, n: nat)
    requires n <= |q|
    ensures Val(q) / Pow2(|q| - n) == Val(q[..n])
    ensures Val(q) % Pow2(|q| - n) == Val(q[n..])
  {
    assert q == q[..n] + q[n..];
    ValConcat(q[..n], q[n..]);
    ValBound(q[n..]);
    DivModUnique(Val(q), Pow2(|q| - n), Val(q[..n]), Val(q[n..]));
  }
}
