/**
 The ordering of EFI device paths (section 10.3 of the UEFI 2.8 specification) in disk/efidisk.c.
 */
module DevicePath {
  import opened Arith

  const END_TYPE := 0x7f
  const END_ENTIRE := 0xff
  const HEADER := 4

  /** A node's bytes: type, subtype, 16-bit length, data. */
  type Node = s: seq<byte> | |s| >= 4 witness [0, 0, 0, 0]

  function Type(n: Node): nat {
    n[0] % 128
  }

  function Length(n: Node): nat {
    U16(n, 2)
  }

  predicate Valid(n: Node) {
    Length(n) == |n|
  }

  /** A header whose length field is too short to be a node. */
  predicate Broken(n: Node) {
    |n| == HEADER && Length(n) < HEADER
  }

  predicate IsEnd(n: Node) {
    Type(n) == END_TYPE && n[1] == END_ENTIRE
  }

  /** A path as code walks it: valid nodes up to an end node or a broken one. */
  ghost predicate IsPath(p: seq<Node>) {
    && |p| > 0
    && (forall i :: 0 <= i < |p| - 1 ==> Valid(p[i]) && !IsEnd(p[i]))
    && (Broken(p[|p| - 1]) || (Valid(p[|p| - 1]) && IsEnd(p[|p| - 1])))
  }

  ghost predicate WellFormed(p: seq<Node>) {
    IsPath(p) && Valid(p[|p| - 1])
  }

  function Bytes(p: seq<Node>): seq<byte> {
    if p == [] then [] else p[0] + Bytes(p[1..])
  }

  ghost predicate Stored(mem: Memory, pos: nat, p: seq<Node>) {
    IsPath(p) && At(mem, pos, Bytes(p))
  }

  // -------------------------------------------------------------- comparison

  function MemCmp(a: seq<byte>, b: seq<byte>): int
    requires |a| == |b|
  {
    if a == [] then 0
    else if a[0] != b[0] then a[0] as int - b[0] as int
    else MemCmp(a[1..], b[1..])
  }

  /** The order of two valid nodes: higher types first, then subtype, length and contents. */
  function NodeCmp(a: Node, b: Node): int
    requires Valid(a) && Valid(b)
  {
    if Type(a) != Type(b) then Type(b) - Type(a)
    else if a[1] != b[1] then a[1] as int - b[1] as int
    else if |a| != |b| then |a| - |b|
    else MemCmp(a, b)
  }

  lemma {:induction false} MemCmpZero(a: seq<byte>, b: seq<byte>)
    requires |a| == |b|
    ensures MemCmp(a, b) == 0 <==> a == b
  {
    if a == [] {
    } else if a[0] == b[0] {
      MemCmpZero(a[1..], b[1..]);
      assert a == [a[0]] + a[1..] && b == [b[0]] + b[1..];
    }
  }

  /** The order of paths: node by node, a broken node coming before any valid one. */
  function Compare(p: seq<Node>, q: seq<Node>): int
    requires IsPath(p) && IsPath(q)
  {
    var a, b := p[0], q[0];
    if !Valid(a) || !Valid(b) then (if Valid(a) then 1 else if Valid(b) then -1 else 0)
    else if NodeCmp(a, b) != 0 then NodeCmp(a, b)
    else if IsEnd(a) then 0
    else
      MemCmpZero(a, b);
      Compare(p[1..], q[1..])
  }

  lemma {:induction false} MemCmpOpposite(a: seq<byte>, b: seq<byte>)
    requires |a| == |b|
    ensures MemCmp(a, b) == -MemCmp(b, a)
  {
    if a != [] && a[0] == b[0] {
      MemCmpOpposite(a[1..], b[1..]);
    }
  }

  /** x and y not positive give z not positive, and negative if either is. */
  ghost predicate Chains(x: int, y: int, z: int) {
    x <= 0 && y <= 0 ==> z <= 0 && (x < 0 || y < 0 ==> z < 0)
  }

  lemma {:induction false} MemCmpChains(a: seq<byte>, b: seq<byte>, c: seq<byte>)
    requires |a| == |b| == |c|
    ensures Chains(MemCmp(a, b), MemCmp(b, c), MemCmp(a, c))
  {
    if a == [] {
    } else {
      MemCmpChains(a[1..], b[1..], c[1..]);
    }
  }

  lemma {:induction false} NodeCmpOrder(a: Node, b: Node, c: Node)
    requires Valid(a) && Valid(b) && Valid(c)
    ensures NodeCmp(a, b) == 0 <==> a == b
    ensures NodeCmp(a, b) == -NodeCmp(b, a)
    ensures Chains(NodeCmp(a, b), NodeCmp(b, c), NodeCmp(a, c))
  {
    if |a| == |b| {
      MemCmpZero(a, b);
      MemCmpOpposite(a, b);
      if |b| == |c| {
        MemCmpChains(a, b, c);
      }
    }
  }

  /** Swapping the paths changes only the sign. */
  lemma {:induction false} CompareOpposite(p: seq<Node>, q: seq<Node>)
    requires IsPath(p) && IsPath(q)
    ensures Compare(p, q) == -Compare(q, p)
  {
    hide NodeCmp;
    var a, b := p[0], q[0];
    if Valid(a) && Valid(b) {
      NodeCmpOrder(a, b, b);
      NodeCmpOrder(b, a, a);
      if a == b && !IsEnd(a) {
        CompareOpposite(p[1..], q[1..]);
      }
    }
  }

  lemma {:induction false} CompareChains(p: seq<Node>, q: seq<Node>, r: seq<Node>)
    requires IsPath(p) && IsPath(q) && IsPath(r)
    ensures Chains(Compare(p, q), Compare(q, r), Compare(p, r))
  {
    hide NodeCmp;
    var a, b, c := p[0], q[0], r[0];
    if Valid(a) && Valid(b) && Valid(c) {
      NodeCmpOrder(a, b, c);
      NodeCmpOrder(b, c, c);
      NodeCmpOrder(a, c, c);
      if a == b == c && !IsEnd(a) {
        CompareChains(p[1..], q[1..], r[1..]);
      }
    }
  }

  /** The length field delimits the first node. */
  lemma {:induction false} FirstNode(p: seq<Node>, q: seq<Node>)
    requires WellFormed(p) && WellFormed(q) && Bytes(p) == Bytes(q)
    ensures p[0] == q[0]
  {
    var a, b, s := p[0], q[0], Bytes(p);
    assert s[..|a|] == a && s[..|b|] == b;
    assert a[2] == s[2] == b[2] && a[3] == s[3] == b[3];
  }

  /** Well-formed paths compare equal exactly when they are the same bytes. */
  lemma {:induction false} CompareZero(p: seq<Node>, q: seq<Node>)
    requires WellFormed(p) && WellFormed(q)
    ensures Compare(p, q) == 0 <==> p == q
    ensures p == q <==> Bytes(p) == Bytes(q)
  {
    hide NodeCmp;
    var a, b := p[0], q[0];
    NodeCmpOrder(a, b, b);
    if Bytes(p) == Bytes(q) {
      FirstNode(p, q);
    }
    if a == b {
      assert p == [a] + p[1..] && q == [b] + q[1..];
      if !IsEnd(a) {
        CompareZero(p[1..], q[1..]);
        assert Bytes(p)[|a|..] == Bytes(p[1..]) && Bytes(q)[|a|..] == Bytes(q[1..]);
      }
    }
  }

  /** Paths of the same nodes but for the last, which is the same or broken in both. */
  ghost predicate Alike(p: seq<Node>, q: seq<Node>) {
    && 0 < |p| == |q|
    && var n := |p| - 1;
       p[..n] == q[..n] && (p[n] == q[n] || (Broken(p[n]) && Broken(q[n])))
  }

  lemma BrokenAlone(p: seq<Node>)
    requires IsPath(p)
    ensures !Valid(p[0]) <==> |p| == 1 && Broken(p[0])
  {}

  lemma {:induction false} AlikeTail(p: seq<Node>, q: seq<Node>)
    requires |p| > 1 && |q| > 1 && p[0] == q[0]
    ensures Alike(p, q) <==> Alike(p[1..], q[1..])
  {
    var n := |p| - 1;
    if |q| == |p| {
      assert p[..n] == [p[0]] + p[1..][..n - 1] && q[..n] == [q[0]] + q[1..][..n - 1];
      assert p[..n][1..] == p[1..][..n - 1] && q[..n][1..] == q[1..][..n - 1];
    }
  }

  /** Any two paths compare equal exactly when they are alike: broken ends are not told apart. */
  lemma {:induction false} CompareAlike(p: seq<Node>, q: seq<Node>)
    requires IsPath(p) && IsPath(q)
    ensures Compare(p, q) == 0 <==> Alike(p, q)
  {
    hide NodeCmp;
    var a, b := p[0], q[0];
    if !Valid(a) || !Valid(b) {
      BrokenAlone(p);
      BrokenAlone(q);
    } else {
      NodeCmpOrder(a, b, b);
      if a == b && !IsEnd(a) {
        CompareAlike(p[1..], q[1..]);
        AlikeTail(p, q);
      } else if a == b {
        assert |p| == |q| == 1;
      } else {
        assert Alike(p, q) ==> |p| == 1;
      }
    }
  }

  // ------------------------------------------------------------ walking memory

  /** The first node of a stored path is where the header fields are read. */
  lemma {:induction false} Header(mem: Memory, pos: nat, p: seq<Node>)
    requires Stored(mem, pos, p)
    ensures mem(pos) % 128 == Type(p[0]) && mem(pos + 1) == p[0][1] && Word(mem, pos + 2) == Length(p[0])
    ensures At(mem, pos, p[0])
    ensures |p| > 1 ==> Stored(mem, pos + |p[0]|, p[1..])
    ensures Valid(p[0]) <==> Length(p[0]) >= HEADER
    ensures Valid(p[0]) ==> (IsEnd(p[0]) <==> |p| == 1)
  {
    AtConcat(mem, pos, p[0], Bytes(p[1..]));
    assert mem(pos + 0) == p[0][0];
    assert mem(pos + 1) == p[0][1];
    assert mem(pos + 2) == p[0][2];
    assert mem(pos + 3) == p[0][3];
    if |p| > 1 {
      assert Valid(p[0]) && !IsEnd(p[0]);
    }
  }

  method Memcmp(mem: Memory, src1: nat, src2: nat, len: nat, ghost a: seq<byte>, ghost b: seq<byte>)
    returns (diff: int)
    requires |a| == |b| == len && At(mem, src1, a) && At(mem, src2, b)
    ensures diff == MemCmp(a, b)
  {
    var i := 0;
    while i < len
      invariant i <= len && MemCmp(a, b) == MemCmp(a[i..], b[i..])
    {
      diff := mem(src1 + i) - mem(src2 + i);
      if diff != 0 {
        return;
      }
      i := i + 1;
    }
    return 0;
  }

  /** Whether a path ends at `pos`: at an end node or at one that is not valid. */
  method EndEntire(mem: Memory, pos: nat, ghost p: seq<Node>) returns (end: bool)
    requires Stored(mem, pos, p)
    ensures end <==> |p| == 1
  {
    Header(mem, pos, p);
    end := Word(mem, pos + 2) < HEADER || (mem(pos) % 128 == END_TYPE && mem(pos + 1) == END_ENTIRE);
  }

  /** The node right before the end node, if there is one. */
  method FindLastDevicePath(mem: Memory, dp: nat, ghost path: seq<Node>) returns (last: Option<nat>)
    requires Stored(mem, dp, path)
    ensures last.None? <==> |path| == 1
    ensures last.Some? ==> Stored(mem, last.value, path[|path| - 2..])
  {
    hide At, Bytes, Word;
    var end := EndEntire(mem, dp, path);
    if end {
      return None;
    }
    Header(mem, dp, path);
    var p: nat := dp;
    var next: nat := dp + Word(mem, dp + 2);
    ghost var i := 0;
    end := EndEntire(mem, next, path[1..]);
    while !end
      invariant 0 <= i < |path| - 1 && Stored(mem, p, path[i..]) && Stored(mem, next, path[i + 1..])
      invariant end <==> |path[i + 1..]| == 1
      decreases |path| - i
    {
      Header(mem, next, path[i + 1..]);
      assert path[i + 1..][1..] == path[i + 2..];
      p := next;
      next := next + Word(mem, next + 2);
      i := i + 1;
      end := EndEntire(mem, next, path[i + 1..]);
    }
    return Some(p);
  }

  /** Equal pointers hold equal paths. */
  lemma {:induction false} SamePointer(mem: Memory, pos: nat, p: seq<Node>, q: seq<Node>)
    requires Stored(mem, pos, p) && Stored(mem, pos, q)
    ensures p == q
    decreases |p|
  {
    Header(mem, pos, p);
    Header(mem, pos, q);
    assert p[0] == q[0] by {
      assert |p[0]| == |q[0]|;
      assert forall i :: 0 <= i < |p[0]| ==> p[0][i] == mem(pos + i) == q[0][i];
    }
    if |p| > 1 {
      SamePointer(mem, pos + |p[0]|, p[1..], q[1..]);
    }
    assert p == [p[0]] + p[1..] && q == [q[0]] + q[1..];
  }

  /** One round of the comparison: type in descending order, subtype, length, contents. */
  method CompareNodes(mem: Memory, x: nat, y: nat, ghost a: Node, ghost b: Node) returns (r: int)
    requires Valid(a) && Valid(b) && At(mem, x, a) && At(mem, y, b)
    ensures r == NodeCmp(a, b)
  {
    assert mem(x + 0) == a[0] && mem(y + 0) == b[0] && mem(x + 1) == a[1] && mem(y + 1) == b[1];
    assert mem(x + 2) == a[2] && mem(y + 2) == b[2] && mem(x + 3) == a[3] && mem(y + 3) == b[3];
    var type1: int, type2: int := mem(x) % 128, mem(y) % 128;
    if type1 != type2 {
      return type2 - type1;
    }
    var subtype1: int, subtype2: int := mem(x + 1), mem(y + 1);
    if subtype1 != subtype2 {
      return subtype1 - subtype2;
    }
    var len1: int, len2: int := Word(mem, x + 2), Word(mem, y + 2);
    if len1 != len2 {
      return len1 - len2;
    }
    r := Memcmp(mem, x, y, len1, a, b);
  }

  /** Walks both paths; a missing path compares greater than anything. */
  method CompareDevicePaths(mem: Memory, dp1: Option<nat>, dp2: Option<nat>, ghost p: seq<Node>, ghost q: seq<Node>)
    returns (r: int)
    requires dp1.Some? ==> Stored(mem, dp1.value, p)
    requires dp2.Some? ==> Stored(mem, dp2.value, q)
    ensures r == if dp1.None? || dp2.None? then 1 else Compare(p, q)
  {
    hide NodeCmp, At, Bytes, Word;
    if dp1.None? || dp2.None? {
      return 1;
    }
    if dp1 == dp2 {
      SamePointer(mem, dp1.value, p, q);
      CompareOpposite(p, q);
      return 0;
    }
    var x: nat, y: nat := dp1.value, dp2.value;
    ghost var a, b := p, q;
    while Word(mem, x + 2) >= HEADER && Word(mem, y + 2) >= HEADER
      invariant Stored(mem, x, a) && Stored(mem, y, b) && Compare(p, q) == Compare(a, b)
      decreases |a|
    {
      Header(mem, x, a);
      Header(mem, y, b);
      r := CompareNodes(mem, x, y, a[0], b[0]);
      NodeCmpOrder(a[0], b[0], b[0]);
      if r != 0 {
        return;
      }
      if mem(x) % 128 == END_TYPE && mem(x + 1) == END_ENTIRE {
        break;
      }
      x := x + Word(mem, x + 2);
      y := y + Word(mem, y + 2);
      a, b := a[1..], b[1..];
    }
    Header(mem, x, a);
    Header(mem, y, b);
    if Word(mem, x + 2) >= HEADER && !(Word(mem, y + 2) >= HEADER) {
      return 1;
    } else if !(Word(mem, x + 2) >= HEADER) && Word(mem, y + 2) >= HEADER {
      return -1;
    }
    return 0;
  }
}
