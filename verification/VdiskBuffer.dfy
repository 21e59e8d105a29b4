/** Stores into the sector buffer that the builders of libnt/vdisk.c fill in place. */
module VdiskBuffer {
  import opened Arith
  import opened VdiskLayout
  import opened VdiskSectors

  /** The buffer holds `bytes` at `at` and is otherwise as it was, `orig`. */
  ghost predicate Wrote(data: array<byte>, at: nat, bytes: seq<byte>, orig: seq<byte>)
    reads data
  {
    && at + |bytes| <= data.Length == |orig|
    && data[..] == orig[..at] + bytes + orig[at + |bytes|..]
  }

  lemma WroteNothing(data: array<byte>, at: nat, n: nat)
    requires at + n <= data.Length
    ensures Wrote(data, at, data[at..at + n], data[..])
  {}

  /** Two adjacent writes are one. */
  lemma {:induction false} WroteAppend(data: array<byte>, at: nat, a: seq<byte>, b: seq<byte>, orig: seq<byte>,
                                       mid: seq<byte>)
    requires |orig| == |mid| && at + |a| + |b| <= |orig|
    requires mid == orig[..at] + a + orig[at + |a|..]
    requires Wrote(data, at + |a|, b, mid)
    ensures Wrote(data, at, a + b, orig)
  {
    assert mid[..at + |a|] == orig[..at] + a;
    assert mid[at + |a| + |b|..] == orig[at + |a| + |b|..];
    assert orig[..at] + a + b == orig[..at] + (a + b);
  }

  /** Assigning one byte of the middle part. */
  lemma {:induction false} MiddleByte(pre: seq<byte>, s: seq<byte>, post: seq<byte>, k: nat, v: byte)
    requires k < |s|
    ensures (pre + s + post)[|pre| + k := v] == pre + s[k := v] + post
  {}

  lemma {:induction false} PatchNext(s: seq<byte>, o: nat, field: seq<byte>, i: nat)
    requires o + |field| <= |s| && i < |field|
    ensures Patch(s, o, field[..i + 1]) == Patch(s, o, field[..i])[o + i := field[i]]
  {
    assert field[..i + 1] == field[..i] + [field[i]];
  }

  lemma {:induction false} PatchEnds(s: seq<byte>, o: nat, field: seq<byte>)
    requires o + |field| <= |s|
    ensures Patch(s, o, field[..0]) == s && field[..|field|] == field
  {}

  /** Stores a field at offset `o` of the bytes being built. */
  method Store(data: array<byte>, at: nat, o: nat, field: seq<byte>, ghost s: seq<byte>, ghost orig: seq<byte>)
    requires Wrote(data, at, s, orig) && o + |field| <= |s|
    modifies data
    ensures Wrote(data, at, Patch(s, o, field), orig)
  {
    hide Patch;
    var i := 0;
    ghost var pre, post := orig[..at], orig[at + |s|..];
    PatchEnds(s, o, field);
    while i < |field|
      invariant i <= |field|
      invariant data[..] == pre + Patch(s, o, field[..i]) + post
    {
      PatchNext(s, o, field, i);
      MiddleByte(pre, Patch(s, o, field[..i]), post, o + i, field[i]);
      ghost var before := data[..];
      data[at + o + i] := field[i];
      assert data[..] == before[at + o + i := field[i]];
      i := i + 1;
    }
  }

  lemma {:induction false} FillNext(orig: seq<byte>, at: nat, i: nat, v: byte)
    requires at + i < |orig|
    ensures (orig[..at] + Repeat(i, v) + orig[at + i..])[at + i := v]
         == orig[..at] + Repeat(i + 1, v) + orig[at + (i + 1)..]
  {}

  /** Fills `n` bytes with `v`. */
  method Memset(data: array<byte>, at: nat, n: nat, v: byte, ghost orig: seq<byte>)
    requires data[..] == orig && at + n <= data.Length
    modifies data
    ensures Wrote(data, at, Repeat(n, v), orig)
  {
    var i := 0;
    while i < n
      invariant i <= n
      invariant data[..] == orig[..at] + Repeat(i, v) + orig[at + i..]
    {
      FillNext(orig, at, i, v);
      ghost var before := data[..];
      data[at + i] := v;
      assert data[..] == before[at + i := v];
      i := i + 1;
    }
  }

  // ------------------------------------------------------ directory entries

  lemma {:induction false} FlattenPatch(dir: Entries, s: nat, o: nat, field: seq<byte>)
    requires s < ENTRIES && o + |field| <= ENTRY_SIZE
    ensures Patch(Flatten(dir), ENTRY_SIZE * s + o, field) == Flatten(dir[s := Patch(dir[s], o, field)])
  {
    var a, b := Patch(Flatten(dir), ENTRY_SIZE * s + o, field), Flatten(dir[s := Patch(dir[s], o, field)]);
    forall i | 0 <= i < SECTOR_SIZE ensures a[i] == b[i] {
      if ENTRY_SIZE * s + o <= i < ENTRY_SIZE * s + o + |field| {
        assert a[i] == a[ENTRY_SIZE * s + o..ENTRY_SIZE * s + o + |field|][i - ENTRY_SIZE * s - o];
        assert Patch(dir[s], o, field)[o..o + |field|][i - ENTRY_SIZE * s - o]
            == Patch(dir[s], o, field)[i - ENTRY_SIZE * s];
      }
    }
  }

  /** Stores a field of directory entry `s`. */
  method StoreEntry(data: array<byte>, at: nat, s: nat, o: nat, field: seq<byte>,
                    ghost dir: Entries, ghost orig: seq<byte>)
    requires s < ENTRIES && o + |field| <= ENTRY_SIZE
    requires Wrote(data, at, Flatten(dir), orig)
    modifies data
    ensures Wrote(data, at, Flatten(dir[s := Patch(dir[s], o, field)]), orig)
  {
    hide Wrote, Flatten, Patch;
    FlattenPatch(dir, s, o, field);
    Store(data, at, ENTRY_SIZE * s + o, field, Flatten(dir), orig);
  }

  /** Reads a byte of directory entry `s`. */
  method LoadEntry(data: array<byte>, at: nat, s: nat, o: nat, ghost dir: Entries, ghost orig: seq<byte>)
    returns (v: byte)
    requires s < ENTRIES && o < ENTRY_SIZE
    requires Wrote(data, at, Flatten(dir), orig)
    ensures v == dir[s][o]
  {
    assert data[..][at + ENTRY_SIZE * s + o] == Flatten(dir)[ENTRY_SIZE * s + o];
    v := data[at + ENTRY_SIZE * s + o];
  }

  /** Marks every entry as present and deleted. */
  method EmptyDirectory(data: array<byte>, at: nat, ghost orig: seq<byte>)
    requires data[..] == orig && at + SECTOR_SIZE <= data.Length
    modifies data
    ensures Wrote(data, at, Flatten(EmptyDir()), orig)
  {
    Memset(data, at, SECTOR_SIZE, 0, orig);
    ghost var dir: Entries := seq(ENTRIES, _ => Repeat(ENTRY_SIZE, 0));
    assert Repeat(SECTOR_SIZE, 0) == Flatten(dir);
    for i := 0 to ENTRIES
      invariant forall s :: 0 <= s < ENTRIES ==> dir[s] == if s < i then DeletedEntry() else Repeat(ENTRY_SIZE, 0)
      invariant Wrote(data, at, Flatten(dir), orig)
    {
      StoreEntry(data, at, i, 0, [DELETED], dir, orig);
      assert Patch(Repeat(ENTRY_SIZE, 0), 0, [DELETED]) == DeletedEntry();
      dir := dir[i := Patch(dir[i], 0, [DELETED])];
    }
    assert dir == EmptyDir();
  }
}
