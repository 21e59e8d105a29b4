/**
 What deleting a subkey leaves behind in a hive whose cells do not overlap: every later lookup
 sees the shortened list and nothing else changes.
 */
module RegistryDelete {
  import opened Arith
  import opened Registry

  /** The bytes of a cell: at least its size field. */
  function Extent(mem: Memory, c: nat): nat {
    if SizeOf(mem, c) < 4 then 4 else SizeOf(mem, c)
  }

  ghost predicate Apart(mem: Memory, c: nat, d: nat) {
    c + Extent(mem, c) <= d || d + Extent(mem, d) <= c
  }

  ghost predicate Off(mem: Memory, ix: Index, c: nat) {
    ix.nk >= 4 && ix.lh >= 4 && Apart(mem, c, ix.nk - 4) && Apart(mem, c, ix.lh - 4)
  }

  /** An entry's cell is where its offset says, apart from the parent's node and its index. */
  ghost predicate Clear(mem: Memory, ix: Index, e: Entry) {
    BASE + e.cell < DWORD && Off(mem, ix, BASE + e.cell)
  }

  /** The parent's node, its index and the cells the index lists do not overlap, and the counts agree. */
  ghost predicate Sound(mem: Memory, parent: nat) {
    && OpenIndex(mem, parent).Ok?
    && var ix := OpenIndex(mem, parent).value;
    && ix.lh - 4 < DWORD
    && Apart(mem, parent, ix.lh - 4)
    && Long(mem, ix.nk + SUBKEY_COUNT) == ix.count
    && forall k :: 0 <= k < ix.count ==> Clear(mem, ix, EntryAt(mem, ix.lh, k))
  }

  ghost predicate SameBytes(now: Memory, mem: Memory, from: nat, to: nat) {
    forall a: nat :: from <= a < to ==> now(a) == mem(a)
  }

  lemma SameWord(now: Memory, mem: Memory, from: nat, to: nat, at: nat)
    requires SameBytes(now, mem, from, to) && from <= at
    ensures at + 2 <= to ==> Word(now, at) == Word(mem, at)
    ensures at + 4 <= to ==> Long(now, at) == Long(mem, at) && SizeOf(now, at) == SizeOf(mem, at)
  {}

  lemma SameByte(now: Memory, mem: Memory, from: nat, to: nat, at: nat)
    requires SameBytes(now, mem, from, to) && from <= at < to
    ensures now(at) == mem(at)
  {}

  lemma {:induction false} CharKept(now: Memory, mem: Memory, c: nat, end: nat, j: nat)
    requires SameBytes(now, mem, c, end)
    requires j < NameLen(mem, c + 4) && c + 4 + NAME + Word(mem, c + 4 + NAME_LENGTH) <= end
    ensures NameChar(now, c + 4, Compressed(mem, c + 4), j) == NameChar(mem, c + 4, Compressed(mem, c + 4), j)
  {
    hide Word, SameBytes;
    if Compressed(mem, c + 4) {
      SameByte(now, mem, c, end, c + 4 + NAME + j);
    } else {
      SameWord(now, mem, c, end, c + 4 + NAME + 2 * j);
    }
  }

  lemma {:induction false} NameKept(now: Memory, mem: Memory, c: nat, name: seq<Wide>)
    requires SameBytes(now, mem, c, c + Extent(mem, c)) && NodeError(mem, c, c + 4) == None
    ensures SameName(now, c + 4, name) <==> SameName(mem, c + 4, name)
  {
    hide Lower, Word, SameBytes, NameChar;
    var nk, end := c + 4, c + Extent(mem, c);
    SameWord(now, mem, c, end, nk + FLAGS);
    SameWord(now, mem, c, end, nk + NAME_LENGTH);
    forall j | 0 <= j < NameLen(mem, nk)
      ensures NameChar(now, nk, Compressed(mem, nk), j) == NameChar(mem, nk, Compressed(mem, nk), j)
    {
      CharKept(now, mem, c, end, j);
    }
  }

  /** A cell that keeps its bytes is the same node with the same name. */
  lemma {:induction false} SameNode(now: Memory, mem: Memory, c: nat, name: seq<Wide>)
    requires SameBytes(now, mem, c, c + Extent(mem, c))
    ensures NodeError(now, c, c + 4) == NodeError(mem, c, c + 4)
    ensures NodeError(mem, c, c + 4) == None ==> (SameName(now, c + 4, name) <==> SameName(mem, c + 4, name))
  {
    var end := c + Extent(mem, c);
    SameWord(now, mem, c, end, c);
    if SizeOf(mem, c) >= 4 + NAME {
      SameWord(now, mem, c, end, c + 4);
      SameWord(now, mem, c, end, c + 4 + FLAGS);
      SameWord(now, mem, c, end, c + 4 + NAME_LENGTH);
      if NodeError(mem, c, c + 4) == None {
        NameKept(now, mem, c, name);
      }
    }
  }

  // ---------------------------------------------------------------- deletion

  /** Where a deletion leaves memory alone. */
  lemma {:induction false} Untouched(now: Memory, mem: Memory, ix: Index, i: nat, from: nat, to: nat)
    requires i < ix.count && Deleted(now, mem, ix, i)
    requires to <= ix.lh + COUNT || ix.lh + LIST + 8 * ix.count <= from
    requires to <= ix.nk + SUBKEY_COUNT || ix.nk + SUBKEY_COUNT + 4 <= from
    ensures SameBytes(now, mem, from, to)
  {
    forall a: nat | from <= a < to ensures now(a) == mem(a) {
      assert now(a) == DeletedByte(mem, ix, i, a);
    }
  }

  /** The checks made on the way to the index give both cells their room. */
  lemma {:induction false} IndexRoom(mem: Memory, parent: nat)
    requires Sound(mem, parent)
    ensures var ix := OpenIndex(mem, parent).value;
      && ix.nk == parent + 4 && ix.lh - 4 == BASE + Long(mem, ix.nk + SUBKEY_LIST)
      && ix.count == Word(mem, ix.lh + COUNT)
      && SizeOf(mem, parent) >= 4 + NAME && Extent(mem, parent) == SizeOf(mem, parent)
      && SizeOf(mem, ix.lh - 4) >= 4 + LIST + 8 * ix.count && Extent(mem, ix.lh - 4) == SizeOf(mem, ix.lh - 4)
  {
    hide Word, Long, SizeOf, Clear, EntryAt;
  }

  /** Any cell apart from the parent's node and its index keeps its bytes. */
  lemma {:induction false} OtherCells(now: Memory, mem: Memory, parent: nat, i: nat, c: nat)
    requires Sound(mem, parent) && i < OpenIndex(mem, parent).value.count
    requires Deleted(now, mem, OpenIndex(mem, parent).value, i)
    requires Apart(mem, c, parent) && Apart(mem, c, OpenIndex(mem, parent).value.lh - 4)
    ensures SameBytes(now, mem, c, c + Extent(mem, c))
  {
    var ix := OpenIndex(mem, parent).value;
    IndexRoom(mem, parent);
    Untouched(now, mem, ix, i, c, c + Extent(mem, c));
  }

  /** The entries left: all but the deleted one, in order. */
  function Without(es: seq<Entry>, i: nat): (r: seq<Entry>)
    requires i < |es|
    ensures |r| == |es| - 1
  {
    es[..i] + es[i + 1..]
  }

  lemma {:induction false} ByteLeft(now: Memory, mem: Memory, ix: Index, i: nat, k: nat, a: nat)
    requires i < ix.count && Deleted(now, mem, ix, i) && k < ix.count - 1
    requires ix.nk + SUBKEY_COUNT + 4 <= ix.lh || ix.lh + LIST + 8 * ix.count <= ix.nk + SUBKEY_COUNT
    requires ix.lh + LIST + 8 * k <= a < ix.lh + LIST + 8 * (k + 1)
    ensures now(a) == mem(if k < i then a else a + 8)
  {
    assert now(a) == DeletedByte(mem, ix, i, a);
  }

  lemma {:induction false} LongLeft(now: Memory, mem: Memory, ix: Index, i: nat, k: nat, half: nat)
    requires i < ix.count && Deleted(now, mem, ix, i) && k < ix.count - 1 && half <= 4
    requires ix.nk + SUBKEY_COUNT + 4 <= ix.lh || ix.lh + LIST + 8 * ix.count <= ix.nk + SUBKEY_COUNT
    ensures var from := if k < i then k else k + 1;
      Long(now, ix.lh + LIST + 8 * k + half) == Long(mem, ix.lh + LIST + 8 * from + half)
  {
    hide Deleted, DeletedByte;
    var at := ix.lh + LIST + 8 * k + half;
    ByteLeft(now, mem, ix, i, k, at);
    ByteLeft(now, mem, ix, i, k, at + 1);
    ByteLeft(now, mem, ix, i, k, at + 2);
    ByteLeft(now, mem, ix, i, k, at + 3);
  }

  lemma {:induction false} EntryLeft(now: Memory, mem: Memory, ix: Index, i: nat, k: nat)
    requires i < ix.count && Deleted(now, mem, ix, i) && k < ix.count - 1
    requires ix.nk + SUBKEY_COUNT + 4 <= ix.lh || ix.lh + LIST + 8 * ix.count <= ix.nk + SUBKEY_COUNT
    ensures EntryAt(now, ix.lh, k) == EntryAt(mem, ix.lh, if k < i then k else k + 1)
  {
    hide DeletedByte, ShiftedByte;
    var from := if k < i then k else k + 1;
    LongLeft(now, mem, ix, i, k, 0);
    LongLeft(now, mem, ix, i, k, 4);
  }

  lemma {:induction false} EntriesLeft(now: Memory, mem: Memory, parent: nat, i: nat)
    requires Sound(mem, parent) && i < OpenIndex(mem, parent).value.count
    requires Deleted(now, mem, OpenIndex(mem, parent).value, i)
    ensures var ix := OpenIndex(mem, parent).value;
      Entries(now, ix.lh, ix.count - 1) == Without(Entries(mem, ix.lh, ix.count), i)
  {
    hide EntryAt, Deleted, Word, Long, SizeOf, Clear;
    IndexRoom(mem, parent);
    var ix := OpenIndex(mem, parent).value;
    forall k | 0 <= k < ix.count - 1
      ensures EntryAt(now, ix.lh, k) == EntryAt(mem, ix.lh, if k < i then k else k + 1)
    {
      EntryLeft(now, mem, ix, i, k);
    }
  }

  lemma {:induction false} CountWritten(now: Memory, mem: Memory, ix: Index, i: nat)
    requires i < ix.count < 0x1_0000 && Deleted(now, mem, ix, i)
    requires ix.nk + SUBKEY_COUNT + 4 <= ix.lh || ix.lh + LIST <= ix.nk + SUBKEY_COUNT
    ensures Word(now, ix.lh + COUNT) == ix.count - 1
  {
    var a := ix.lh + COUNT;
    assert now(a) == DeletedByte(mem, ix, i, a) == LE16(ix.count - 1)[0];
    assert now(a + 1) == DeletedByte(mem, ix, i, a + 1) == LE16(ix.count - 1)[1];
  }

  lemma CountBefore(mem: Memory, ix: Index, i: nat)
    requires i < ix.count
    requires ix.nk + SUBKEY_COUNT + 4 <= ix.lh || ix.lh + LIST + 8 * ix.count <= ix.nk + SUBKEY_COUNT
    ensures ShiftedCount(mem, ix, i) == Long(mem, ix.nk + SUBKEY_COUNT)
  {}

  lemma {:induction false} LongWritten(now: Memory, mem: Memory, ix: Index, i: nat)
    requires i < ix.count && Deleted(now, mem, ix, i)
    ensures Long(now, ix.nk + SUBKEY_COUNT) == (ShiftedCount(mem, ix, i) + DWORD - 1) % DWORD
  {
    hide ShiftedCount;
    var at, v := ix.nk + SUBKEY_COUNT, (ShiftedCount(mem, ix, i) + DWORD - 1) % DWORD;
    assert now(at) == DeletedByte(mem, ix, i, at) == LE32(v)[0];
    assert now(at + 1) == DeletedByte(mem, ix, i, at + 1) == LE32(v)[1];
    assert now(at + 2) == DeletedByte(mem, ix, i, at + 2) == LE32(v)[2];
    assert now(at + 3) == DeletedByte(mem, ix, i, at + 3) == LE32(v)[3];
    ReadsBack(LE32(v), 0, v);
  }

  /** Both counts are one less. */
  lemma {:induction false} CountsLeft(now: Memory, mem: Memory, parent: nat, i: nat)
    requires Sound(mem, parent) && i < OpenIndex(mem, parent).value.count
    requires Deleted(now, mem, OpenIndex(mem, parent).value, i)
    ensures var ix := OpenIndex(mem, parent).value;
      && Word(now, ix.lh + COUNT) == ix.count - 1
      && Long(now, ix.nk + SUBKEY_COUNT) == ix.count - 1
  {
    hide DeletedByte, ShiftedCount, ShiftedByte, Word, Long, SizeOf, Extent, Clear, EntryAt, Deleted;
    IndexRoom(mem, parent);
    var ix := OpenIndex(mem, parent).value;
    CountWritten(now, mem, ix, i);
    CountBefore(mem, ix, i);
    LongWritten(now, mem, ix, i);
  }

  /** The parent's index is still found, with one entry less, unless that was the last one. */
  lemma {:induction false} IndexLeft(now: Memory, mem: Memory, parent: nat, i: nat)
    requires Sound(mem, parent) && i < OpenIndex(mem, parent).value.count
    requires Deleted(now, mem, OpenIndex(mem, parent).value, i)
    ensures var ix := OpenIndex(mem, parent).value;
      OpenIndex(now, parent) == if ix.count == 1 then Err(FileNotFound) else Ok(ix.(count := ix.count - 1))
  {
    hide DeletedByte, Deleted, EntryAt, Clear, Word, Long, SizeOf, Extent, SameBytes;
    var ix := OpenIndex(mem, parent).value;
    IndexRoom(mem, parent);
    CountsLeft(now, mem, parent, i);
    Untouched(now, mem, ix, i, parent, parent + 4 + SUBKEY_COUNT);
    Untouched(now, mem, ix, i, parent + 4 + SUBKEY_LIST, parent + 4 + NAME);
    Untouched(now, mem, ix, i, ix.lh - 4, ix.lh + COUNT);
    SameWord(now, mem, parent, parent + 4 + SUBKEY_COUNT, parent);
    SameWord(now, mem, parent, parent + 4 + SUBKEY_COUNT, parent + 4);
    SameWord(now, mem, parent + 4 + SUBKEY_LIST, parent + 4 + NAME, parent + 4 + SUBKEY_LIST);
    SameWord(now, mem, parent + 4 + SUBKEY_LIST, parent + 4 + NAME, parent + 4 + NAME_LENGTH);
    SameWord(now, mem, ix.lh - 4, ix.lh + COUNT, ix.lh - 4);
    SameWord(now, mem, ix.lh - 4, ix.lh + COUNT, ix.lh);
  }

  ghost predicate CellKept(now: Memory, mem: Memory, e: Entry) {
    BASE + e.cell < DWORD && SameBytes(now, mem, BASE + e.cell, BASE + e.cell + Extent(mem, BASE + e.cell))
  }

  lemma {:induction false} SameMatch(now: Memory, mem: Memory, e: Entry, name: seq<Wide>)
    requires CellKept(now, mem, e)
    ensures Matches(now, e, name) <==> Matches(mem, e, name)
  {
    hide SameName, NodeError, SameBytes, Extent;
    SameNode(now, mem, BASE + e.cell, name);
  }

  /** Listed keys keep their nodes and names, so the same entries match. */
  lemma {:induction false} SameMatches(now: Memory, mem: Memory, es: seq<Entry>, name: seq<Wide>)
    requires forall k :: 0 <= k < |es| ==> CellKept(now, mem, es[k])
    ensures FirstMatch(now, es, name) == FirstMatch(mem, es, name)
  {
    hide Matches, CellKept, KeyOf;
    if es == [] {
    } else {
      SameMatch(now, mem, es[0], name);
      SameMatches(now, mem, es[1..], name);
    }
  }

  lemma {:induction false} ListedKept(now: Memory, mem: Memory, parent: nat, i: nat)
    requires Sound(mem, parent) && i < OpenIndex(mem, parent).value.count
    requires Deleted(now, mem, OpenIndex(mem, parent).value, i)
    ensures var ix := OpenIndex(mem, parent).value;
      forall k :: 0 <= k < ix.count ==> CellKept(now, mem, EntryAt(mem, ix.lh, k))
  {
    hide Deleted, EntryAt, OpenIndex, Apart, Extent, SameBytes, Word, Long, SizeOf;
    var ix := OpenIndex(mem, parent).value;
    IndexRoom(mem, parent);
    forall k | 0 <= k < ix.count ensures CellKept(now, mem, EntryAt(mem, ix.lh, k)) {
      assert Clear(mem, ix, EntryAt(mem, ix.lh, k));
      OtherCells(now, mem, parent, i, BASE + EntryAt(mem, ix.lh, k).cell);
    }
  }

  /** A later lookup finds the first match in the list without the deleted entry. */
  lemma {:induction false} FindAfterDelete(now: Memory, mem: Memory, parent: nat, i: nat, name: seq<Wide>)
    requires Sound(mem, parent) && i < OpenIndex(mem, parent).value.count
    requires Deleted(now, mem, OpenIndex(mem, parent).value, i)
    ensures var ix := OpenIndex(mem, parent).value;
      FindChild(now, parent, name) == FirstMatch(mem, Without(Entries(mem, ix.lh, ix.count), i), name)
  {
    hide Deleted, EntryAt, Matches, Clear, CellKept, OpenIndex, FirstMatch, Apart;
    var ix := OpenIndex(mem, parent).value;
    var es := Entries(mem, ix.lh, ix.count);
    var left := Without(es, i);
    IndexLeft(now, mem, parent, i);
    EntriesLeft(now, mem, parent, i);
    ListedKept(now, mem, parent, i);
    forall k | 0 <= k < |left| ensures CellKept(now, mem, left[k]) {
      assert left[k] == es[if k < i then k else k + 1];
    }
    SameMatches(now, mem, left, name);
    NoMatch(mem, left, |left|, name);
  }

  // ------------------------------------------------------------- whole paths

  /** The key of a name under key `k` when entry `i` of the parent's index is passed over. */
  ghost function ChildWithout(mem: Memory, parent: nat, i: nat, k: nat, name: seq<Wide>): Result<nat>
    requires OpenIndex(mem, parent).Ok? && i < OpenIndex(mem, parent).value.count
  {
    var ix := OpenIndex(mem, parent).value;
    if k == parent then FirstMatch(mem, Without(Entries(mem, ix.lh, ix.count), i), name) else FindChild(mem, k, name)
  }

  /** The key a path leads to from key `k`, with that entry passed over. */
  ghost function FindKeyWithout(mem: Memory, parent: nat, i: nat, k: nat, path: seq<Wide>): Result<nat>
    requires OpenIndex(mem, parent).Ok? && i < OpenIndex(mem, parent).value.count
    decreases |path|
  {
    var n := Component(path);
    match ChildWithout(mem, parent, i, k, path[..n])
    case Err(e) => Err(e)
    case Ok(c) => if LastComponent(path, n) then Ok(c) else FindKeyWithout(mem, parent, i, c, path[n + 1..])
  }

  /** Whether a node in use announces a list of subkeys. */
  predicate Lists(mem: Memory, k: nat) {
    && NodeError(mem, k, k + 4) == None
    && Long(mem, k + 4 + SUBKEY_COUNT) != 0
    && Long(mem, k + 4 + SUBKEY_LIST) != NO_LIST
  }

  ghost predicate EntriesClear(mem: Memory, ix: Index, own: Index) {
    forall j :: 0 <= j < own.count ==> Clear(mem, ix, EntryAt(mem, own.lh, j))
  }

  /** The cells a lookup under key `k` reads are apart from the parent's node and its index. */
  ghost predicate KeyClear(mem: Memory, ix: Index, k: nat) {
    && Off(mem, ix, k)
    && (Lists(mem, k) ==> Clear(mem, ix, Entry(Long(mem, k + 4 + SUBKEY_LIST), 0)))
    && (OpenIndex(mem, k).Ok? ==> EntriesClear(mem, ix, OpenIndex(mem, k).value))
  }

  /** So are all cells read on the way from key `k` along `path`, but at the parent itself. */
  ghost predicate WalkClear(mem: Memory, parent: nat, i: nat, k: nat, path: seq<Wide>)
    requires OpenIndex(mem, parent).Ok? && i < OpenIndex(mem, parent).value.count
    decreases |path|
  {
    var n := Component(path);
    && (k == parent || KeyClear(mem, OpenIndex(mem, parent).value, k))
    && match ChildWithout(mem, parent, i, k, path[..n])
       case Err(_) => true
       case Ok(c) => LastComponent(path, n) || WalkClear(mem, parent, i, c, path[n + 1..])
  }

  lemma {:induction false} SameNodeFields(now: Memory, mem: Memory, k: nat)
    requires SameBytes(now, mem, k, k + Extent(mem, k)) && NodeError(mem, k, k + 4) == None
    ensures Long(now, k + 4 + SUBKEY_COUNT) == Long(mem, k + 4 + SUBKEY_COUNT)
    ensures Long(now, k + 4 + SUBKEY_LIST) == Long(mem, k + 4 + SUBKEY_LIST)
  {
    hide SameBytes, Word, Long, SizeOf;
    SameWord(now, mem, k, k + Extent(mem, k), k + 4 + SUBKEY_COUNT);
    SameWord(now, mem, k, k + Extent(mem, k), k + 4 + SUBKEY_LIST);
  }

  lemma {:induction false} SameIndexFields(now: Memory, mem: Memory, c: nat)
    requires SameBytes(now, mem, c, c + Extent(mem, c))
    ensures SizeOf(now, c) == SizeOf(mem, c)
    ensures SizeOf(mem, c) >= 4 + LIST ==>
      Word(now, c + 4) == Word(mem, c + 4) && Word(now, c + 4 + COUNT) == Word(mem, c + 4 + COUNT)
    ensures var n := Word(mem, c + 4 + COUNT);
      SizeOf(mem, c) >= 4 + LIST + 8 * n ==> Entries(now, c + 4, n) == Entries(mem, c + 4, n)
  {
    hide SameBytes, Word, Long, SizeOf;
    var end := c + Extent(mem, c);
    SameWord(now, mem, c, end, c);
    SameWord(now, mem, c, end, c + 4);
    SameWord(now, mem, c, end, c + 4 + COUNT);
    var n := Word(mem, c + 4 + COUNT);
    if SizeOf(mem, c) >= 4 + LIST + 8 * n {
      var es := Entries(mem, c + 4, n);
      forall j | 0 <= j < n ensures EntryAt(now, c + 4, j) == es[j] {
        SameWord(now, mem, c, end, c + 4 + LIST + 8 * j);
        SameWord(now, mem, c, end, c + 4 + LIST + 8 * j + 4);
      }
    }
  }

  /** A key whose node and index keep their bytes has the same index. */
  lemma {:induction false} SameIndex(now: Memory, mem: Memory, k: nat)
    requires SameBytes(now, mem, k, k + Extent(mem, k))
    requires Lists(mem, k) ==> CellKept(now, mem, Entry(Long(mem, k + 4 + SUBKEY_LIST), 0))
    ensures OpenIndex(now, k) == OpenIndex(mem, k)
    ensures OpenIndex(mem, k).Ok? ==>
      var own := OpenIndex(mem, k).value; Entries(now, own.lh, own.count) == Entries(mem, own.lh, own.count)
  {
    hide Word, Long, SizeOf, SameBytes, EntryAt, NodeError, Extent;
    SameNode(now, mem, k, []);
    if NodeError(mem, k, k + 4) == None {
      SameNodeFields(now, mem, k);
      if Lists(mem, k) {
        SameIndexFields(now, mem, BASE + Long(mem, k + 4 + SUBKEY_LIST));
      }
    }
  }

  lemma {:induction false} OffKept(now: Memory, mem: Memory, parent: nat, i: nat, c: nat)
    requires Sound(mem, parent) && i < OpenIndex(mem, parent).value.count
    requires Deleted(now, mem, OpenIndex(mem, parent).value, i)
    requires Off(mem, OpenIndex(mem, parent).value, c)
    ensures SameBytes(now, mem, c, c + Extent(mem, c))
  {
    hide Deleted, EntryAt, OpenIndex, Apart, Extent, SameBytes, Word, Long, SizeOf, Clear;
    IndexRoom(mem, parent);
    OtherCells(now, mem, parent, i, c);
  }

  /** A lookup that reads none of the cells changed finds what it found before. */
  lemma {:induction false} SameChild(now: Memory, mem: Memory, parent: nat, i: nat, k: nat, name: seq<Wide>)
    requires Sound(mem, parent) && i < OpenIndex(mem, parent).value.count
    requires Deleted(now, mem, OpenIndex(mem, parent).value, i)
    requires KeyClear(mem, OpenIndex(mem, parent).value, k)
    ensures FindChild(now, k, name) == FindChild(mem, k, name)
  {
    hide Deleted, EntryAt, OpenIndex, FirstMatch, Apart, Extent, SameBytes, Lists, Long;
    OffKept(now, mem, parent, i, k);
    if Lists(mem, k) {
      OffKept(now, mem, parent, i, BASE + Long(mem, k + 4 + SUBKEY_LIST));
    }
    SameIndex(now, mem, k);
    if OpenIndex(mem, k).Ok? {
      var own := OpenIndex(mem, k).value;
      var es := Entries(mem, own.lh, own.count);
      forall j | 0 <= j < |es| ensures CellKept(now, mem, es[j]) {
        assert Clear(mem, OpenIndex(mem, parent).value, EntryAt(mem, own.lh, j));
        OffKept(now, mem, parent, i, BASE + es[j].cell);
      }
      SameMatches(now, mem, es, name);
    }
  }

  /**
   A later lookup of any path from any key, through the parent or not, gives what it gave
   with the deleted entry passed over.
   */
  lemma {:induction false} FindKeyAfterDelete(now: Memory, mem: Memory, parent: nat, i: nat, k: nat, path: seq<Wide>)
    requires Sound(mem, parent) && i < OpenIndex(mem, parent).value.count
    requires Deleted(now, mem, OpenIndex(mem, parent).value, i)
    requires WalkClear(mem, parent, i, k, path)
    ensures FindKey(now, k, path) == FindKeyWithout(mem, parent, i, k, path)
    decreases |path|
  {
    hide Deleted, OpenIndex, FirstMatch, KeyClear, Clear, Apart, Long, FindChild, Entries, Without;
    var n := Component(path);
    if k == parent {
      FindAfterDelete(now, mem, parent, i, path[..n]);
    } else {
      SameChild(now, mem, parent, i, k, path[..n]);
    }
    var child := ChildWithout(mem, parent, i, k, path[..n]);
    if child.Ok? && !LastComponent(path, n) {
      FindKeyAfterDelete(now, mem, parent, i, child.value, path[n + 1..]);
    }
  }

  lemma {:induction false} SizesLeft(now: Memory, mem: Memory, parent: nat, i: nat)
    requires Sound(mem, parent) && i < OpenIndex(mem, parent).value.count
    requires Deleted(now, mem, OpenIndex(mem, parent).value, i)
    ensures Extent(now, parent) == Extent(mem, parent)
    ensures var c := OpenIndex(mem, parent).value.lh - 4; Extent(now, c) == Extent(mem, c)
  {
    hide Deleted, EntryAt, DeletedByte, Clear;
    var ix := OpenIndex(mem, parent).value;
    IndexRoom(mem, parent);
    Untouched(now, mem, ix, i, parent, parent + 4);
    Untouched(now, mem, ix, i, ix.lh - 4, ix.lh);
    SameWord(now, mem, parent, parent + 4, parent);
    SameWord(now, mem, ix.lh - 4, ix.lh, ix.lh - 4);
  }

  /**
   While entries are left the hive is as sound as before, so that further keys can be
   deleted; after the last one the parent has no index.
   */
  lemma {:induction false} StaysSound(now: Memory, mem: Memory, parent: nat, i: nat)
    requires Sound(mem, parent) && i < OpenIndex(mem, parent).value.count
    requires Deleted(now, mem, OpenIndex(mem, parent).value, i)
    ensures OpenIndex(mem, parent).value.count > 1 ==> Sound(now, parent)
    ensures OpenIndex(mem, parent).value.count == 1 ==> OpenIndex(now, parent) == Err(FileNotFound)
  {
    hide Deleted, EntryAt, OpenIndex, Word, Long, SizeOf, SameBytes;
    var ix := OpenIndex(mem, parent).value;
    IndexRoom(mem, parent);
    IndexLeft(now, mem, parent, i);
    CountsLeft(now, mem, parent, i);
    EntriesLeft(now, mem, parent, i);
    ListedKept(now, mem, parent, i);
    SizesLeft(now, mem, parent, i);
    var es, left := Entries(mem, ix.lh, ix.count), Entries(now, ix.lh, ix.count - 1);
    forall k | 0 <= k < ix.count - 1 ensures Clear(now, ix, EntryAt(now, ix.lh, k)) {
      var e := left[k];
      assert e == EntryAt(now, ix.lh, k) == es[if k < i then k else k + 1];
      assert Clear(mem, ix, e) && CellKept(now, mem, e);
      SameWord(now, mem, BASE + e.cell, BASE + e.cell + Extent(mem, BASE + e.cell), BASE + e.cell);
    }
  }

  /** A small hive: a key node at 0, its index with one entry at 0x1000, the entry's cell at 0x1100. */
  function SmallHive(): Memory {
    (a: nat) =>
      if a == 0 then 0xb0
      else if 1 <= a < 4 || 0x1001 <= a < 0x1004 then 0xff
      else if a == 4 then 0x6e
      else if a == 5 then 0x6b
      else if a == 4 + SUBKEY_COUNT || a == 0x1006 || a == 0x1009 then 1
      else if a == 0x1000 then 0xf0
      else if a == 0x1004 then 0x6c
      else if a == 0x1005 then 0x66
      else 0
  }

  lemma SmallNode()
    ensures var mem := SmallHive();
      && SizeOf(mem, 0) == 4 + NAME && Word(mem, 4) == KEY_NODE && Word(mem, 4 + NAME_LENGTH) == 0
      && Long(mem, 4 + SUBKEY_COUNT) == 1 && Long(mem, 4 + SUBKEY_LIST) == 0
  {}

  lemma SmallIndex()
    ensures var mem := SmallHive();
      && SizeOf(mem, 0x1000) == 16 && Word(mem, 0x1004) == FAST_LEAF && Word(mem, 0x1006) == 1
      && EntryAt(mem, 0x1004, 0).cell == 0x100 && SizeOf(mem, 0x1100) == 0
  {}

  lemma {:induction false} SmallHiveIsSound()
    ensures Sound(SmallHive(), 0) && OpenIndex(SmallHive(), 0) == Ok(Index(4, 0x1004, 1))
  {
    hide SmallHive, SizeOf, Word, Long, EntryAt;
    SmallNode();
    SmallIndex();
  }
}
