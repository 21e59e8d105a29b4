/**
 Looking up and deleting subkeys in a registry hive (libnt/reg.c). A hive is memory in which
 cells lie at 32-bit offsets: a size, then a key node or an index of subkeys.
 */
module Registry {
  import opened Arith

  const BASE := 0x1000
  const DWORD := 0x1_0000_0000
  const NO_LIST := 0xffff_ffff

  // fields of a key node and of an index, from their starts
  const FLAGS := 2
  const SUBKEY_COUNT := 20
  const SUBKEY_LIST := 28
  const NAME_LENGTH := 72
  const NAME := 76
  const COUNT := 2
  const LIST := 4

  const KEY_NODE := 0x6b6e
  const FAST_LEAF := 0x666c
  const HASH_LEAF := 0x686c
  const COMP_NAME := 0x20

  type Wide = x: int | 0 <= x < 0x1_0000

  datatype Error = FileNotFound | BadArgument
  datatype Result<T> = Ok(value: T) | Err(error: Error)

  /** The negated cell size; a cell in use has a negative size field. */
  function SizeOf(mem: Memory, at: nat): int {
    var raw := Long(mem, at);
    if raw < 0x8000_0000 then 0 - raw as int
    else if raw == 0x8000_0000 then -0x8000_0000
    else DWORD - raw
  }

  /** A cell that holds a key node with its whole name. */
  function NodeError(mem: Memory, sizeAt: nat, nk: nat): Option<Error> {
    var size := SizeOf(mem, sizeAt);
    if size < 0 then Some(FileNotFound)
    else if size < 4 + NAME || Word(mem, nk) != KEY_NODE || size < 4 + NAME + Word(mem, nk + NAME_LENGTH) then
      Some(BadArgument)
    else None
  }

  /** Where a key's node and the index of its subkeys are, and how many entries the index has. */
  datatype Index = Index(nk: nat, lh: nat, count: nat)

  function OpenIndex(mem: Memory, parent: nat): Result<Index> {
    var nk := parent + 4;
    var error := NodeError(mem, parent, nk);
    if error.Some? then Err(error.value)
    else
      var list := Long(mem, nk + SUBKEY_LIST);
      if Long(mem, nk + SUBKEY_COUNT) == 0 || list == NO_LIST then Err(FileNotFound)
      else
        var size, lh := SizeOf(mem, (BASE + list) % DWORD), BASE + list + 4;
        if size < 0 then Err(FileNotFound)
        else if size < 4 + LIST then Err(BadArgument)
        else if Word(mem, lh) != HASH_LEAF && Word(mem, lh) != FAST_LEAF then Err(BadArgument)
        else if size < 4 + LIST + 8 * Word(mem, lh + COUNT) then Err(BadArgument)
        else Ok(Index(nk, lh, Word(mem, lh + COUNT)))
  }

  datatype Entry = Entry(cell: nat, hash: nat)

  function EntryAt(mem: Memory, lh: nat, k: nat): Entry {
    Entry(Long(mem, lh + LIST + 8 * k), Long(mem, lh + LIST + 8 * k + 4))
  }

  function Entries(mem: Memory, lh: nat, count: nat): (s: seq<Entry>)
    ensures |s| == count && forall k :: 0 <= k < count ==> s[k] == EntryAt(mem, lh, k)
  {
    seq(count, k requires 0 <= k < count => EntryAt(mem, lh, k))
  }

  function KeyOf(e: Entry): nat {
    (BASE + e.cell) % DWORD
  }

  // -------------------------------------------------------------------- names

  function Lower(c: Wide): Wide {
    if 0x41 <= c <= 0x5a then c + 0x20 else c
  }

  /** A stored name's character: one signed byte each, or two bytes. */
  function NameChar(mem: Memory, nk: nat, compressed: bool, j: nat): Wide {
    if !compressed then Word(mem, nk + NAME + 2 * j)
    else SignExtended(mem(nk + NAME + j))
  }

  predicate Compressed(mem: Memory, nk: nat) {
    Word(mem, nk + FLAGS) / COMP_NAME % 2 == 1
  }

  function NameLen(mem: Memory, nk: nat): nat {
    if Compressed(mem, nk) then Word(mem, nk + NAME_LENGTH) else Word(mem, nk + NAME_LENGTH) / 2
  }

  /** The names are equal but for the case of ASCII letters. */
  ghost predicate SameName(mem: Memory, nk: nat, name: seq<Wide>) {
    && NameLen(mem, nk) == |name|
    && forall j :: 0 <= j < |name| ==> Lower(NameChar(mem, nk, Compressed(mem, nk), j)) == Lower(name[j])
  }

  /** The entry leads to a valid key node of that name; invalid ones are passed over. */
  ghost predicate Matches(mem: Memory, e: Entry, name: seq<Wide>) {
    && NodeError(mem, KeyOf(e), BASE + e.cell + 4) == None
    && SameName(mem, BASE + e.cell + 4, name)
  }

  /** The key of the first entry that matches. */
  ghost function FirstMatch(mem: Memory, es: seq<Entry>, name: seq<Wide>): Result<nat> {
    if es == [] then Err(FileNotFound)
    else if Matches(mem, es[0], name) then Ok(KeyOf(es[0]))
    else FirstMatch(mem, es[1..], name)
  }

  ghost function FindChild(mem: Memory, parent: nat, name: seq<Wide>): Result<nat> {
    match OpenIndex(mem, parent)
    case Err(e) => Err(e)
    case Ok(ix) => FirstMatch(mem, Entries(mem, ix.lh, ix.count), name)
  }

  const BACKSLASH := 0x5c

  /** The length of a path's first component. */
  function Component(path: seq<Wide>): (n: nat)
    ensures n <= |path| && (n < |path| ==> path[n] == BACKSLASH || path[n] == 0)
    ensures forall i :: 0 <= i < n ==> path[i] != BACKSLASH && path[i] != 0
  {
    if path == [] || path[0] == BACKSLASH || path[0] == 0 then 0 else 1 + Component(path[1..])
  }

  /** Whether a path ends after its first component, but for one backslash. */
  predicate LastComponent(path: seq<Wide>, n: nat)
    requires n <= |path|
  {
    n == |path| || path[n] == 0 || n + 1 == |path| || path[n + 1] == 0
  }

  ghost function FindKey(mem: Memory, parent: nat, path: seq<Wide>): Result<nat>
    decreases |path|
  {
    var n := Component(path);
    match FindChild(mem, parent, path[..n])
    case Err(e) => Err(e)
    case Ok(k) => if LastComponent(path, n) then Ok(k) else FindKey(mem, k, path[n + 1..])
  }

  // ----------------------------------------------------------------- deletion

  function FirstKey(es: seq<Entry>, key: nat): (i: nat)
    ensures i <= |es|
    ensures i < |es| ==> KeyOf(es[i]) == key
    ensures forall k :: 0 <= k < i ==> KeyOf(es[k]) != key
  {
    if es == [] || KeyOf(es[0]) == key then 0 else 1 + FirstKey(es[1..], key)
  }

  /** Byte `a` once the count is one less and the entries from `i` to `j` have moved down. */
  function ShiftedByte(mem: Memory, lh: nat, count: nat, i: nat, j: nat, a: nat): byte
    requires count > 0
  {
    if lh + COUNT <= a < lh + LIST then LE16(count - 1)[a - (lh + COUNT)]
    else if lh + LIST + 8 * i <= a < lh + LIST + 8 * j then mem(a + 8)
    else mem(a)
  }

  ghost predicate Shifted(now: Memory, mem: Memory, lh: nat, count: nat, i: nat, j: nat)
    requires count > 0
  {
    forall a: nat :: now(a) == ShiftedByte(mem, lh, count, i, j, a)
  }

  function Stored(mem: Memory, at: nat, bytes: seq<byte>): Memory {
    (a: nat) => if at <= a < at + |bytes| then bytes[a - at] else mem(a)
  }

  function Moved(mem: Memory, dst: nat, src: nat, n: nat): Memory {
    (a: nat) => if dst <= a < dst + n then mem(src + (a - dst)) else mem(a)
  }

  /** The node's subkey count, read after the index was shortened. */
  function ShiftedCount(mem: Memory, ix: Index, i: nat): (n: nat)
    requires i < ix.count
    ensures n < DWORD
  {
    var at, last := ix.nk + SUBKEY_COUNT, ix.count - 1;
    ShiftedByte(mem, ix.lh, ix.count, i, last, at) as int
    + 256 * ShiftedByte(mem, ix.lh, ix.count, i, last, at + 1) as int
    + 0x1_0000 * ShiftedByte(mem, ix.lh, ix.count, i, last, at + 2) as int
    + 0x100_0000 * ShiftedByte(mem, ix.lh, ix.count, i, last, at + 3) as int
  }

  /** Byte `a` after deleting entry `i`: the index shortened around it and the node's count lowered. */
  function DeletedByte(mem: Memory, ix: Index, i: nat, a: nat): byte
    requires i < ix.count
  {
    var at := ix.nk + SUBKEY_COUNT;
    if at <= a < at + 4 then LE32((ShiftedCount(mem, ix, i) + DWORD - 1) % DWORD)[a - at]
    else ShiftedByte(mem, ix.lh, ix.count, i, ix.count - 1, a)
  }

  ghost predicate Deleted(now: Memory, mem: Memory, ix: Index, i: nat)
    requires i < ix.count
  {
    forall a: nat :: now(a) == DeletedByte(mem, ix, i, a)
  }

  lemma {:induction false} MatchStep(mem: Memory, es: seq<Entry>, i: nat, name: seq<Wide>)
    requires i < |es|
    ensures FirstMatch(mem, es[i..], name)
         == if Matches(mem, es[i], name) then Ok(KeyOf(es[i])) else FirstMatch(mem, es[i + 1..], name)
  {
    hide Matches, KeyOf;
    assert es[i..][1..] == es[i + 1..];
  }

  lemma NoMatch(mem: Memory, es: seq<Entry>, n: nat, name: seq<Wide>)
    requires n == |es|
    ensures FirstMatch(mem, es[n..], name) == Err(FileNotFound)
  {}

  lemma IndexCount(mem: Memory, parent: nat)
    requires OpenIndex(mem, parent).Ok?
    ensures var ix := OpenIndex(mem, parent).value;
      ix.nk == parent + 4 && ix.count == Word(mem, ix.lh + COUNT)
  {}

  lemma {:induction false} EntryMoved(mem: Memory, before: Memory, after: Memory, lh: nat, count: nat, i: nat, j: nat)
    requires i <= j && count > 0 && Shifted(before, mem, lh, count, i, j)
    requires after == Moved(before, lh + LIST + 8 * j, lh + LIST + 8 * (j + 1), 8)
    ensures Shifted(after, mem, lh, count, i, j + 1)
  {
    var dst := lh + LIST + 8 * j;
    forall a: nat ensures after(a) == ShiftedByte(mem, lh, count, i, j + 1, a) {
      if dst <= a < dst + 8 {
        assert after(a) == before(a + 8) == mem(a + 8);
      } else {
        assert after(a) == before(a);
      }
    }
  }

  lemma {:induction false} CountLowered(mem: Memory, mid: Memory, now: Memory, ix: Index, i: nat)
    requires i < ix.count && Shifted(mid, mem, ix.lh, ix.count, i, ix.count - 1)
    requires var at := ix.nk + SUBKEY_COUNT; now == Stored(mid, at, LE32((Long(mid, at) + DWORD - 1) % DWORD))
    ensures Deleted(now, mem, ix, i)
  {
    hide ShiftedByte;
    var at := ix.nk + SUBKEY_COUNT;
    assert Long(mid, at) == ShiftedCount(mem, ix, i);
  }

  // -------------------------------------------------------------------- code

  class Hive {
    var data: Memory

    constructor (mem: Memory)
      ensures data == mem
    {
      data := mem;
    }

    method GetSize(at: nat) returns (size: int)
      ensures size == SizeOf(data, at)
    {
      var raw: int := Long(data, at);
      if raw >= 0x8000_0000 {
        raw := raw - DWORD;
      }
      size := if raw == -0x8000_0000 then raw else -raw;
    }

    /** Checks the cell of a key node. */
    method CheckNode(sizeAt: nat, nk: nat) returns (error: Option<Error>)
      ensures error == NodeError(data, sizeAt, nk)
    {
      var size := GetSize(sizeAt);
      if size < 0 {
        return Some(FileNotFound);
      }
      if size < 4 + NAME {
        return Some(BadArgument);
      }
      if Word(data, nk) != KEY_NODE {
        return Some(BadArgument);
      }
      if size < 4 + NAME + Word(data, nk + NAME_LENGTH) {
        return Some(BadArgument);
      }
      return None;
    }

    /** From the parent's node to its index of subkeys. */
    method GoToIndex(parent: nat) returns (r: Result<Index>)
      ensures r == OpenIndex(data, parent)
    {
      var nk := parent + 4;
      var error := CheckNode(parent, nk);
      if error.Some? {
        return Err(error.value);
      }
      var list := Long(data, nk + SUBKEY_LIST);
      if Long(data, nk + SUBKEY_COUNT) == 0 || list == NO_LIST {
        return Err(FileNotFound);
      }
      var size := GetSize((BASE + list) % DWORD);
      if size < 0 {
        return Err(FileNotFound);
      }
      if size < 4 + LIST {
        return Err(BadArgument);
      }
      var lh := BASE + list + 4;
      if Word(data, lh) != HASH_LEAF && Word(data, lh) != FAST_LEAF {
        return Err(BadArgument);
      }
      if size < 4 + LIST + 8 * Word(data, lh + COUNT) {
        return Err(BadArgument);
      }
      return Ok(Index(nk, lh, Word(data, lh + COUNT)));
    }

    /** Compares a node's name with a path component, ignoring the case of ASCII letters. */
    method CompareName(nk: nat, name: seq<Wide>) returns (same: bool)
      ensures same <==> SameName(data, nk, name)
    {
      var compressed, len := Compressed(data, nk), NameLen(data, nk);
      if len != |name| {
        return false;
      }
      var j := 0;
      while j < len
        invariant j <= len
        invariant forall k :: 0 <= k < j ==> Lower(NameChar(data, nk, compressed, k)) == Lower(name[k])
      {
        var c1, c2 := NameChar(data, nk, compressed, j), name[j];
        if Lower(c1) != Lower(c2) {
          break;
        }
        j := j + 1;
      }
      same := j == len;
    }

    method FindChildKey(parent: nat, name: seq<Wide>) returns (key: Result<nat>)
      ensures key == FindChild(data, parent, name)
    {
      hide SameName, NodeError, KeyOf, OpenIndex, FirstMatch, EntryAt, Entries;
      var index := GoToIndex(parent);
      if index.Err? {
        return Err(index.error);
      }
      var lh, count := index.value.lh, index.value.count;
      ghost var es := Entries(data, lh, count);
      for i := 0 to count
        invariant FirstMatch(data, es, name) == FirstMatch(data, es[i..], name)
      {
        MatchStep(data, es, i, name);
        var e := EntryAt(data, lh, i);
        var error := CheckNode(KeyOf(e), BASE + e.cell + 4);
        if error.Some? {
          continue;
        }
        var same := CompareName(BASE + e.cell + 4, name);
        if same {
          return Ok(KeyOf(e));
        }
      }
      NoMatch(data, es, count, name);
      return Err(FileNotFound);
    }

    /** Follows a path of names down from a key. */
    method RegFindKey(parent: nat, path: seq<Wide>) returns (key: Result<nat>)
      ensures key == FindKey(data, parent, path)
    {
      hide FindChild;
      var at, rest := parent, path;
      while true
        invariant FindKey(data, parent, path) == FindKey(data, at, rest)
        decreases |rest|
      {
        var n := 0;
        while n < |rest| && rest[n] != BACKSLASH && rest[n] != 0
          invariant 0 <= n <= Component(rest)
        {
          n := n + 1;
        }
        key := FindChildKey(at, rest[..n]);
        if key.Err? {
          return;
        }
        if LastComponent(rest, n) {
          return;
        }
        at, rest := key.value, rest[n + 1..];
      }
    }

    /** Lowers the index's count and moves the entries after `i` down, one by one. */
    method Shorten(ix: Index, i: nat)
      requires i < ix.count == Word(data, ix.lh + COUNT)
      modifies this
      ensures Shifted(data, old(data), ix.lh, ix.count, i, ix.count - 1)
    {
      var lh, last := ix.lh, ix.count - 1;
      data := Stored(data, lh + COUNT, LE16(last));
      ghost var mem := old(data);
      for j := i to last
        invariant Shifted(data, mem, lh, ix.count, i, j)
      {
        ghost var before := data;
        data := Moved(data, lh + LIST + 8 * j, lh + LIST + 8 * (j + 1), 8);
        EntryMoved(mem, before, data, lh, ix.count, i, j);
      }
    }

    /** Removes the index entry of a key; the entries after it move down. */
    method RegDeleteKey(parent: nat, key: nat) returns (error: Option<Error>)
      modifies this
      ensures match OpenIndex(old(data), parent)
        case Err(e) => error == Some(e) && data == old(data)
        case Ok(ix) =>
          var i := FirstKey(Entries(old(data), ix.lh, ix.count), key);
          if i < ix.count then error == None && Deleted(data, old(data), ix, i)
          else error == Some(FileNotFound) && data == old(data)
    {
      hide NodeError, KeyOf, OpenIndex, FirstKey, EntryAt, Entries, Deleted, Shifted, Long, Word, LE32, Stored;
      var index := GoToIndex(parent);
      if index.Err? {
        return Some(index.error);
      }
      var ix := index.value;
      IndexCount(data, parent);
      var lh, count := ix.lh, ix.count;
      ghost var mem, es := data, Entries(data, lh, count);
      for i := 0 to count
        invariant data == mem && i <= FirstKey(es, key)
      {
        if KeyOf(EntryAt(data, lh, i)) != key {
          continue;
        }
        Shorten(ix, i);
        var at := ix.nk + SUBKEY_COUNT;
        ghost var mid := data;
        data := Stored(data, at, LE32((Long(data, at) + DWORD - 1) % DWORD));
        CountLowered(mem, mid, data, ix, i);
        return None;
      }
      return Some(FileNotFound);
    }
  }
}
