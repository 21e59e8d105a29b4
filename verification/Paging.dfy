/**
 2MB page directory entries and the relocation of data above 4GB through a copy window,
 from kern/paging.c. Physical memory and the page directory are the machine's state.
 */
module Paging {
  import opened Arith

  const PAGE_SIZE_2MB := 0x20_0000
  const COPY_WINDOW := 0x20_0000
  const ADDR_4GB := 0x1_0000_0000
  const ENTRIES := 2048
  const FLAGS := 0x87       // present, writable, user, 2MB

  /** A region of the system memory map. */
  datatype Region = Region(start: nat, len: nat)

  /** The physical address a page directory gives a virtual one. */
  function Translate(pd: seq<nat>, vaddr: nat): nat
    requires |pd| == ENTRIES && vaddr < ADDR_4GB
  {
    pd[vaddr / PAGE_SIZE_2MB] / PAGE_SIZE_2MB * PAGE_SIZE_2MB + vaddr % PAGE_SIZE_2MB
  }

  /** The byte seen at a virtual address. */
  function View(phys: Memory, pd: seq<nat>, vaddr: nat): byte
    requires |pd| == ENTRIES && vaddr < ADDR_4GB
  {
    phys(Translate(pd, vaddr))
  }

  function Entry(paddr: nat): nat {
    paddr + FLAGS
  }

  function Update(phys: Memory, addr: nat, v: byte): Memory {
    a => if a == addr then v else phys(a)
  }

  // -------------------------------------------------------------- placement

  /** The placement tried in a region: as high as `data`'s offset within its page allows. */
  function Placement(r: Region, data: nat, len: nat): int
    requires r.start + r.len >= ADDR_4GB >= data + len
  {
    (r.start + r.len - (data + len)) / PAGE_SIZE_2MB * PAGE_SIZE_2MB + (data + len) - len
  }

  /** The region is used: it reaches above 4GB and the placement lies inside it, above 4GB. */
  predicate Usable(r: Region, data: nat, len: nat)
    requires data + len <= ADDR_4GB
  {
    r.start + r.len >= ADDR_4GB && Placement(r, data, len) >= r.start && Placement(r, data, len) >= ADDR_4GB
  }

  /** `p` is a placement of the data inside the region, with the data's offset within a 2MB page. */
  predicate Compatible(r: Region, data: nat, len: nat, p: int) {
    r.start <= p && p + len <= r.start + r.len && p % PAGE_SIZE_2MB == data % PAGE_SIZE_2MB
  }

  /** The placement is congruent, ends inside the region, and none higher does. */
  lemma {:induction false} PlacementIsHighest(r: Region, data: nat, len: nat)
    requires data + len <= ADDR_4GB <= r.start + r.len
    ensures Placement(r, data, len) % PAGE_SIZE_2MB == data % PAGE_SIZE_2MB
    ensures Placement(r, data, len) + len <= r.start + r.len
    ensures forall p :: Compatible(r, data, len, p) ==> p <= Placement(r, data, len)
  {
    var q := (r.start + r.len - (data + len)) / PAGE_SIZE_2MB;
    assert Placement(r, data, len) == q * PAGE_SIZE_2MB + data;
    forall p | Compatible(r, data, len, p) ensures p <= Placement(r, data, len) {
      var d := (p - data) / PAGE_SIZE_2MB;
      assert p - data == d * PAGE_SIZE_2MB;
    }
  }

  /** A region is used exactly when some compatible placement above 4GB exists in it. */
  lemma {:induction false} UsableIffPlaceable(r: Region, data: nat, len: nat)
    requires data + len <= ADDR_4GB
    ensures Usable(r, data, len) <==> exists p: int :: Compatible(r, data, len, p) && p >= ADDR_4GB
  {
    if Usable(r, data, len) {
      PlacementIsHighest(r, data, len);
      assert Compatible(r, data, len, Placement(r, data, len));
    }
    if p: int :| Compatible(r, data, len, p) && p >= ADDR_4GB {
      PlacementIsHighest(r, data, len);
    }
  }

  // ------------------------------------------------------------ specification

  ghost predicate Apart(d: nat, s: nat, n: nat) {
    d + n <= s || s + n <= d
  }

  function CopiedByte(before: Memory, d: nat, s: nat, n: nat, a: nat): byte {
    if d <= a < d + n then before(s + (a - d)) else before(a)
  }

  /** `after` is `before` with `n` bytes copied from `s` to `d`. */
  ghost predicate Copied(before: Memory, after: Memory, d: nat, s: nat, n: nat) {
    forall a: nat :: after(a) == CopiedByte(before, d, s, n, a)
  }

  lemma NothingCopied(mem: Memory, d: nat, s: nat)
    ensures Copied(mem, mem, d, s, 0)
  {}

  lemma {:induction false} ByteCopied(before: Memory, mid: Memory, d: nat, s: nat, i: nat, n: nat)
    requires Copied(before, mid, d, s, i) && i < n && (Apart(d, s, n) || d == s)
    ensures Copied(before, Update(mid, d + i, mid(s + i)), d, s, i + 1)
  {
    assert mid(s + i) == before(s + i);
  }

  predicate InWindow(vaddr: nat) {
    vaddr / PAGE_SIZE_2MB == COPY_WINDOW / PAGE_SIZE_2MB
  }

  /** The data is in the 32-bit address space and, outside the window page, still below 4GB. */
  ghost predicate SourceLow(pd: seq<nat>, data: nat, len: nat)
    requires |pd| == ENTRIES
  {
    && data + len <= ADDR_4GB
    && forall a: nat :: data <= a < data + len && !InWindow(a) ==> Translate(pd, a) < ADDR_4GB
  }

  ghost predicate Destination(data: nat, start: nat) {
    start >= ADDR_4GB && start % PAGE_SIZE_2MB == data % PAGE_SIZE_2MB
  }

  lemma DestinationHigh(data: nat, start: nat)
    requires Destination(data, start)
    ensures start >= ADDR_4GB
  {}

  /** Some byte of the data is in virtual page `p`. */
  predicate Touched(p: nat, data: nat, len: nat) {
    len > 0 && data / PAGE_SIZE_2MB <= p <= (data + len - 1) / PAGE_SIZE_2MB
  }

  /** The entry of page `p` once the data's pages have moved; the window is identity-mapped. */
  function RelocatedEntry(old_: nat, p: nat, data: nat, len: nat, start: nat): nat
    requires start >= data
  {
    if p == COPY_WINDOW / PAGE_SIZE_2MB then Entry(COPY_WINDOW)
    else if Touched(p, data, len) then Entry(start - data + p * PAGE_SIZE_2MB)
    else old_
  }

  function RelocatedPd(pd: seq<nat>, data: nat, len: nat, start: nat): (r: seq<nat>)
    requires |pd| == ENTRIES && start >= data
    ensures |r| == ENTRIES
  {
    seq(ENTRIES, p requires 0 <= p < ENTRIES => RelocatedEntry(pd[p], p, data, len, start))
  }

  /** Every entry but the window's is as after relocation of the data. */
  ghost predicate Mapped(now: seq<nat>, pd: seq<nat>, data: nat, len: nat, start: nat)
    requires start >= data
  {
    && |now| == |pd| == ENTRIES
    && forall p: nat :: p < ENTRIES && p != COPY_WINDOW / PAGE_SIZE_2MB ==>
      now[p] == RelocatedEntry(pd[p], p, data, len, start)
  }

  /** The physical byte at `b` once the data has moved. */
  function RelocatedByte(phys: Memory, pd: seq<nat>, data: nat, len: nat, start: nat, b: nat): byte
    requires |pd| == ENTRIES && data + len <= ADDR_4GB
  {
    if start <= b < start + len && !InWindow(data + (b - start)) then View(phys, pd, data + (b - start)) else phys(b)
  }

  ghost predicate SamePhys(now: Memory, phys: Memory, pd: seq<nat>, data: nat, len: nat, start: nat)
    requires |pd| == ENTRIES && data + len <= ADDR_4GB
  {
    forall b: nat :: now(b) == RelocatedByte(phys, pd, data, len, start, b)
  }

  /** The first region the data can be placed in, or the number of regions. */
  function Chosen(regions: seq<Region>, data: nat, len: nat): (i: nat)
    requires data + len <= ADDR_4GB
    ensures i <= |regions|
    ensures i < |regions| ==> Usable(regions[i], data, len)
    ensures forall j :: 0 <= j < i ==> !Usable(regions[j], data, len)
  {
    if regions == [] || Usable(regions[0], data, len) then 0
    else 1 + Chosen(regions[1..], data, len)
  }

  /** Where the next fragment is read from: the window's own page is read from the destination. */
  ghost predicate Fragment(now: seq<nat>, pd: seq<nat>, data: nat, done: nat, n: nat, start: nat) {
    && |now| == |pd| == ENTRIES
    && data + done < ADDR_4GB
    && if InWindow(data + done) then Translate(now, data + done) == start + done
       else Translate(now, data + done) == Translate(pd, data + done) <= ADDR_4GB - n
  }

  // ------------------------------------------------------------------- proof

  lemma {:induction false} SamePage(pd: seq<nat>, vaddr: nat, i: nat)
    requires |pd| == ENTRIES && vaddr + i < ADDR_4GB && vaddr % PAGE_SIZE_2MB + i < PAGE_SIZE_2MB
    ensures (vaddr + i) / PAGE_SIZE_2MB == vaddr / PAGE_SIZE_2MB
    ensures Translate(pd, vaddr + i) == Translate(pd, vaddr) + i
  {
    assert (vaddr + i) / PAGE_SIZE_2MB == vaddr / PAGE_SIZE_2MB;
  }

  lemma NothingMoved(phys: Memory, pd: seq<nat>, data: nat, start: nat)
    requires |pd| == ENTRIES && data <= ADDR_4GB <= start
    ensures Mapped(pd, pd, data, 0, start) && SamePhys(phys, phys, pd, data, 0, start)
  {}

  lemma {:induction false} AllMoved(now: seq<nat>, pd: seq<nat>, data: nat, len: nat, start: nat)
    requires start >= data && |now| == |pd| == ENTRIES && now[1] == Entry(COPY_WINDOW)
    requires Mapped(now, pd, data, len, start)
    ensures now == RelocatedPd(pd, data, len, start)
  {
  }

  lemma WindowFree(now: seq<nat>, pd: seq<nat>, data: nat, done: nat, start: nat, entry: nat)
    requires start >= data && Mapped(now, pd, data, done, start)
    ensures Mapped(now[COPY_WINDOW / PAGE_SIZE_2MB := entry], pd, data, done, start)
  {}

  lemma {:induction false} Congruent(data: nat, start: nat, done: nat)
    requires Destination(data, start) && start >= data
    ensures (start + done) % PAGE_SIZE_2MB == (data + done) % PAGE_SIZE_2MB
  {
    var p, q := start / PAGE_SIZE_2MB, data / PAGE_SIZE_2MB;
    assert start - data == (p - q) * PAGE_SIZE_2MB;
    var c := (data + done) / PAGE_SIZE_2MB;
    DivModUnique(start + done, PAGE_SIZE_2MB, p - q + c, (data + done) % PAGE_SIZE_2MB);
  }

  /** The window shows the fragment's destination. */
  lemma {:induction false} WindowShows(now: seq<nat>, data: nat, done: nat, start: nat)
    requires |now| == ENTRIES && data <= ADDR_4GB && Destination(data, start)
    requires now[1] == Entry((start + done) / PAGE_SIZE_2MB * PAGE_SIZE_2MB)
    ensures Translate(now, COPY_WINDOW + (data + done) % PAGE_SIZE_2MB) == start + done
  {
    var offset, cur := (data + done) % PAGE_SIZE_2MB, (data + done) / PAGE_SIZE_2MB;
    var page := (start + done) / PAGE_SIZE_2MB;
    Congruent(data, start, done);
    DivModUnique(page * PAGE_SIZE_2MB + FLAGS, PAGE_SIZE_2MB, page, FLAGS);
    DivModUnique(COPY_WINDOW + offset, PAGE_SIZE_2MB, 1, offset);
  }

  /** A page not yet reached is still mapped as before. */
  lemma {:induction false} SourceStays(now: seq<nat>, pd: seq<nat>, data: nat, len: nat, done: nat, n: nat, start: nat)
    requires |pd| == ENTRIES && SourceLow(pd, data, len) && Destination(data, start)
    requires done + n <= len && n > 0 && (done == 0 || (data + done) % PAGE_SIZE_2MB == 0)
    requires (data + done) % PAGE_SIZE_2MB + n <= PAGE_SIZE_2MB
    requires Mapped(now, pd, data, done, start) && !InWindow(data + done)
    ensures Translate(now, data + done) == Translate(pd, data + done) && Translate(pd, data + done) + n <= ADDR_4GB
  {
    var cur := data + done;
    assert !Touched(cur / PAGE_SIZE_2MB, data, done);
    SamePage(pd, cur, n - 1);
    assert !InWindow(cur + (n - 1));
  }

  /** The fragment is read from where it was, or from its own destination when it is the window's page. */
  lemma {:induction false} FragmentMapped(now: seq<nat>, pd: seq<nat>, data: nat, len: nat, done: nat, n: nat,
                                          start: nat)
    requires |pd| == ENTRIES && SourceLow(pd, data, len) && Destination(data, start)
    requires done + n <= len && n > 0 && (done == 0 || (data + done) % PAGE_SIZE_2MB == 0)
    requires (data + done) % PAGE_SIZE_2MB + n <= PAGE_SIZE_2MB
    requires Mapped(now, pd, data, done, start)
    requires now[1] == Entry((start + done) / PAGE_SIZE_2MB * PAGE_SIZE_2MB)
    ensures Fragment(now, pd, data, done, n, start)
    ensures var w := COPY_WINDOW + (data + done) % PAGE_SIZE_2MB;
      && Translate(now, w) == start + done
      && (Apart(start + done, Translate(now, data + done), n) || w == data + done)
  {
    hide Translate, RelocatedEntry;
    WindowShows(now, data, done, start);
    if InWindow(data + done) {
      assert data + done == COPY_WINDOW + (data + done) % PAGE_SIZE_2MB;
    } else {
      SourceStays(now, pd, data, len, done, n, start);
    }
  }

  /** Copying a fragment extends the relocated bytes; through the window itself it changes nothing. */
  lemma {:induction false} FragmentCopied(phys: Memory, before: Memory, after: Memory, pd: seq<nat>, now: seq<nat>,
                       data: nat, len: nat, done: nat, n: nat, start: nat)
    requires |pd| == |now| == ENTRIES && data + len <= ADDR_4GB && Destination(data, start)
    requires done + n <= len && n > 0 && (data + done) % PAGE_SIZE_2MB + n <= PAGE_SIZE_2MB
    requires SamePhys(before, phys, pd, data, done, start)
    requires Copied(before, after, start + done, Translate(now, data + done), n)
    requires Fragment(now, pd, data, done, n, start)
    ensures SamePhys(after, phys, pd, data, done + n, start)
  {
    hide Translate;
    var cur := data + done;
    forall b: nat ensures after(b) == RelocatedByte(phys, pd, data, done + n, start, b) {
      if start + done <= b < start + done + n {
        var i := b - (start + done);
        assert data + (b - start) == cur + i;
        SamePage(pd, cur, i);
        assert InWindow(cur + i) <==> InWindow(cur);
        assert after(b) == before(Translate(now, cur) + i);
        if InWindow(cur) {
          assert before(b) == RelocatedByte(phys, pd, data, done, start, b) == phys(b);
        } else {
          var s := Translate(pd, cur) + i;
          assert before(s) == RelocatedByte(phys, pd, data, done, start, s) == phys(s);
        }
      } else {
        assert after(b) == before(b);
        assert before(b) == RelocatedByte(phys, pd, data, done, start, b);
      }
    }
  }

  lemma {:induction false} PageBase(data: nat, start: nat, done: nat)
    requires Destination(data, start) && start >= data
    ensures (start + done) / PAGE_SIZE_2MB * PAGE_SIZE_2MB
         == start - data + (data + done) / PAGE_SIZE_2MB * PAGE_SIZE_2MB
  {
    Congruent(data, start, done);
  }

  /** Mapping the fragment's page extends the relocated entries. */
  lemma {:induction false} PageMoved(now: seq<nat>, before: seq<nat>, pd: seq<nat>, data: nat, done: nat,
                                     n: nat, start: nat)
    requires Destination(data, start) && data + done + n <= ADDR_4GB && n > 0
    requires done == 0 || (data + done) % PAGE_SIZE_2MB == 0
    requires (data + done) % PAGE_SIZE_2MB + n <= PAGE_SIZE_2MB
    requires Mapped(before, pd, data, done, start)
    requires now == before[(data + done) / PAGE_SIZE_2MB := Entry((start + done) / PAGE_SIZE_2MB * PAGE_SIZE_2MB)]
    ensures Mapped(now, pd, data, done + n, start)
  {
    var cur := data + done;
    var page := cur / PAGE_SIZE_2MB;
    assert (cur + n - 1) / PAGE_SIZE_2MB == page;
    hide RelocatedEntry, Entry;
    PageBase(data, start, done);
    forall p: nat | p < ENTRIES && p != 1 ensures now[p] == RelocatedEntry(pd[p], p, data, done + n, start) {
      assert Touched(p, data, done + n) <==> Touched(p, data, done) || p == page;
    }
  }

  // ---------------------------------------------------------------- machine

  class Machine {
    var phys: Memory
    const pd: array<nat>
    var paging: bool

    constructor (memory: Memory)
      ensures pd.Length == ENTRIES && fresh(pd) && phys == memory && !paging
    {
      phys := memory;
      pd := new nat[ENTRIES](_ => 0);
      paging := false;
    }

    /** Maps the 2MB page of a virtual address. */
    method MapPage(vaddr: nat, paddr: nat)
      requires pd.Length == ENTRIES && vaddr < ADDR_4GB
      requires vaddr % PAGE_SIZE_2MB == 0 && paddr % PAGE_SIZE_2MB == 0
      modifies pd
      ensures pd[..] == old(pd[..])[vaddr / PAGE_SIZE_2MB := Entry(paddr)]
    {
      pd[vaddr / PAGE_SIZE_2MB] := Entry(paddr);
    }

    /** Identity-maps the whole 32-bit address space. */
    method InitPaging(supported: bool)
      requires pd.Length == ENTRIES
      modifies this, pd
      ensures phys == old(phys)
      ensures !supported ==> paging == old(paging) && pd[..] == old(pd[..])
      ensures supported ==> paging && forall a :: 0 <= a < ADDR_4GB ==> Translate(pd[..], a) == a
    {
      if !supported {
        return;
      }
      var addr := 0;
      while true
        invariant addr % PAGE_SIZE_2MB == 0 && 0 <= addr < ADDR_4GB && phys == old(phys)
        invariant forall i :: 0 <= i < addr / PAGE_SIZE_2MB ==> pd[i] == Entry(i * PAGE_SIZE_2MB)
        decreases ADDR_4GB - addr
      {
        MapPage(addr, addr);
        addr := (addr + PAGE_SIZE_2MB) % ADDR_4GB;
        if addr == 0 {
          break;
        }
      }
      paging := true;
    }

    /** Copies within one 2MB page on each side, both addresses translated. */
    method Memcpy(dst: nat, src: nat, n: nat)
      requires pd.Length == ENTRIES
      requires n > 0 && dst + n <= ADDR_4GB && src + n <= ADDR_4GB
      requires dst % PAGE_SIZE_2MB + n <= PAGE_SIZE_2MB && src % PAGE_SIZE_2MB + n <= PAGE_SIZE_2MB
      requires Apart(Translate(pd[..], dst), Translate(pd[..], src), n) || dst == src
      modifies this`phys
      ensures Copied(old(phys), phys, Translate(pd[..], dst), Translate(pd[..], src), n)
    {
      hide Translate, Copied, Update, Apart;
      var i := 0;
      NothingCopied(phys, Translate(pd[..], dst), Translate(pd[..], src));
      while i < n
        invariant i <= n
        invariant Copied(old(phys), phys, Translate(pd[..], dst), Translate(pd[..], src), i)
      {
        SamePage(pd[..], dst, i);
        SamePage(pd[..], src, i);
        ByteCopied(old(phys), phys, Translate(pd[..], dst), Translate(pd[..], src), i, n);
        phys := Update(phys, Translate(pd[..], dst + i), View(phys, pd[..], src + i));
        i := i + 1;
      }
    }

    /** One page's share of the data: map the window, copy through it, map the page to its copy. */
    method MoveFragment(data: nat, dest: nat, n: nat,
                        ghost len: nat, ghost done: nat, ghost start: nat, ghost phys0: Memory, ghost pd0: seq<nat>)
      requires pd.Length == |pd0| == ENTRIES && done <= data && done + n <= len && n > 0 && dest == start + done
      requires SourceLow(pd0, data - done, len) && Destination(data - done, start)
      requires done == 0 || data % PAGE_SIZE_2MB == 0
      requires data % PAGE_SIZE_2MB + n <= PAGE_SIZE_2MB
      requires Mapped(pd[..], pd0, data - done, done, start) && SamePhys(phys, phys0, pd0, data - done, done, start)
      modifies this`phys, pd
      ensures Mapped(pd[..], pd0, data - done, done + n, start)
      ensures SamePhys(phys, phys0, pd0, data - done, done + n, start)
    {
      hide RelocatedEntry, RelocatedByte, Touched, Copied, View, Fragment, SamePhys, Mapped, Destination;
      hide Translate, Apart;
      DestinationHigh(data - done, start);
      var offset := data % PAGE_SIZE_2MB;
      var page := dest / PAGE_SIZE_2MB * PAGE_SIZE_2MB;
      WindowFree(pd[..], pd0, data - done, done, start, Entry(page));
      MapPage(COPY_WINDOW, page);
      FragmentMapped(pd[..], pd0, data - done, len, done, n, start);
      ghost var before, mapped := phys, pd[..];
      Memcpy(COPY_WINDOW + offset, data, n);
      FragmentCopied(phys0, before, phys, pd0, mapped, data - done, len, done, n, start);
      MapPage(data - offset, page);
      PageMoved(pd[..], mapped, pd0, data - done, done, n, start);
    }

    /** Copies page by page through the window, moving each page's mapping to its copy. */
    method CopyHigh(data: nat, len: nat, start: nat)
      requires pd.Length == ENTRIES && data + len <= ADDR_4GB
      requires SourceLow(pd[..], data, len) && Destination(data, start)
      modifies this`phys, pd
      ensures pd[..] == RelocatedPd(old(pd[..]), data, len, start)
      ensures SamePhys(phys, old(phys), old(pd[..]), data, len, start)
    {
      hide RelocatedEntry, RelocatedByte, Touched, SourceLow, SamePhys, Mapped, RelocatedPd, Translate;
      var done := 0;
      NothingMoved(phys, pd[..], data, start);
      ghost var phys0, pd0 := phys, pd[..];
      while done < len
        invariant done <= len
        invariant done == len || done == 0 || (data + done) % PAGE_SIZE_2MB == 0
        invariant Mapped(pd[..], pd0, data, done, start)
        invariant SamePhys(phys, phys0, pd0, data, done, start)
      {
        var offset := (data + done) % PAGE_SIZE_2MB;
        var fragLen := PAGE_SIZE_2MB - offset;
        if fragLen > len - done {
          fragLen := len - done;
        }
        MoveFragment(data + done, start + done, fragLen, len, done, start, phys0, pd0);
        done := done + fragLen;
      }
      WindowFree(pd[..], pd0, data, len, start, Entry(COPY_WINDOW));
      MapPage(COPY_WINDOW, COPY_WINDOW);
      AllMoved(pd[..], pd0, data, len, start);
    }

    /** Moves data above 4GB, into the first region with room for it, keeping its virtual address. */
    method RelocateMemoryHigh(data: nat, len: nat, regions: seq<Region>) returns (start: nat)
      requires pd.Length == ENTRIES && SourceLow(pd[..], data, len)
      modifies this`phys, pd
      ensures paging && Chosen(regions, data, len) < |regions| ==>
        && start == Placement(regions[Chosen(regions, data, len)], data, len)
        && pd[..] == RelocatedPd(old(pd[..]), data, len, start)
        && SamePhys(phys, old(phys), old(pd[..]), data, len, start)
      ensures !(paging && Chosen(regions, data, len) < |regions|) ==>
        start == data && pd[..] == old(pd[..]) && phys == old(phys)
    {
      if !paging {
        return data;
      }
      var i := 0;
      while i < |regions|
        invariant i <= |regions| && phys == old(phys) && pd[..] == old(pd[..])
        invariant i <= Chosen(regions, data, len)
      {
        var e := regions[i];
        i := i + 1;
        var top := e.start + e.len;
        if top < ADDR_4GB {
          continue;
        }
        var place := (top - (data + len)) / PAGE_SIZE_2MB * PAGE_SIZE_2MB + (data + len);
        place := place - len;
        if place < e.start {
          continue;
        }
        if place < ADDR_4GB {
          continue;
        }
        PlacementIsHighest(e, data, len);
        CopyHigh(data, len, place);
        return place;
      }
      return data;
    }
  }

  // ---------------------------------------------------------------- theorems

  /** The start chosen is the highest room in the first region that has any above 4GB. */
  lemma {:induction false} LandsInFirstRoom(regions: seq<Region>, data: nat, len: nat)
    requires data + len <= ADDR_4GB && Chosen(regions, data, len) < |regions|
    ensures var r := regions[Chosen(regions, data, len)];
      var start := Placement(r, data, len);
      && Destination(data, start) && Compatible(r, data, len, start)
      && (forall p :: Compatible(r, data, len, p) ==> p <= start)
    ensures forall j, p: int :: 0 <= j < Chosen(regions, data, len) && Compatible(regions[j], data, len, p) ==>
      p < ADDR_4GB
  {
    PlacementIsHighest(regions[Chosen(regions, data, len)], data, len);
    forall j, p: int | 0 <= j < Chosen(regions, data, len) && Compatible(regions[j], data, len, p)
      ensures p < ADDR_4GB
    {
      UsableIffPlaceable(regions[j], data, len);
    }
  }

  lemma {:induction false} PageImage(data: nat, start: nat, a: nat)
    requires Destination(data, start) && data <= a < ADDR_4GB
    ensures Entry(start - data + a / PAGE_SIZE_2MB * PAGE_SIZE_2MB) / PAGE_SIZE_2MB * PAGE_SIZE_2MB
         == start - data + a / PAGE_SIZE_2MB * PAGE_SIZE_2MB
  {
    var q := (start - data) / PAGE_SIZE_2MB;
    assert start - data == q * PAGE_SIZE_2MB;
    assert Entry(start - data + a / PAGE_SIZE_2MB * PAGE_SIZE_2MB) == (q + a / PAGE_SIZE_2MB) * PAGE_SIZE_2MB + FLAGS;
  }

  /** Every byte of the data reads the same at its virtual address, now mapped above 4GB. */
  lemma {:induction false} ViewKept(phys: Memory, now: Memory, pd: seq<nat>, data: nat, len: nat, start: nat, a: nat)
    requires |pd| == ENTRIES && SourceLow(pd, data, len) && Destination(data, start)
    requires SamePhys(now, phys, pd, data, len, start)
    requires data <= a < data + len
    requires InWindow(a) ==> Translate(pd, COPY_WINDOW) == COPY_WINDOW
    ensures View(now, RelocatedPd(pd, data, len, start), a) == View(phys, pd, a)
    ensures !InWindow(a) ==> Translate(RelocatedPd(pd, data, len, start), a) == start + (a - data)
    ensures InWindow(a) ==> Translate(RelocatedPd(pd, data, len, start), a) == a
  {
    var page := a / PAGE_SIZE_2MB;
    var target := Translate(RelocatedPd(pd, data, len, start), a);
    if InWindow(a) {
      assert target == a == Translate(pd, a);
    } else {
      assert Touched(page, data, len);
      PageImage(data, start, a);
      assert target == start + (a - data);
    }
    assert now(target) == RelocatedByte(phys, pd, data, len, start, target);
  }

  /** Pages the data does not touch keep their mapping and, unless they map the new copy, their bytes. */
  lemma {:induction false} OthersKept(phys: Memory, now: Memory, pd: seq<nat>, data: nat, len: nat, start: nat, a: nat)
    requires |pd| == ENTRIES && SourceLow(pd, data, len) && start >= data && a < ADDR_4GB
    requires SamePhys(now, phys, pd, data, len, start)
    requires !Touched(a / PAGE_SIZE_2MB, data, len)
    requires InWindow(a) ==> Translate(pd, COPY_WINDOW) == COPY_WINDOW
    ensures Translate(RelocatedPd(pd, data, len, start), a) == Translate(pd, a)
    ensures !(start <= Translate(pd, a) < start + len) ==>
      View(now, RelocatedPd(pd, data, len, start), a) == View(phys, pd, a)
  {
    var target := Translate(pd, a);
    assert now(target) == RelocatedByte(phys, pd, data, len, start, target);
  }

  /** Physical memory once the data has moved. */
  function Relocated(phys: Memory, pd: seq<nat>, data: nat, len: nat, start: nat): Memory
    requires |pd| == ENTRIES && data + len <= ADDR_4GB
  {
    (b: nat) => RelocatedByte(phys, pd, data, len, start, b)
  }

  /** Virtual address `a` reads the same before and after. */
  ghost predicate SameView(phys: Memory, pd: seq<nat>, data: nat, len: nat, start: nat, a: nat)
    requires |pd| == ENTRIES && data + len <= ADDR_4GB <= start && a < ADDR_4GB
  {
    View(Relocated(phys, pd, data, len, start), RelocatedPd(pd, data, len, start), a) == View(phys, pd, a)
  }

  /** Physical byte `b` is one the data is copied to. */
  predicate Overwritten(data: nat, len: nat, start: nat, b: nat) {
    start <= b < start + len && !InWindow(data + (b - start))
  }

  /** Address `a` keeps its place, and what lies there is not overwritten. */
  predicate Unmoved(pd: seq<nat>, data: nat, len: nat, start: nat, a: nat)
    requires |pd| == ENTRIES && a < ADDR_4GB
  {
    && (InWindow(a) || !Touched(a / PAGE_SIZE_2MB, data, len))
    && !Overwritten(data, len, start, Translate(pd, a))
  }

  /** Where a touched page outside the window is mapped afterwards. */
  lemma {:induction false} NewPlace(pd: seq<nat>, data: nat, len: nat, start: nat, a: nat)
    requires |pd| == ENTRIES && Destination(data, start) && data + len <= ADDR_4GB && a < ADDR_4GB
    requires Touched(a / PAGE_SIZE_2MB, data, len) && !InWindow(a)
    ensures ADDR_4GB <= start + a - data == Translate(RelocatedPd(pd, data, len, start), a)
  {
    var page := a / PAGE_SIZE_2MB;
    assert RelocatedPd(pd, data, len, start)[page] == Entry(start - data + page * PAGE_SIZE_2MB);
    var q := (start - data) / PAGE_SIZE_2MB;
    assert start - data == q * PAGE_SIZE_2MB;
    DivModUnique((q + page) * PAGE_SIZE_2MB + FLAGS, PAGE_SIZE_2MB, q + page, FLAGS);
    assert start == (q + data / PAGE_SIZE_2MB) * PAGE_SIZE_2MB + data % PAGE_SIZE_2MB;
  }

  /** A page with a byte of the data, outside the window, is mapped below 4GB. */
  lemma {:induction false} LowPage(pd: seq<nat>, data: nat, len: nat, a: nat)
    requires |pd| == ENTRIES && SourceLow(pd, data, len) && a < ADDR_4GB
    requires Touched(a / PAGE_SIZE_2MB, data, len) && !InWindow(a)
    ensures Translate(pd, a) < ADDR_4GB
  {
    var base := a / PAGE_SIZE_2MB * PAGE_SIZE_2MB;
    var d := if data < base then base else data;
    assert d / PAGE_SIZE_2MB == a / PAGE_SIZE_2MB && data <= d < data + len;
    assert !InWindow(d) && Translate(pd, d) < ADDR_4GB;
  }

  /** Outside the window, an address beside the data in one of its pages shows what lay beside the copy. */
  lemma {:induction false} BesideTheData(phys: Memory, pd: seq<nat>, data: nat, len: nat, start: nat, a: nat)
    requires |pd| == ENTRIES && SourceLow(pd, data, len) && Destination(data, start) && a < ADDR_4GB
    requires Touched(a / PAGE_SIZE_2MB, data, len) && !InWindow(a) && !(data <= a < data + len)
    ensures ADDR_4GB <= start + a - data
    ensures View(Relocated(phys, pd, data, len, start), RelocatedPd(pd, data, len, start), a) == phys(start + a - data)
    ensures Translate(pd, a) < ADDR_4GB
  {
    NewPlace(pd, data, len, start, a);
    LowPage(pd, data, len, a);
  }

  lemma {:induction false} SamePlace(pd: seq<nat>, data: nat, len: nat, start: nat, a: nat)
    requires |pd| == ENTRIES && data + len <= ADDR_4GB <= start && a < ADDR_4GB
    requires InWindow(a) || !Touched(a / PAGE_SIZE_2MB, data, len)
    requires Translate(pd, COPY_WINDOW) == COPY_WINDOW
    ensures Translate(RelocatedPd(pd, data, len, start), a) == Translate(pd, a)
  {}

  lemma LowSource(pd: seq<nat>, data: nat, len: nat, a: nat)
    requires |pd| == ENTRIES && SourceLow(pd, data, len) && data <= a < data + len && !InWindow(a)
    ensures Translate(pd, a) < ADDR_4GB
  {}

  /**
   Exactly the addresses that read the same whatever memory holds: those of the data, and those
   outside its pages, or in the window, that are not mapped to where the data is copied.
   */
  lemma {:induction false} SameViewExactly(pd: seq<nat>, data: nat, len: nat, start: nat, a: nat)
    requires |pd| == ENTRIES && SourceLow(pd, data, len) && Destination(data, start) && a < ADDR_4GB
    requires Translate(pd, COPY_WINDOW) == COPY_WINDOW
    ensures (forall phys: Memory :: SameView(phys, pd, data, len, start, a))
      <==> data <= a < data + len || Unmoved(pd, data, len, start, a)
  {
    hide Touched, RelocatedPd, Translate;
    var marked: Memory := b => if b < ADDR_4GB then 1 else 0;
    if data <= a < data + len {
      forall phys: Memory ensures SameView(phys, pd, data, len, start, a) {
        ViewKept(phys, Relocated(phys, pd, data, len, start), pd, data, len, start, a);
      }
    } else if Touched(a / PAGE_SIZE_2MB, data, len) && !InWindow(a) {
      BesideTheData(marked, pd, data, len, start, a);
      assert !SameView(marked, pd, data, len, start, a);
    } else {
      SamePlace(pd, data, len, start, a);
      var b := Translate(pd, a);
      if Overwritten(data, len, start, b) {
        LowSource(pd, data, len, data + (b - start));
        assert !SameView(marked, pd, data, len, start, a);
      }
    }
  }

  /** What physical memory above `start` shows, once the data has moved, in place of virtual byte `a`. */
  function CopyOf(phys: Memory, pd: seq<nat>, data: nat, len: nat, start: nat, a: nat): byte
    requires |pd| == ENTRIES && data + len <= ADDR_4GB && data <= a
  {
    RelocatedByte(phys, pd, data, len, start, start + (a - data))
  }

  ghost predicate Complete(phys: Memory, pd: seq<nat>, data: nat, len: nat, start: nat)
    requires |pd| == ENTRIES && data + len <= ADDR_4GB
  {
    forall a: nat :: data <= a < data + len ==> CopyOf(phys, pd, data, len, start, a) == View(phys, pd, a)
  }

  /**
   The physical range returned holds the whole data, whatever memory held before, exactly when the
   data avoids the window page: bytes in that page are read back from the destination itself.
   */
  lemma {:induction false} CompleteIffOutsideWindow(pd: seq<nat>, data: nat, len: nat, start: nat)
    requires |pd| == ENTRIES && SourceLow(pd, data, len) && start >= ADDR_4GB
    requires Translate(pd, COPY_WINDOW) == COPY_WINDOW
    ensures (forall phys: Memory :: Complete(phys, pd, data, len, start))
       <==> (forall a: nat :: data <= a < data + len ==> !InWindow(a))
  {
    if forall phys: Memory :: Complete(phys, pd, data, len, start) {
      forall a: nat | data <= a < data + len ensures !InWindow(a) {
        var marked: Memory := b => if b < ADDR_4GB then 1 else 0;
        assert Complete(marked, pd, data, len, start);
        assert CopyOf(marked, pd, data, len, start, a) == View(marked, pd, a);
      }
    }
  }
}
