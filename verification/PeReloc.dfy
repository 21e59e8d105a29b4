/**
 The PE base relocation table built by `generate_pe_reloc` and written by `output_pe_reltab`
 (utils/elf2efi.c), and a reader of it after "The .reloc Section" of the PE/COFF specification.
 */
module PeReloc {
  import opened Arith

  const PAGE := 0x1000
  const MAX_RELOCS := 0x7FFF_FFF0
  const ADDRESSES := 0x1_0000_0000

  type Word16 = x: int | 0 <= x < 0x1_0000

  /** A page's relocations, each a type in the high four bits and an offset in the low twelve. */
  datatype Block = Block(start: nat, entries: seq<Word16>)

  /** A request to relocate the `size` bytes at `rva`, and what a loader is told to fix up. */
  datatype Request = Request(rva: nat, size: nat)
  datatype Fixup = Fixup(rva: nat, kind: nat)

  const REL_LOW := 2
  const REL_HIGHLOW := 3
  const REL_DIR64 := 10

  predicate Supported(size: nat) {
    size == 8 || size == 4 || size == 2
  }

  function Kind(size: nat): (k: nat)
    requires Supported(size)
    ensures 0 < k < 16
  {
    match size
    case 8 => REL_DIR64
    case 4 => REL_HIGHLOW
    case _ => REL_LOW
  }

  function PageStart(rva: nat): nat {
    rva / PAGE * PAGE
  }

  function EntryOf(r: Request): Word16
    requires Supported(r.size)
  {
    Kind(r.size) * PAGE + r.rva % PAGE
  }

  /** The fixup meant by a request; addresses in the table are 32 bits wide. */
  function FixupOf(r: Request): Fixup
    requires Supported(r.size)
  {
    Fixup(r.rva % ADDRESSES, Kind(r.size))
  }

  // ---------------------------------------------------------------- building

  function Find(blocks: seq<Block>, start: nat): (i: nat)
    ensures i <= |blocks|
    ensures i < |blocks| ==> blocks[i].start == start
    ensures forall j :: 0 <= j < i ==> blocks[j].start != start
  {
    if blocks == [] || blocks[0].start == start then 0 else 1 + Find(blocks[1..], start)
  }

  /** The table with one more relocation: appended to its page's block, or in a new first block. */
  function Added(blocks: seq<Block>, start: nat, entry: Word16): seq<Block> {
    var i := Find(blocks, start);
    if i < |blocks| then blocks[i := Block(start, blocks[i].entries + [entry])]
    else [Block(start, [entry])] + blocks
  }

  ghost predicate AllSupported(rs: seq<Request>) {
    forall i :: 0 <= i < |rs| ==> Supported(rs[i].size)
  }

  /** The table after a sequence of requests. */
  function Table(rs: seq<Request>): seq<Block>
    requires AllSupported(rs)
  {
    if rs == [] then []
    else
      var r := rs[|rs| - 1];
      Added(Table(rs[..|rs| - 1]), PageStart(r.rva), EntryOf(r))
  }

  ghost predicate Distinct(blocks: seq<Block>) {
    forall i, j :: 0 <= i < j < |blocks| ==> blocks[i].start != blocks[j].start
  }

  /** No block has more relocations than its size field can express. */
  ghost predicate Sized(blocks: seq<Block>) {
    forall i :: 0 <= i < |blocks| ==> |blocks[i].entries| <= MAX_RELOCS
  }

  // ----------------------------------------------------------------- writing

  /** Entries come in pairs, a zero entry filling up the last. */
  function Padded(entries: seq<Word16>): (p: seq<Word16>)
    ensures |p| % 2 == 0 && |entries| <= |p| <= |entries| + 1
  {
    if |entries| % 2 == 0 then entries else entries + [0]
  }

  function Words(entries: seq<Word16>): (s: seq<byte>)
    ensures |s| == 2 * |entries|
  {
    if entries == [] then [] else Words(entries[..|entries| - 1]) + LE16(entries[|entries| - 1])
  }

  function BlockSize(entries: seq<Word16>): (n: nat)
    ensures n % 4 == 0 && n >= 8
  {
    8 + 2 * |Padded(entries)|
  }

  function EncodeBlock(b: Block): (s: seq<byte>)
    ensures |s| == BlockSize(b.entries)
  {
    LE32(b.start) + LE32(BlockSize(b.entries)) + Words(Padded(b.entries))
  }

  function TableSize(blocks: seq<Block>): nat {
    if blocks == [] then 0 else TableSize(blocks[..|blocks| - 1]) + BlockSize(blocks[|blocks| - 1].entries)
  }

  function Encode(blocks: seq<Block>): (s: seq<byte>)
    ensures |s| == TableSize(blocks)
  {
    if blocks == [] then [] else Encode(blocks[..|blocks| - 1]) + EncodeBlock(blocks[|blocks| - 1])
  }

  // ----------------------------------------------------------------- reading

  /** The fixups of one block; entries of type 0 only pad. */
  function ParseEntries(s: seq<byte>, va: nat): seq<Fixup> {
    if |s| < 2 then []
    else
      var w := U16(s, 0);
      (if w / PAGE == 0 then [] else [Fixup(va + w % PAGE, w / PAGE)]) + ParseEntries(s[2..], va)
  }

  /** The fixups of a whole table, or none if a block's size does not fit it. */
  function ParseTable(s: seq<byte>): Option<seq<Fixup>> {
    if s == [] then Some([])
    else if |s| < 8 then None
    else
      var size := U32(s, 4);
      if size < 8 || size > |s| || size % 4 != 0 then None
      else
        match ParseTable(s[size..])
        case None => None
        case Some(rest) => Some(ParseEntries(s[8..size], U32(s, 0)) + rest)
  }

  // ------------------------------------------------------------------- proof

  function WordFixups(va: nat, w: Word16): seq<Fixup> {
    if w / PAGE == 0 then [] else [Fixup(va + w % PAGE, w / PAGE)]
  }

  /** The fixups a table stands for, block by block. */
  function BlockFixups(va: nat, entries: seq<Word16>): seq<Fixup> {
    if entries == [] then [] else WordFixups(va, entries[0]) + BlockFixups(va, entries[1..])
  }

  function Fixups(blocks: seq<Block>): seq<Fixup> {
    if blocks == [] then [] else BlockFixups(blocks[0].start % ADDRESSES, blocks[0].entries) + Fixups(blocks[1..])
  }

  lemma {:induction false} WordsConcat(a: seq<Word16>, b: seq<Word16>)
    ensures Words(a + b) == Words(a) + Words(b)
  {
    if b == [] {
      assert a + b == a;
    } else {
      assert (a + b)[..|a + b| - 1] == a + b[..|b| - 1];
      WordsConcat(a, b[..|b| - 1]);
    }
  }

  lemma Associates(a: seq<byte>, b: seq<byte>, c: seq<byte>)
    ensures (a + b) + c == a + (b + c)
  {}

  lemma {:induction false} EncodeConcat(a: seq<Block>, b: seq<Block>)
    ensures Encode(a + b) == Encode(a) + Encode(b)
  {
    hide EncodeBlock, BlockSize, TableSize;
    if b == [] {
      assert a + b == a;
    } else {
      var last := EncodeBlock(b[|b| - 1]);
      assert (a + b)[..|a + b| - 1] == a + b[..|b| - 1];
      EncodeConcat(a, b[..|b| - 1]);
      Associates(Encode(a), Encode(b[..|b| - 1]), last);
    }
  }

  lemma {:induction false} WordParses(w: Word16, rest: seq<Word16>, va: nat)
    ensures ParseEntries(Words([w] + rest), va) == WordFixups(va, w) + ParseEntries(Words(rest), va)
  {
    var s := Words([w] + rest);
    WordsConcat([w], rest);
    assert Words([w]) == LE16(w) by {
      assert [w][..0] == [];
    }
    assert s[0..2] == LE16(w) && s[2..] == Words(rest);
    ReadsBack(s, 0, w);
  }

  lemma {:induction false} WordsParse(entries: seq<Word16>, va: nat)
    ensures ParseEntries(Words(entries), va) == BlockFixups(va, entries)
  {
    if entries == [] {
    } else {
      assert entries == [entries[0]] + entries[1..];
      WordParses(entries[0], entries[1..], va);
      WordsParse(entries[1..], va);
    }
  }

  lemma {:induction false} FixupsConcat(va: nat, a: seq<Word16>, b: seq<Word16>)
    ensures BlockFixups(va, a + b) == BlockFixups(va, a) + BlockFixups(va, b)
  {
    if a == [] {
      assert a + b == b;
    } else {
      assert (a + b)[1..] == a[1..] + b;
      FixupsConcat(va, a[1..], b);
    }
  }

  /** The padding entry is not a fixup. */
  lemma {:induction false} EntriesParse(va: nat, entries: seq<Word16>)
    ensures ParseEntries(Words(Padded(entries)), va) == BlockFixups(va, entries)
  {
    WordsParse(Padded(entries), va);
    FixupsConcat(va, entries, [0]);
  }

  lemma {:induction false} LowByte(q: nat, r: nat, d: nat, m: nat)
    requires d > 0 && ADDRESSES == m * 256 * d
    ensures (q * ADDRESSES + r) / d % 256 == r / d % 256
  {
    var k := r / d;
    assert q * ADDRESSES == q * (m * 256) * d;
    MulDistributes(q * (m * 256), k, d);
    DivModUnique(q * ADDRESSES + r, d, q * (m * 256) + k, r % d);
    assert q * (m * 256) == q * m * 256;
    DivModUnique(q * m * 256 + k, 256, q * m + k / 256, k % 256);
  }

  lemma {:induction false} LowBytes(v: nat)
    ensures LE32(v) == LE32(v % ADDRESSES)
  {
    var q, r := v / ADDRESSES, v % ADDRESSES;
    LowByte(q, r, 1, 0x100_0000);
    LowByte(q, r, 256, 0x1_0000);
    LowByte(q, r, 0x1_0000, 256);
    LowByte(q, r, 0x100_0000, 1);
  }

  /** The two header fields are where a reader looks for them. */
  lemma {:induction false} BlockLayout(b: Block, rest: seq<byte>)
    requires |b.entries| <= MAX_RELOCS
    ensures var s, size := EncodeBlock(b) + rest, BlockSize(b.entries);
      && U32(s, 0) == b.start % ADDRESSES && U32(s, 4) == size
      && s[8..size] == Words(Padded(b.entries)) && s[size..] == rest
  {
    hide Words, LE32, U32;
    var s, size, words := EncodeBlock(b) + rest, BlockSize(b.entries), Words(Padded(b.entries));
    LowBytes(b.start);
    assert s[0..4] == LE32(b.start);
    assert s[4..8] == LE32(size) && s[8..size] == words && s[size..] == rest;
    ReadsBack(s, 0, b.start % ADDRESSES);
    ReadsBack(s, 4, size);
  }

  /** A block's header is read back and its length leads to the next block. */
  lemma {:induction false} BlockParses(b: Block, rest: seq<byte>)
    requires |b.entries| <= MAX_RELOCS
    ensures var s := EncodeBlock(b) + rest;
      ParseTable(s) == match ParseTable(rest)
        case None => None
        case Some(more) => Some(BlockFixups(b.start % ADDRESSES, b.entries) + more)
  {
    hide Words, ParseEntries, BlockFixups, Padded, EncodeBlock, U32;
    BlockLayout(b, rest);
    EntriesParse(b.start % ADDRESSES, b.entries);
  }

  /** Reading the written table gives its fixups back, block by block and in order. */
  lemma {:induction false} TableParses(blocks: seq<Block>)
    requires Sized(blocks)
    ensures ParseTable(Encode(blocks)) == Some(Fixups(blocks))
  {
    if blocks == [] {
    } else {
      var b, rest := blocks[0], blocks[1..];
      assert blocks == [b] + rest;
      EncodeConcat([b], rest);
      assert Encode([b]) == EncodeBlock(b) by {
        assert [b][..0] == [];
      }
      BlockParses(b, Encode(rest));
      TableParses(rest);
    }
  }

  // ---------------------------------------------------------------- theorems

  lemma {:induction false} BlocksConcat(a: seq<Block>, b: seq<Block>)
    ensures Fixups(a + b) == Fixups(a) + Fixups(b)
  {
    if a == [] {
      assert a + b == b;
    } else {
      assert (a + b)[1..] == a[1..] + b;
      BlocksConcat(a[1..], b);
    }
  }

  lemma {:induction false} OneEntry(va: nat, entry: Word16)
    ensures BlockFixups(va, [entry]) == WordFixups(va, entry)
  {
    assert [entry][1..] == [];
  }

  lemma {:induction false} MiddleBlock(a: seq<Block>, b: Block, c: seq<Block>)
    ensures Fixups(a + [b] + c) == Fixups(a) + BlockFixups(b.start % ADDRESSES, b.entries) + Fixups(c)
  {
    hide BlockFixups;
    BlocksConcat(a + [b], c);
    BlocksConcat(a, [b]);
    assert [b][1..] == [];
  }

  lemma MultisetMiddle<T>(a: seq<T>, x: seq<T>, y: seq<T>, c: seq<T>)
    ensures multiset(a + (x + y) + c) == multiset(a + x + c) + multiset(y)
  {}

  lemma {:induction false} GrownBlock(a: seq<Block>, b: Block, c: seq<Block>, entry: Word16)
    ensures multiset(Fixups(a + [Block(b.start, b.entries + [entry])] + c))
         == multiset(Fixups(a + [b] + c)) + multiset(WordFixups(b.start % ADDRESSES, entry))
  {
    hide Fixups, BlockFixups, WordFixups;
    var va := b.start % ADDRESSES;
    MiddleBlock(a, b, c);
    MiddleBlock(a, Block(b.start, b.entries + [entry]), c);
    OneEntry(va, entry);
    FixupsConcat(va, b.entries, [entry]);
    MultisetMiddle(Fixups(a), BlockFixups(va, b.entries), WordFixups(va, entry), Fixups(c));
  }

  /** One more relocation is one more fixup, and nothing else. */
  lemma {:induction false} AddedFixups(blocks: seq<Block>, start: nat, entry: Word16)
    ensures multiset(Fixups(Added(blocks, start, entry)))
         == multiset(Fixups(blocks)) + multiset(WordFixups(start % ADDRESSES, entry))
  {
    hide BlockFixups, WordFixups;
    var i := Find(blocks, start);
    if i < |blocks| {
      var a, b, c := blocks[..i], blocks[i], blocks[i + 1..];
      assert blocks == a + [b] + c;
      assert Added(blocks, start, entry) == a + [Block(b.start, b.entries + [entry])] + c;
      GrownBlock(a, b, c, entry);
    } else {
      OneEntry(start % ADDRESSES, entry);
      assert Added(blocks, start, entry)[1..] == blocks;
    }
  }

  lemma {:induction false} EntryMeans(r: Request)
    requires Supported(r.size)
    ensures WordFixups(PageStart(r.rva) % ADDRESSES, EntryOf(r)) == [FixupOf(r)]
    ensures EntryOf(r) / PAGE != 0
  {
    var q, page, off := r.rva / ADDRESSES, r.rva / PAGE, r.rva % PAGE;
    DivModUnique(EntryOf(r), PAGE, Kind(r.size), off);
    var low := page % 0x10_0000;
    assert page * PAGE == (page / 0x10_0000) * ADDRESSES + low * PAGE;
    DivModUnique(page * PAGE, ADDRESSES, page / 0x10_0000, low * PAGE);
    DivModUnique(r.rva, ADDRESSES, page / 0x10_0000, low * PAGE + off);
  }

  function Wanted(rs: seq<Request>): (fs: seq<Fixup>)
    requires AllSupported(rs)
    ensures |fs| == |rs|
  {
    seq(|rs|, i requires 0 <= i < |rs| => FixupOf(rs[i]))
  }

  /** The table stands for exactly the requested fixups, each as often as it was requested. */
  lemma {:induction false} TableFixups(rs: seq<Request>)
    requires AllSupported(rs)
    ensures multiset(Fixups(Table(rs))) == multiset(Wanted(rs))
  {
    if rs == [] {
    } else {
      var init, r := rs[..|rs| - 1], rs[|rs| - 1];
      TableFixups(init);
      AddedFixups(Table(init), PageStart(r.rva), EntryOf(r));
      EntryMeans(r);
      assert Wanted(rs) == Wanted(init) + [FixupOf(r)];
    }
  }

  /** Blocks start at page boundaries and hold between 1 and `n` relocations of known types. */
  ghost predicate Filled(blocks: seq<Block>, n: nat) {
    forall i :: 0 <= i < |blocks| ==>
      && blocks[i].start % PAGE == 0
      && 0 < |blocks[i].entries| <= n
      && forall k :: 0 <= k < |blocks[i].entries| ==> blocks[i].entries[k] / PAGE != 0
  }

  lemma {:induction false} AddedWellFormed(blocks: seq<Block>, start: nat, entry: Word16, n: nat)
    requires Distinct(blocks) && Filled(blocks, n) && start % PAGE == 0 && entry / PAGE != 0
    ensures Distinct(Added(blocks, start, entry)) && Filled(Added(blocks, start, entry), n + 1)
  {
    var i, after := Find(blocks, start), Added(blocks, start, entry);
    if i < |blocks| {
      assert forall k :: 0 <= k < |blocks| ==> after[k].start == blocks[k].start;
      var es := blocks[i].entries + [entry];
      assert forall k :: 0 <= k < |es| ==> es[k] / PAGE != 0;
    } else {
      assert after[1..] == blocks;
      assert forall k :: 1 <= k < |after| ==> after[k] == blocks[k - 1];
    }
  }

  /** No page has two blocks and no block is empty. */
  lemma {:induction false} TableWellFormed(rs: seq<Request>)
    requires AllSupported(rs)
    ensures Distinct(Table(rs)) && Filled(Table(rs), |rs|)
  {
    if rs == [] {
    } else {
      var init, r := rs[..|rs| - 1], rs[|rs| - 1];
      TableWellFormed(init);
      EntryMeans(r);
      AddedWellFormed(Table(init), PageStart(r.rva), EntryOf(r), |init|);
    }
  }

  /** The entries on one page, in the order they were requested. */
  function OnPage(rs: seq<Request>, start: nat): seq<Word16>
    requires AllSupported(rs)
  {
    if rs == [] then []
    else
      var r := rs[|rs| - 1];
      OnPage(rs[..|rs| - 1], start) + if PageStart(r.rva) == start then [EntryOf(r)] else []
  }

  function EntriesOf(blocks: seq<Block>, start: nat): seq<Word16> {
    var i := Find(blocks, start);
    if i < |blocks| then blocks[i].entries else []
  }

  lemma {:induction false} AddedEntries(blocks: seq<Block>, page: nat, entry: Word16, start: nat)
    ensures EntriesOf(Added(blocks, page, entry), start)
         == EntriesOf(blocks, start) + if page == start then [entry] else []
  {
    var i, after := Find(blocks, page), Added(blocks, page, entry);
    var j, j' := Find(blocks, start), Find(after, start);
    if i < |blocks| {
      assert forall k :: 0 <= k < |blocks| ==> after[k].start == blocks[k].start;
      if j < |blocks| {
        assert after[j].start == start;
      }
      if j' < |blocks| {
        assert blocks[j'].start == start;
      }
      assert j == j';
    } else if page != start {
      assert after[1..] == blocks;
    }
  }

  lemma {:induction false} TableOrder(rs: seq<Request>, start: nat)
    requires AllSupported(rs)
    ensures EntriesOf(Table(rs), start) == OnPage(rs, start)
  {
    if rs == [] {
    } else {
      var init, r := rs[..|rs| - 1], rs[|rs| - 1];
      TableOrder(init, start);
      AddedEntries(Table(init), PageStart(r.rva), EntryOf(r), start);
    }
  }

  /** Reading the table written for any requests gives back exactly those requests. */
  lemma {:induction false} RoundTrip(rs: seq<Request>)
    requires AllSupported(rs) && |rs| <= MAX_RELOCS
    ensures var read := ParseTable(Encode(Table(rs)));
      read.Some? && multiset(read.value) == multiset(Wanted(rs))
  {
    TableWellFormed(rs);
    TableParses(Table(rs));
    TableFixups(rs);
  }
}
