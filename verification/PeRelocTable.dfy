/**
 The relocation table as `generate_pe_reloc` keeps it: a list of pages, newest first, each with an
 array that grows by doubling (utils/elf2efi.c).
 */
module PeRelocTable {
  import opened Arith
  import opened PeReloc

  /** Stores a 32-bit value, truncated as the field is. */
  method StoreLong(buffer: array<byte>, at: nat, v: nat)
    requires at + 4 <= buffer.Length
    modifies buffer
    ensures buffer[..] == Patch(old(buffer[..]), at, LE32(v))
  {
    buffer[at] := v % 256;
    buffer[at + 1] := v / 256 % 256;
    buffer[at + 2] := v / 0x1_0000 % 256;
    buffer[at + 3] := v / 0x100_0000 % 256;
  }

  lemma NoWords(s: seq<byte>, at: nat)
    requires at <= |s|
    ensures Patch(s, at, Words([])) == s
  {}

  lemma WordPatched(s: seq<byte>, now: seq<byte>, at: nat, word: seq<byte>)
    requires |now| == |s| && |word| == 2 && at + 2 <= |s| && now[at] == word[0] && now[at + 1] == word[1]
    requires forall k :: 0 <= k < |s| && k != at && k != at + 1 ==> now[k] == s[k]
    ensures now == Patch(s, at, word)
  {}

  /** Storing the two bytes of the next word. */
  lemma {:induction false} WordStored(s: seq<byte>, at: nat, words: seq<Word16>, i: nat)
    requires i < |words| && at + 2 * (i + 1) <= |s|
    ensures Patch(Patch(s, at, Words(words[..i])), at + 2 * i, LE16(words[i])) == Patch(s, at, Words(words[..i + 1]))
  {
    assert words[..i + 1][..i] == words[..i];
    assert Words(words[..i + 1]) == Words(words[..i]) + LE16(words[i]);
  }

  method CopyWords(buffer: array<byte>, at: nat, words: array<Word16>, n: nat)
    requires n <= words.Length && at + 2 * n <= buffer.Length
    modifies buffer
    ensures words[..] == old(words[..])
    ensures buffer[..] == Patch(old(buffer[..]), at, Words(words[..n]))
  {
    hide Patch, Words;
    NoWords(buffer[..], at);
    assert words[..0] == [];
    for i := 0 to n
      invariant words[..] == old(words[..])
      invariant buffer[..] == Patch(old(buffer[..]), at, Words(words[..i]))
    {
      WordStored(old(buffer[..]), at, words[..], i);
      ghost var before := buffer[..];
      buffer[at + 2 * i] := words[i] % 256;
      buffer[at + 2 * i + 1] := words[i] / 256 % 256;
      WordPatched(before, buffer[..], at + 2 * i, LE16(words[i]));
    }
  }

  lemma PatchTwice(s: seq<byte>, at: nat, x: seq<byte>, y: seq<byte>)
    requires at + |x| + |y| <= |s|
    ensures Patch(Patch(s, at, x), at + |x|, y) == Patch(s, at, x + y)
  {}

  lemma {:induction false} BlockStored(b: Block, at: nat, before: seq<byte>)
    requires at + BlockSize(b.entries) <= |before|
    ensures Patch(Patch(Patch(before, at, LE32(b.start)), at + 4, LE32(BlockSize(b.entries))),
                  at + 8, Words(Padded(b.entries)))
         == Patch(before, at, EncodeBlock(b))
  {
    hide Words, LE32, Padded;
    var x, y, z := LE32(b.start), LE32(BlockSize(b.entries)), Words(Padded(b.entries));
    PatchTwice(before, at, x, y);
    PatchTwice(before, at, x + y, z);
  }

  class RelocPage {
    const startRva: nat
    var used: nat
    var relocs: array<Word16>

    constructor (start: nat)
      ensures startRva == start && used == 0 && relocs.Length == 0 && fresh(relocs)
    {
      startRva := start;
      used := 0;
      relocs := new Word16[0];
    }

    /** Entries past the used ones are zero, and there is an even number of them in all. */
    ghost predicate Valid()
      reads this, relocs
    {
      && used <= relocs.Length < ADDRESSES
      && relocs.Length % 2 == 0
      && forall k :: used <= k < relocs.Length ==> relocs[k] == 0
    }

    ghost predicate Holds(b: Block)
      reads this, relocs
    {
      Valid() && startRva == b.start && relocs[..used] == b.entries
    }

    lemma Padding(b: Block)
      requires Holds(b)
      ensures (used + 1) / 2 * 2 <= relocs.Length && relocs[..(used + 1) / 2 * 2] == Padded(b.entries)
      ensures BlockSize(b.entries) == 8 + 2 * ((used + 1) / 2 * 2)
    {}

    /** Writes the page's block: address, size, entries. */
    method Write(buffer: array<byte>, at: nat, numRelocs: nat, ghost b: Block)
      requires Holds(b) && numRelocs == (used + 1) / 2 * 2
      requires at + BlockSize(b.entries) <= buffer.Length
      modifies buffer
      ensures buffer[..] == Patch(old(buffer[..]), at, EncodeBlock(b))
    {
      hide Words, LE32, EncodeBlock, BlockSize, Patch;
      Padding(b);
      ghost var before := buffer[..];
      StoreLong(buffer, at, startRva);
      StoreLong(buffer, at + 4, 8 + 2 * numRelocs);
      CopyWords(buffer, at + 8, relocs, numRelocs);
      BlockStored(b, at, before);
    }

    /** Appends an entry, growing a full array to twice its size. */
    method Store(reloc: Word16)
      requires Valid() && used < MAX_RELOCS
      modifies this, relocs
      ensures Valid() && used == old(used) + 1
      ensures relocs[..used] == old(relocs[..used]) + [reloc]
      ensures relocs == old(relocs) || fresh(relocs)
    {
      if used >= relocs.Length {
        var total := if relocs.Length != 0 then relocs.Length * 2 else 256;
        var grown := new Word16[total](_ => 0);
        for i := 0 to used
          invariant grown[..i] == old(relocs[..i])
          invariant forall k :: i <= k < total ==> grown[k] == 0
          invariant relocs == old(relocs) && used == old(used) && relocs[..] == old(relocs[..])
        {
          grown[i] := relocs[i];
        }
        relocs := grown;
      }
      relocs[used] := reloc;
      used := used + 1;
    }
  }

  /** Storing right after what is already written. */
  lemma {:induction false} AppendPart(s: seq<byte>, orig: seq<byte>, head: seq<byte>, part: seq<byte>)
    requires |head| + |part| <= |orig| && s == head + orig[|head|..]
    ensures Patch(s, |head|, part) == head + part + orig[|head| + |part|..]
  {}

  function Grown(blocks: seq<Block>, i: nat, entry: Word16): seq<Block>
    requires i < |blocks|
  {
    blocks[i := Block(blocks[i].start, blocks[i].entries + [entry])]
  }

  lemma {:induction false} GrowsLocated(blocks: seq<Block>, start: nat, i: nat, entry: Word16)
    ensures i < |blocks| && blocks[i].start == start && (forall j :: 0 <= j < i ==> blocks[j].start != start) ==>
      Grown(blocks, i, entry) == Added(blocks, start, entry)
    ensures (forall j :: 0 <= j < |blocks| ==> blocks[j].start != start) ==>
      Grown([Block(start, [])] + blocks, 0, entry) == Added(blocks, start, entry)
  {
    assert [] + [entry] == [entry];
  }

  lemma {:induction false} SizeGrows(blocks: seq<Block>, i: nat)
    requires i <= |blocks|
    ensures TableSize(blocks[..i]) <= TableSize(blocks)
  {
    if i < |blocks| {
      var init := blocks[..|blocks| - 1];
      SizeGrows(init, i);
      assert init[..i] == blocks[..i];
    } else {
      assert blocks[..i] == blocks;
    }
  }

  /** The blocks up to `i` and the next one fit in the whole table. */
  lemma {:induction false} BlocksSoFar(blocks: seq<Block>, i: nat)
    requires i < |blocks|
    ensures TableSize(blocks[..i]) + BlockSize(blocks[i].entries) <= TableSize(blocks)
    ensures TableSize(blocks[..i + 1]) == TableSize(blocks[..i]) + BlockSize(blocks[i].entries)
    ensures Encode(blocks[..i + 1]) == Encode(blocks[..i]) + EncodeBlock(blocks[i])
  {
    hide EncodeBlock, BlockSize;
    assert blocks[..i + 1][..i] == blocks[..i];
    SizeGrows(blocks, i + 1);
  }

  lemma NothingWritten()
    ensures TableSize([]) == 0 && Encode([]) == []
  {}

  class RelocTable {
    var pages: seq<RelocPage>
    ghost var blocks: seq<Block>
    ghost var repr: set<object>

    ghost predicate Valid()
      reads this, repr
    {
      && this in repr && |pages| == |blocks| && Distinct(blocks)
      && (forall i :: 0 <= i < |pages| ==>
        pages[i] in repr && pages[i].relocs in repr && pages[i].Holds(blocks[i]))
      && (forall i, j :: 0 <= i < j < |pages| ==> pages[i] != pages[j] && pages[i].relocs != pages[j].relocs)
    }

    constructor ()
      ensures Valid() && fresh(repr) && blocks == []
    {
      pages, blocks := [], [];
      repr := {this};
    }

    /** Puts an empty page at the head of the list. */
    method AddPage(startRva: nat)
      requires Valid() && forall j :: 0 <= j < |blocks| ==> blocks[j].start != startRva
      modifies this
      ensures Valid() && fresh(repr - old(repr))
      ensures blocks == [Block(startRva, [])] + old(blocks)
    {
      var page := new RelocPage(startRva);
      pages, blocks := [page] + pages, [Block(startRva, [])] + blocks;
      repr := repr + {page, page.relocs};
    }

    /** Finds the page's entry in the list, adding one at its head if there is none. */
    method Locate(startRva: nat) returns (i: nat)
      requires Valid()
      modifies this
      ensures Valid() && fresh(repr - old(repr))
      ensures i < |blocks| && blocks[i].start == startRva
      ensures forall entry: Word16 :: Grown(blocks, i, entry) == Added(old(blocks), startRva, entry)
      ensures |blocks[i].entries| > 0 ==> blocks[i] in old(blocks)
    {
      hide Grown, Added, Find;
      i := 0;
      while i < |pages| && pages[i].startRva != startRva
        invariant 0 <= i <= |pages|
        invariant forall j :: 0 <= j < i ==> blocks[j].start != startRva
      {
        i := i + 1;
      }
      if i == |pages| {
        AddPage(startRva);
        i := 0;
      }
      forall entry: Word16 ensures Grown(blocks, i, entry) == Added(old(blocks), startRva, entry) {
        GrowsLocated(old(blocks), startRva, i, entry);
      }
    }

    /** Appends an entry to one page. */
    method Append(i: nat, reloc: Word16)
      requires Valid() && i < |blocks| && |blocks[i].entries| < MAX_RELOCS
      modifies repr
      ensures Valid() && fresh(repr - old(repr)) && blocks == Grown(old(blocks), i, reloc)
    {
      pages[i].Store(reloc);
      blocks := blocks[i := Block(blocks[i].start, blocks[i].entries + [reloc])];
      repr := repr + {pages[i].relocs};
    }

    /** Records the relocation of `size` bytes at `rva`; any other size is refused. */
    method GenerateReloc(rva: nat, size: nat) returns (ok: bool)
      requires Valid() && forall i :: 0 <= i < |blocks| ==> |blocks[i].entries| < MAX_RELOCS
      modifies repr
      ensures Valid() && fresh(repr - old(repr))
      ensures ok == Supported(size)
      ensures blocks == if ok then Added(old(blocks), PageStart(rva), EntryOf(Request(rva, size))) else old(blocks)
    {
      hide Find, Grown, Distinct, Added;
      var startRva, reloc := rva - rva % PAGE, rva % PAGE;
      match size {
        case 8 => reloc := reloc + 0xa000;
        case 4 => reloc := reloc + 0x3000;
        case 2 => reloc := reloc + 0x2000;
        case _ => return false;
      }
      var i := Locate(startRva);
      Append(i, reloc);
      return true;
    }

    /** One page's share of the table. */
    method OutputPage(i: nat, buffer: array?<byte>, at: nat) returns (size: nat)
      requires Valid() && i < |pages|
      requires buffer != null ==> buffer !in repr && at + BlockSize(blocks[i].entries) <= buffer.Length
      modifies if buffer == null then {} else {buffer}
      ensures Valid() && size == BlockSize(blocks[i].entries)
      ensures buffer != null ==> buffer[..] == Patch(old(buffer[..]), at, EncodeBlock(blocks[i]))
    {
      hide EncodeBlock, BlockSize, Patch;
      var numRelocs := (pages[i].used + 1) / 2 * 2;
      size := 8 + 2 * numRelocs;
      pages[i].Padding(blocks[i]);
      if buffer != null {
        pages[i].Write(buffer, at, numRelocs, blocks[i]);
      }
    }

    /** The table's size; with a buffer, the table is also written to its start. */
    method OutputReltab(buffer: array?<byte>) returns (total: nat)
      requires Valid() && Sized(blocks)
      requires buffer != null ==> buffer !in repr && buffer.Length >= TableSize(blocks)
      modifies if buffer == null then {} else {buffer}
      ensures Valid() && total == TableSize(blocks)
      ensures buffer != null ==> buffer[..] == Encode(blocks) + old(buffer[TableSize(blocks)..])
    {
      hide EncodeBlock, Words, LE32, Encode, TableSize, BlockSize, Patch;
      total := 0;
      var i := 0;
      NothingWritten();
      while i < |pages|
        invariant 0 <= i <= |pages| && Valid()
        invariant total == TableSize(blocks[..i])
        invariant buffer != null ==> total <= buffer.Length
        invariant buffer != null ==> buffer[..] == Encode(blocks[..i]) + old(buffer[..])[total..]
      {
        BlocksSoFar(blocks, i);
        ghost var before := if buffer == null then [] else buffer[..];
        var size := OutputPage(i, buffer, total);
        if buffer != null {
          AppendPart(before, old(buffer[..]), Encode(blocks[..i]), EncodeBlock(blocks[i]));
        }
        total := total + size;
        i := i + 1;
      }
      assert blocks[..i] == blocks;
    }
  }

  /** Records a sequence of requests in a new table. */
  method BuildTable(requests: seq<Request>) returns (table: RelocTable)
    requires AllSupported(requests) && |requests| <= MAX_RELOCS
    ensures fresh(table) && fresh(table.repr) && table.Valid() && table.blocks == Table(requests)
  {
    table := new RelocTable();
    for i := 0 to |requests|
      invariant fresh(table) && fresh(table.repr) && table.Valid() && table.blocks == Table(requests[..i])
    {
      TableWellFormed(requests[..i]);
      assert requests[..i + 1][..i] == requests[..i];
      var ok := table.GenerateReloc(requests[i].rva, requests[i].size);
    }
    assert requests[..|requests|] == requests;
  }

  const FILE_ALIGN := 0x200

  function FileAlign(offset: nat): (aligned: nat)
    ensures offset <= aligned < offset + FILE_ALIGN && aligned % FILE_ALIGN == 0
  {
    (offset + FILE_ALIGN - 1) / FILE_ALIGN * FILE_ALIGN
  }

  /** Sizes the table with a null buffer, then writes it into a section of that size, file-aligned. */
  method CreateRelocSection(table: RelocTable) returns (contents: array<byte>, memsz: nat)
    requires table.Valid() && Sized(table.blocks)
    ensures memsz == TableSize(table.blocks) <= contents.Length && contents.Length % FILE_ALIGN == 0
    ensures contents[..memsz] == Encode(table.blocks)
    ensures forall i :: memsz <= i < contents.Length ==> contents[i] == 0
  {
    hide Encode, TableSize, Sized, Distinct;
    memsz := table.OutputReltab(null);
    var filesz := FileAlign(memsz);
    contents := new byte[filesz](_ => 0);
    ghost var zeros := contents[memsz..];
    var total := table.OutputReltab(contents);
    ghost var bytes := contents[..];
    assert bytes == Encode(table.blocks) + zeros;
    assert contents[..memsz] == bytes[..memsz];
    forall i | memsz <= i < contents.Length ensures contents[i] == 0 {
      assert contents[i] == bytes[i] == zeros[i - memsz];
    }
  }

  /** A loader reading the section made for any requests fixes up exactly those. */
  method RelocSection(requests: seq<Request>) returns (contents: array<byte>, memsz: nat)
    requires AllSupported(requests) && |requests| <= MAX_RELOCS
    ensures memsz <= contents.Length
    ensures var read := ParseTable(contents[..memsz]);
      read.Some? && multiset(read.value) == multiset(Wanted(requests))
  {
    var table := BuildTable(requests);
    TableWellFormed(requests);
    contents, memsz := CreateRelocSection(table);
    RoundTrip(requests);
  }
}
