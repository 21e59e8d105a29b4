/** `vdisk_directory_entry` of libnt/vdisk.c: an 8.3 record and its long-name records, in place. */
module VdiskDirectory {
  import opened Arith
  import opened VdiskSectors
  import opened VdiskBuffer

  /** Where the `p`-th character of a long-name record is stored. */
  function CharOffset(p: nat): (o: nat)
    requires p < LFN_CHARS
    ensures o + 2 <= ENTRY_SIZE
  {
    if p < 5 then 1 + 2 * p else if p < 11 then 14 + 2 * (p - 5) else 28 + 2 * (p - 11)
  }

  lemma NoChars(name: seq<byte>, j: nat, b: nat)
    requires LFN_CHARS * j <= |name| && b < ENTRY_SIZE
    ensures LfnCharByte(name, j, LFN_CHARS * j, b) == if 1 <= b < 11 || 14 <= b < 26 || 28 <= b then 0xff else 0
  {}

  /** A patched sequence, byte by byte. */
  lemma PatchAt(s: seq<byte>, o: nat, f: seq<byte>, b: nat)
    requires o + |f| <= |s| && b < |s|
    ensures Patch(s, o, f)[b] == if o <= b < o + |f| then f[b - o] else s[b]
  {}

  /** Initialising a deleted entry as long-name record `j`, before any of its characters. */
  lemma {:induction false} RecordInit(name: seq<byte>, j: nat)
    requires LFN_CHARS * j <= |name| && j < 63
    ensures var r0 := Patch(DeletedEntry(), 0, [j + 1]);
      var r1 := Patch(r0, 1, Repeat(10, 0xff));
      var r2 := Patch(r1, 11, [LFN_ATTR]);
      var r3 := Patch(r2, 13, [Checksum(BlankName())]);
      var r4 := Patch(r3, 14, Repeat(12, 0xff));
      Patch(r4, 28, Repeat(4, 0xff)) == LfnRecord(name, j, LFN_CHARS * j, false)
  {
    hide Patch, Checksum, LfnCharByte;
    var r0 := Patch(DeletedEntry(), 0, [j + 1]);
    var r1 := Patch(r0, 1, Repeat(10, 0xff));
    var r2 := Patch(r1, 11, [LFN_ATTR]);
    var r3 := Patch(r2, 13, [Checksum(BlankName())]);
    var r4 := Patch(r3, 14, Repeat(12, 0xff));
    var r5 := Patch(r4, 28, Repeat(4, 0xff));
    var r := LfnRecord(name, j, LFN_CHARS * j, false);
    forall b | 0 <= b < ENTRY_SIZE ensures r5[b] == r[b] {
      NoChars(name, j, b);
      PatchAt(DeletedEntry(), 0, [j + 1], b);
      PatchAt(r0, 1, Repeat(10, 0xff), b);
      PatchAt(r1, 11, [LFN_ATTR], b);
      PatchAt(r2, 13, [Checksum(BlankName())], b);
      PatchAt(r3, 14, Repeat(12, 0xff), b);
      PatchAt(r4, 28, Repeat(4, 0xff), b);
    }
  }

  /** Storing a character changes its own two bytes and no others. */
  lemma {:induction false} CharByte(name: seq<byte>, j: nat, p: nat, i: nat)
    requires p < LFN_CHARS && LFN_CHARS * j + p <= |name| && i < ENTRY_SIZE
    ensures var k := LFN_CHARS * j + p;
      var o := CharOffset(p);
      LfnCharByte(name, j, k + 1, i)
      == if o <= i < o + 2 then LE16(LfnChar(name, k, k + 1))[i - o] else LfnCharByte(name, j, k, i)
  {
    hide LE16;
  }

  /** Storing the next character. */
  lemma {:induction false} RecordChar(name: seq<byte>, j: nat, p: nat)
    requires p < LFN_CHARS && LFN_CHARS * j + p <= |name|
    ensures var k := LFN_CHARS * j + p;
      Patch(LfnRecord(name, j, k, false), CharOffset(p), LE16(LfnChar(name, k, k + 1)))
      == LfnRecord(name, j, k + 1, false)
  {
    hide LE16, Patch, Checksum, LfnCharByte, LfnChar;
    var k := LFN_CHARS * j + p;
    var f := LE16(LfnChar(name, k, k + 1));
    var a, b := Patch(LfnRecord(name, j, k, false), CharOffset(p), f), LfnRecord(name, j, k + 1, false);
    forall i | 0 <= i < ENTRY_SIZE ensures a[i] == b[i] {
      PatchAt(LfnRecord(name, j, k, false), CharOffset(p), f, i);
      CharByte(name, j, p, i);
    }
  }

  /** A record is unaffected by characters stored in later ones. */
  lemma {:induction false} RecordComplete(name: seq<byte>, j: nat, k: nat, k': nat)
    requires LFN_CHARS * (j + 1) <= k <= k' <= |name| + 1
    ensures LfnRecord(name, j, k, false) == LfnRecord(name, j, k', false)
  {
    var a, b := LfnRecord(name, j, k, false), LfnRecord(name, j, k', false);
    forall i | 0 <= i < ENTRY_SIZE ensures a[i] == b[i] {}
  }

  /** Flagging the last record. */
  lemma RecordEnd(name: seq<byte>, j: nat, k: nat)
    requires k <= |name| + 1 && j < 63
    ensures Patch(LfnRecord(name, j, k, false), 0, [j + 1 + LFN_END]) == LfnRecord(name, j, k, true)
  {}

  /** The directory with the 8.3 record in place and `k` characters of the name stored. */
  ghost function Partial(dir: Entries, slot: nat, name: seq<byte>, dos: Entry, k: nat): Entries
    requires LfnCount(name) <= slot < ENTRIES && k <= |name| + 1
  {
    var m := (k + LFN_CHARS - 1) / LFN_CHARS;
    seq(ENTRIES, s requires 0 <= s < ENTRIES =>
      if s == slot then dos
      else if slot - m <= s < slot then LfnRecord(name, slot - 1 - s, k, false)
      else dir[s])
  }

  /** Every entry from `slot` down is free. */
  ghost predicate FreeBelow(dir: Entries, slot: int) {
    forall s :: 0 <= s <= slot && s < ENTRIES ==> dir[s] == DeletedEntry()
  }

  /** The 8.3 record. */
  method WriteDos(data: array<byte>, at: nat, slot: nat, len: nat, attr: byte, cluster: nat,
                  ghost dir: Entries, ghost orig: seq<byte>)
    requires slot < ENTRIES && dir[slot] == DeletedEntry()
    requires Wrote(data, at, Flatten(dir), orig)
    modifies data
    ensures Wrote(data, at, Flatten(dir[slot := DosEntry(len, attr, cluster)]), orig)
  {
    hide Wrote, Flatten;
    ghost var d := dir;
    StoreEntry(data, at, slot, 0, BlankName(), d, orig);
    d := d[slot := Patch(d[slot], 0, BlankName())];
    StoreEntry(data, at, slot, 11, [attr], d, orig);
    d := d[slot := Patch(d[slot], 11, [attr])];
    StoreEntry(data, at, slot, 28, LE32(len), d, orig);
    d := d[slot := Patch(d[slot], 28, LE32(len))];
    StoreEntry(data, at, slot, 20, LE16(cluster / 0x1_0000), d, orig);
    d := d[slot := Patch(d[slot], 20, LE16(cluster / 0x1_0000))];
    StoreEntry(data, at, slot, 26, LE16(cluster % 0x1_0000), d, orig);
    d := d[slot := Patch(d[slot], 26, LE16(cluster % 0x1_0000))];
    StoreEntry(data, at, slot, 16, LE16(0x2821), d, orig);
    d := d[slot := Patch(d[slot], 16, LE16(0x2821))];
    StoreEntry(data, at, slot, 14, LE16(0), d, orig);
    d := d[slot := Patch(d[slot], 14, LE16(0))];
    StoreEntry(data, at, slot, 13, [0], d, orig);
    d := d[slot := Patch(d[slot], 13, [0])];
    StoreEntry(data, at, slot, 24, LE16(0x2821), d, orig);
    d := d[slot := Patch(d[slot], 24, LE16(0x2821))];
    StoreEntry(data, at, slot, 22, LE16(0), d, orig);
    d := d[slot := Patch(d[slot], 22, LE16(0))];
    assert d[slot] == DosEntry(len, attr, cluster);
    assert d == dir[slot := DosEntry(len, attr, cluster)];
  }

  /** The checksum loop over the 8.3 name just stored. */
  method ReadChecksum(data: array<byte>, at: nat, slot: nat, ghost dir: Entries, ghost orig: seq<byte>)
    returns (sum: byte)
    requires slot < ENTRIES && Wrote(data, at, Flatten(dir), orig)
    ensures sum == Checksum(dir[slot][..11])
  {
    sum := 0;
    for i := 0 to 11
      invariant sum == Checksum(dir[slot][..i])
    {
      var b := LoadEntry(data, at, slot, i, dir, orig);
      assert dir[slot][..i + 1][..i] == dir[slot][..i];
      sum := ((sum % 2) * 128 + sum / 2 + b) % 256;
    }
  }

  /** Initialises a free entry as the next long-name record. */
  method InitRecord(data: array<byte>, at: nat, s: nat, sequence: nat, sum: byte, ghost name: seq<byte>,
                    ghost dir: Entries, ghost orig: seq<byte>)
    requires s < ENTRIES && dir[s] == DeletedEntry() && sum == Checksum(BlankName())
    requires 1 <= sequence < 64 && LFN_CHARS * (sequence - 1) <= |name|
    requires Wrote(data, at, Flatten(dir), orig)
    modifies data
    ensures Wrote(data, at,
      Flatten(dir[s := LfnRecord(name, sequence - 1, LFN_CHARS * (sequence - 1), false)]), orig)
  {
    hide Wrote, Flatten, LfnRecord, Checksum;
    ghost var d := dir;
    StoreEntry(data, at, s, 0, [sequence], d, orig);
    d := d[s := Patch(d[s], 0, [sequence])];
    StoreEntry(data, at, s, 1, Repeat(10, 0xff), d, orig);
    d := d[s := Patch(d[s], 1, Repeat(10, 0xff))];
    StoreEntry(data, at, s, 11, [LFN_ATTR], d, orig);
    d := d[s := Patch(d[s], 11, [LFN_ATTR])];
    StoreEntry(data, at, s, 13, [sum], d, orig);
    d := d[s := Patch(d[s], 13, [sum])];
    StoreEntry(data, at, s, 14, Repeat(12, 0xff), d, orig);
    d := d[s := Patch(d[s], 14, Repeat(12, 0xff))];
    StoreEntry(data, at, s, 28, Repeat(4, 0xff), d, orig);
    d := d[s := Patch(d[s], 28, Repeat(4, 0xff))];
    RecordInit(name, sequence - 1);
    assert d == dir[s := LfnRecord(name, sequence - 1, LFN_CHARS * (sequence - 1), false)];
  }

  /** The first characters of a new record go to a free entry; later ones to a started record. */
  lemma PartialCurrent(dir: Entries, slot: nat, name: seq<byte>, dos: Entry, k: nat)
    requires LfnCount(name) <= slot < ENTRIES && k <= |name| && FreeBelow(dir, slot)
    ensures var j, d := k / LFN_CHARS, Partial(dir, slot, name, dos, k);
      && j < slot
      && d[slot - 1 - j] == if k % LFN_CHARS == 0 then DeletedEntry() else LfnRecord(name, j, k, false)
  {}

  lemma PartialStart(dir: Entries, slot: nat, name: seq<byte>, dos: Entry)
    requires LfnCount(name) <= slot < ENTRIES && FreeBelow(dir, slot)
    ensures dir[slot] == DeletedEntry()
    ensures Partial(dir, slot, name, dos, 0) == dir[slot := dos]
  {}

  /** Storing character `k` takes the partial directory to the next one. */
  lemma {:induction false} PartialStep(dir: Entries, slot: nat, name: seq<byte>, dos: Entry, k: nat)
    requires LfnCount(name) <= slot < ENTRIES && k <= |name|
    ensures var j := k / LFN_CHARS;
      Partial(dir, slot, name, dos, k)[slot - 1 - j := LfnRecord(name, j, k + 1, false)]
      == Partial(dir, slot, name, dos, k + 1)
  {
    hide LfnRecord;
    var j := k / LFN_CHARS;
    var a := Partial(dir, slot, name, dos, k)[slot - 1 - j := LfnRecord(name, j, k + 1, false)];
    var b := Partial(dir, slot, name, dos, k + 1);
    forall s | 0 <= s < ENTRIES ensures a[s] == b[s] {
      if slot - 1 - j < s < slot {
        RecordComplete(name, slot - 1 - s, k, k + 1);
      }
    }
  }

  lemma PartialLast(dir: Entries, slot: nat, name: seq<byte>, dos: Entry)
    requires LfnCount(name) <= slot < ENTRIES
    ensures Partial(dir, slot, name, dos, |name| + 1)[slot - LfnCount(name)]
         == LfnRecord(name, LfnCount(name) - 1, |name| + 1, false)
  {}

  lemma {:induction false} PartialDone(dir: Entries, slot: nat, name: seq<byte>, len: nat, attr: byte, cluster: nat)
    requires LfnCount(name) <= slot < ENTRIES
    ensures var m, dos := LfnCount(name), DosEntry(len, attr, cluster);
      Partial(dir, slot, name, dos, |name| + 1)[slot - m := LfnRecord(name, m - 1, |name| + 1, true)]
      == Place(dir, slot, name, len, attr, cluster)
  {
    hide LfnRecord, DosEntry;
    var m, dos := LfnCount(name), DosEntry(len, attr, cluster);
    var a := Partial(dir, slot, name, dos, |name| + 1)[slot - m := LfnRecord(name, m - 1, |name| + 1, true)];
    var b := Place(dir, slot, name, len, attr, cluster);
    forall s | 0 <= s < ENTRIES ensures a[s] == b[s] {}
  }

  lemma AttrTells(name: seq<byte>, j: nat, k: nat)
    requires k <= |name| + 1
    ensures DeletedEntry()[11] != LFN_ATTR && LfnRecord(name, j, k, false)[11] == LFN_ATTR
  {}

  /** Stores one character, starting a new record when the previous one is full. */
  method StoreChar(data: array<byte>, at: nat, slot: nat, name: seq<byte>, k: nat, lfn: nat, off: nat,
                   sequence: nat, sum: byte, ghost dos: Entry, ghost dir: Entries, ghost orig: seq<byte>)
    returns (sequence': nat)
    requires LfnCount(name) <= slot < ENTRIES && FreeBelow(dir, slot) && k <= |name|
    requires lfn == slot - 1 - k / LFN_CHARS && off == CharOffset(k % LFN_CHARS)
    requires sequence == 1 + (k + LFN_CHARS - 1) / LFN_CHARS && sum == Checksum(BlankName())
    requires Wrote(data, at, Flatten(Partial(dir, slot, name, dos, k)), orig)
    modifies data
    ensures Wrote(data, at, Flatten(Partial(dir, slot, name, dos, k + 1)), orig)
    ensures sequence' == 1 + k / LFN_CHARS + 1
  {
    hide Wrote, Flatten, LfnRecord, Checksum, DeletedEntry, BlankName, Partial, FreeBelow, Patch, LE16;
    ghost var d := Partial(dir, slot, name, dos, k);
    ghost var j := k / LFN_CHARS;
    PartialCurrent(dir, slot, name, dos, k);
    AttrTells(name, j, k);
    var a := LoadEntry(data, at, lfn, 11, d, orig);
    sequence' := sequence;
    if a != LFN_ATTR {
      InitRecord(data, at, lfn, sequence, sum, name, d, orig);
      d := d[lfn := LfnRecord(name, j, k, false)];
      sequence' := sequence + 1;
    }
    var c := if k < |name| then SignExtended(name[k]) else 0;
    StoreEntry(data, at, lfn, off, LE16(c), d, orig);
    RecordChar(name, j, k % LFN_CHARS);
    assert d[lfn := LfnRecord(name, j, k + 1, false)]
        == Partial(dir, slot, name, dos, k)[lfn := LfnRecord(name, j, k + 1, false)];
    PartialStep(dir, slot, name, dos, k);
  }

  lemma DosNameIsBlank(len: nat, attr: byte, cluster: nat)
    ensures DosEntry(len, attr, cluster)[..11] == BlankName()
  {}

  lemma SequenceByte(name: seq<byte>, j: nat)
    requires j < 63
    ensures LfnRecord(name, j, |name| + 1, false)[0] == j + 1
  {}

  /**
   Constructs a directory entry at `slot` and below. `name` is the string up to its NUL; a C
   char is signed, so storing one in 16 bits extends its sign.
   */
  method DirectoryEntry(data: array<byte>, at: nat, slot: nat, name: seq<byte>, len: nat, attr: byte,
                        cluster: nat, ghost dir: Entries, ghost orig: seq<byte>) returns (next: int)
    requires LfnCount(name) <= slot < ENTRIES && FreeBelow(dir, slot)
    requires forall i :: 0 <= i < |name| ==> name[i] != 0
    requires Wrote(data, at, Flatten(dir), orig)
    modifies data
    ensures Wrote(data, at, Flatten(Place(dir, slot, name, len, attr, cluster)), orig)
    ensures next == slot - 1 - LfnCount(name)
  {
    hide Wrote, Flatten, LfnRecord, Checksum, DosEntry, Place, DeletedEntry, BlankName, Patch, FreeBelow;
    ghost var dos := DosEntry(len, attr, cluster);
    PartialStart(dir, slot, name, dos);
    WriteDos(data, at, slot, len, attr, cluster, dir, orig);
    DosNameIsBlank(len, attr, cluster);
    var sum := ReadChecksum(data, at, slot, dir[slot := dos], orig);

    var lfn, off, sequence, k := slot - 1, 1, 1, 0;
    while true
      invariant k <= |name| && lfn == slot - 1 - k / LFN_CHARS && off == CharOffset(k % LFN_CHARS)
      invariant sequence == 1 + (k + LFN_CHARS - 1) / LFN_CHARS
      invariant Wrote(data, at, Flatten(Partial(dir, slot, name, dos, k)), orig)
      decreases |name| - k
    {
      var c := if k < |name| then SignExtended(name[k]) else 0;
      sequence := StoreChar(data, at, slot, name, k, lfn, off, sequence, sum, dos, dir, orig);
      k := k + 1;
      if c == 0 {
        break;
      }
      if off == 9 {
        off := 14;
      } else if off == 24 {
        off := 28;
      } else if off == 30 {
        lfn := lfn - 1;
        off := 1;
      } else {
        off := off + 2;
      }
    }
    ghost var d, m := Partial(dir, slot, name, dos, |name| + 1), LfnCount(name);
    PartialLast(dir, slot, name, dos);
    SequenceByte(name, m - 1);
    var s := LoadEntry(data, at, lfn, 0, d, orig);
    StoreEntry(data, at, lfn, 0, [s + LFN_END], d, orig);
    RecordEnd(name, m - 1, |name| + 1);
    PartialDone(dir, slot, name, len, attr, cluster);
    next := lfn - 1;
  }
}
