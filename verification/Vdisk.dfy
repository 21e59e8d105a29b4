/** The virtual disk of libnt/vdisk.c as it runs: the file table, the builders, `vdisk_read`. */
module Vdisk {
  import opened Arith
  import opened VdiskLayout
  import opened VdiskSectors
  import opened VdiskBuffer
  import opened VdiskDirectory
  import opened VdiskRead

  /** Directory names are stored from ASCII C strings. */
  predicate CName(file: File) {
    file.Present? ==> forall i :: 0 <= i < |file.name| ==> file.name[i] != 0
  }

  // ------------------------------------------------ FAT entries in a buffer

  /** Entry `k` of the bytes being built. */
  function EntryAt(s: seq<byte>, k: nat): nat {
    if 4 * k + 4 <= |s| then U32(s, 4 * k) else 0
  }

  lemma {:induction false} StoreEntryAt(s: seq<byte>, k: nat, v: nat, k': nat)
    requires 4 * k + 4 <= |s| && v < 0x1_0000_0000
    ensures EntryAt(Patch(s, 4 * k, LE32(v)), k') == if k' == k then v else EntryAt(s, k')
  {
    var r := Patch(s, 4 * k, LE32(v));
    if k' == k {
      ReadsBack(r, 4 * k, v);
    }
  }

  lemma {:induction false} EntryBytes(s: seq<byte>, k: nat, b: nat)
    requires 4 * k + 4 <= |s| && b < 4
    ensures s[4 * k + b] == LE32(EntryAt(s, k))[b]
  {
    hide LE32, U32;
    BytesOfU32(s, 4 * k);
    assert s[4 * k + b] == s[4 * k..4 * k + 4][b];
  }

  /** The entry of cluster `c` once the first `n` file slots have been marked. */
  ghost function Marked(files: Table, n: nat, c: nat): nat
    requires n <= MAX_FILES
  {
    if c < ENTRIES_PER_SECTOR || EndsFile(files, n, c) then FAT_END_MARKER else c + 1
  }

  /** The first `m` entries are those of clusters `start` on, `n` file slots marked. */
  ghost predicate EntriesMarked(s: seq<byte>, files: Table, n: nat, start: nat, m: nat)
    requires n <= MAX_FILES
  {
    4 * m <= |s| && forall k :: 0 <= k < m ==> EntryAt(s, k) == Marked(files, n, start + k)
  }

  lemma {:induction false} FatSectorAt(files: Table, lba: nat)
    requires FAT_LBA <= lba < FAT_LBA + SECTORS_PER_FAT
    ensures SectorAt(files, lba) == FatSector(files, lba - FAT_LBA)
  {
    hide FatSector;
    assert InRegion(4, lba);
    RegionSector(files, 4, lba);
  }

  lemma {:induction false} FatSectorBytes(files: Table, lba: nat, count: nat, s: seq<byte>, n: nat)
    requires FAT_LBA <= lba && n < count && |s| == count * SECTOR_SIZE
    requires EntriesMarked(s, files, MAX_FILES, (lba - FAT_LBA) * ENTRIES_PER_SECTOR, count * ENTRIES_PER_SECTOR)
    ensures s[n * SECTOR_SIZE..(n + 1) * SECTOR_SIZE] == FatSector(files, lba + n - FAT_LBA)
  {
    hide LE32, EndsFile, EntryAt;
    var t, f := s[n * SECTOR_SIZE..(n + 1) * SECTOR_SIZE], FatSector(files, lba + n - FAT_LBA);
    var start := (lba - FAT_LBA) * ENTRIES_PER_SECTOR;
    forall b | 0 <= b < SECTOR_SIZE ensures t[b] == f[b] {
      var k := n * ENTRIES_PER_SECTOR + b / 4;
      EntryBytes(s, k, b % 4);
      assert EntryAt(s, k) == Marked(files, MAX_FILES, start + k);
      assert t[b] == s[4 * k + b % 4];
      assert start + k == (lba + n - FAT_LBA) * ENTRIES_PER_SECTOR + b / 4;
    }
  }

  /** A buffer of marked entries is a run of FAT sectors. */
  lemma {:induction false} FatSectors(files: Table, lba: nat, count: nat, s: seq<byte>)
    requires FAT_LBA <= lba && lba + count <= FAT_LBA + SECTORS_PER_FAT && |s| == count * SECTOR_SIZE
    requires EntriesMarked(s, files, MAX_FILES, (lba - FAT_LBA) * ENTRIES_PER_SECTOR, count * ENTRIES_PER_SECTOR)
    ensures s == SectorsAt(files, lba, count)
  {
    hide LE32, EndsFile, EntriesMarked, FatSector, SectorAt;
    forall n | 0 <= n < count ensures s[n * SECTOR_SIZE..(n + 1) * SECTOR_SIZE] == SectorAt(files, lba + n) {
      FatSectorBytes(files, lba, count, s, n);
      FatSectorAt(files, lba + n);
    }
    SectorsFromParts(files, lba, count, s);
  }

  // ------------------------------------------------------- directory sectors

  lemma {:induction false} StillFree(dir: Entries, slot: nat, name: seq<byte>, len: nat, attr: byte, cluster: nat)
    requires LfnCount(name) <= slot < ENTRIES && FreeBelow(dir, slot)
    ensures FreeBelow(Place(dir, slot, name, len, attr, cluster), slot - 1 - LfnCount(name))
  {
    hide DosEntry, LfnRecord, DeletedEntry;
  }

  lemma SubdirNames(k: nat)
    ensures forall i :: 0 <= i < |Subdirs(k)| ==>
      forall j :: 0 <= j < |Subdirs(k)[i].name| ==> Subdirs(k)[i].name[j] != 0
  {}

  // ----------------------------------------------------------------- the disk

  lemma NoRegionEmpty(r: int)
    requires r < REGIONS
    ensures r >= 0 ==> RegionAt(r).build != EmptyBuilder
  {}

  lemma WroteFirst(data: array<byte>, bytes: seq<byte>, n: nat, orig: seq<byte>)
    requires Wrote(data, 0, bytes, orig) && n == |bytes|
    ensures n <= data.Length == |orig| && data[..n] == bytes && data[n..] == orig[n..]
  {}

  lemma NoneMarked(files: Table, c: nat)
    ensures Marked(files, 0, c) == if c < ENTRIES_PER_SECTOR then FAT_END_MARKER else c + 1
  {}

  lemma {:induction false} EndsNext(files: Table, i: nat, c: nat)
    requires i < MAX_FILES
    ensures EndsFile(files, i + 1, c)
      <==> EndsFile(files, i, c) || (files[i].Present? && EndCluster(i, files[i].xlen) == c)
  {
    hide EndCluster;
    if EndsFile(files, i + 1, c) {
      var j :| 0 <= j < i + 1 && files[j].Present? && EndCluster(j, files[j].xlen) == c;
      assert j < i || j == i;
    }
  }

  /** Marking slot `i` extends the marked entries. */
  lemma {:induction false} MarkOne(files: Table, i: nat, start: nat, n: nat, before: seq<byte>, after: seq<byte>)
    requires i < MAX_FILES && |before| == 4 * n && EntriesMarked(before, files, i, start, n)
    requires var marker := if files[i].Present? then EndCluster(i, files[i].xlen) else 0;
      if files[i].Present? && start <= marker < start + n
      then after == Patch(before, 4 * (marker - start), LE32(FAT_END_MARKER))
      else after == before
    ensures EntriesMarked(after, files, i + 1, start, n)
  {
    hide LE32, EntryAt, Patch, EndCluster, EndsFile;
    forall k | 0 <= k < n ensures EntryAt(after, k) == Marked(files, i + 1, start + k) {
      EndsNext(files, i, start + k);
      assert EntryAt(before, k) == Marked(files, i, start + k);
      if files[i].Present? && start <= EndCluster(i, files[i].xlen) < start + n {
        StoreEntryAt(before, EndCluster(i, files[i].xlen) - start, FAT_END_MARKER, k);
      }
    }
  }

  lemma EmptyIsFree()
    ensures FreeBelow(EmptyDir(), ENTRIES - 1)
  {}

  lemma WroteContents(data: array<byte>, at: nat, bytes: seq<byte>, orig: seq<byte>)
    requires Wrote(data, at, bytes, orig)
    ensures |orig| == data.Length && at + |bytes| <= |orig|
    ensures data[..] == orig[..at] + bytes + orig[at + |bytes|..]
  {}

  /** Appends `b` to what has been built. */
  lemma {:induction false} Extend(data: array<byte>, at: nat, a: seq<byte>, b: seq<byte>, orig: seq<byte>,
                                  mid: seq<byte>)
    requires at + |a| + |b| <= |orig| == |mid|
    requires mid == orig[..at] + a + orig[at + |a|..]
    requires Wrote(data, at + |a|, b, mid)
    ensures Wrote(data, at, a + b, orig)
  {
    WroteAppend(data, at, a, b, orig, mid);
  }

  /** Past its content a file reads as zeros. */
  lemma {:induction false} PaddedBytes(file: File, offset: nat, copyLen: nat, len: nat)
    requires copyLen <= len
    requires copyLen < len ==> !file.Present? || offset + copyLen >= |file.content|
    ensures FileBytes(file, offset, copyLen) + Repeat(len - copyLen, 0) == FileBytes(file, offset, len)
  {
    hide FileBytes;
    var a, b := FileBytes(file, offset, copyLen) + Repeat(len - copyLen, 0), FileBytes(file, offset, len);
    forall i | 0 <= i < len ensures a[i] == b[i] {
      if i < copyLen {
        assert a[i] == FileBytes(file, offset, copyLen)[i];
      }
    }
  }

  lemma NothingRead(files: Table, lba: nat, data: array<byte>)
    ensures Wrote(data, 0, ReadRun(files, lba, lba, 0), data[..])
  {}

  lemma NoSectors(files: Table, base: nat, lba: nat)
    ensures ReadRun(files, base, lba, 0) == SectorsAt(files, lba, 0) == []
  {}

  lemma {:induction false} BeyondFiles(files: Table, lba: nat, count: nat)
    requires FileIdx(lba) >= MAX_FILES
    ensures SectorsAt(files, lba, count) == Repeat(count * SECTOR_SIZE, 0)
  {
    forall l | lba <= l < lba + count ensures SectorAt(files, l) == ZeroSector() {}
    EmptySectors(files, lba, count);
  }

  class Disk {
    const files: array<File>
    var index: nat

    ghost predicate Valid()
      reads this, files
    {
      && files.Length == MAX_FILES && index <= MAX_FILES
      && (forall i :: 0 <= i < MAX_FILES ==> Named(files[i]) && CName(files[i]))
      && (forall i :: index <= i < MAX_FILES ==> files[i] == Absent)
    }

    constructor ()
      ensures Valid() && index == 0 && fresh(files)
      ensures files[..] == NoFiles()
    {
      files := new File[MAX_FILES](_ => Absent);
      index := 0;
    }

    ghost function Files(): Table
      requires Valid()
      reads this, files
    {
      files[..]
    }

    /** Adds a file under the first 31 bytes of its name; a full table is left alone. */
    method AddFile(name: seq<byte>, content: seq<byte>) returns (ok: bool)
      requires Valid() && forall i :: 0 <= i < |name| ==> name[i] != 0
      modifies this, files
      ensures Valid() && ok == (old(index) < MAX_FILES)
      ensures ok ==> index == old(index) + 1
      ensures ok ==> Files() == old(Files())[old(index) := Present(name[..Min(NAME_LEN, |name|)], content, |content|)]
      ensures !ok ==> index == old(index) && Files() == old(Files())
    {
      if index >= MAX_FILES {
        return false;
      }
      files[index] := Present(name[..Min(NAME_LEN, |name|)], content, |content|);
      index := index + 1;
      ok := true;
    }

    // ------------------------------------------------------------ builders

    /** Stores a field and tracks the bytes built so far. */
    method Put(data: array<byte>, at: nat, o: nat, field: seq<byte>, ghost s: seq<byte>, ghost orig: seq<byte>)
      returns (ghost s': seq<byte>)
      requires Wrote(data, at, s, orig) && o + |field| <= |s|
      modifies data
      ensures s' == Patch(s, o, field) && Wrote(data, at, s', orig)
    {
      Store(data, at, o, field, s, orig);
      s' := Patch(s, o, field);
    }

    method BuildMbr(data: array<byte>, at: nat, ghost orig: seq<byte>)
      requires data[..] == orig && at + SECTOR_SIZE <= data.Length
      modifies data
      ensures Wrote(data, at, Mbr(), orig)
    {
      hide Wrote, Patch, LE32, LE16;
      Memset(data, at, SECTOR_SIZE, 0, orig);
      ghost var s := ZeroSector();
      s := Put(data, at, MBR_PARTITION, [0x80], s, orig);
      s := Put(data, at, MBR_PARTITION + 4, [0x0c], s, orig);
      s := Put(data, at, MBR_PARTITION + 8, LE32(PARTITION_LBA), s, orig);
      s := Put(data, at, MBR_PARTITION + 12, LE32(PARTITION_COUNT), s, orig);
      s := Put(data, at, 440, LE32(0x1453_0529), s, orig);
      s := Put(data, at, 510, LE16(0xaa55), s, orig);
    }

    /** The fields of the boot record up to its geometry. */
    method PutGeometry(data: array<byte>, at: nat, ghost orig: seq<byte>)
      requires data[..] == orig && at + SECTOR_SIZE <= data.Length
      modifies data
      ensures Wrote(data, at, VbrGeometry(), orig)
    {
      hide Wrote, Patch, LE32, LE16;
      Memset(data, at, SECTOR_SIZE, 0, orig);
      ghost var s := ZeroSector();
      s := Put(data, at, 0, [0xe9], s, orig);
      s := Put(data, at, 3, OEM_ID, s, orig);
      s := Put(data, at, 11, LE16(SECTOR_SIZE), s, orig);
      s := Put(data, at, 13, [CLUSTER_COUNT], s, orig);
      s := Put(data, at, 14, LE16(RESERVED_COUNT), s, orig);
      s := Put(data, at, 16, [1], s, orig);
      s := Put(data, at, 21, [0xf8], s, orig);
      s := Put(data, at, 24, LE16(63), s, orig);
      s := Put(data, at, 26, LE16(255), s, orig);
    }

    method BuildVbr(data: array<byte>, at: nat, ghost orig: seq<byte>)
      requires data[..] == orig && at + SECTOR_SIZE <= data.Length
      modifies data
      ensures Wrote(data, at, Vbr(), orig)
    {
      hide Wrote, Patch, LE32, LE16, VbrGeometry;
      PutGeometry(data, at, orig);
      ghost var s := VbrGeometry();
      s := Put(data, at, 28, LE32(VBR_LBA), s, orig);
      s := Put(data, at, 32, LE32(PARTITION_COUNT), s, orig);
      s := Put(data, at, 36, LE32(SECTORS_PER_FAT), s, orig);
      s := Put(data, at, 44, LE32(ROOT_CLUSTER), s, orig);
      s := Put(data, at, 48, LE16(1), s, orig);
      s := Put(data, at, 50, LE16(6), s, orig);
      s := Put(data, at, 66, [0x29], s, orig);
      s := Put(data, at, 67, LE32(0xdead_c0de), s, orig);
      s := Put(data, at, 71, LABEL, s, orig);
      s := Put(data, at, 82, SYSTEM, s, orig);
      s := Put(data, at, 510, LE16(0xaa55), s, orig);
    }

    method BuildFsInfo(data: array<byte>, at: nat, ghost orig: seq<byte>)
      requires data[..] == orig && at + SECTOR_SIZE <= data.Length
      modifies data
      ensures Wrote(data, at, FsInfo(), orig)
    {
      hide Wrote, Patch, LE32, LE16;
      Memset(data, at, SECTOR_SIZE, 0, orig);
      ghost var s := ZeroSector();
      s := Put(data, at, 0, LE32(0x4161_5252), s, orig);
      s := Put(data, at, 484, LE32(0x6141_7272), s, orig);
      s := Put(data, at, 492, LE32(0xffff_ffff), s, orig);
      s := Put(data, at, 508, LE32(0xaa55_0000), s, orig);
    }

    method ChainAll(start: nat, n: nat, data: array<byte>, at: nat, ghost s: seq<byte>, ghost orig: seq<byte>)
      returns (ghost s': seq<byte>)
      requires Wrote(data, at, s, orig) && |s| == 4 * n && start + n < 0x1_0000_0000
      modifies data
      ensures Wrote(data, at, s', orig) && |s'| == 4 * n
      ensures forall k :: 0 <= k < n ==> EntryAt(s', k) == start + k + 1
    {
      hide Wrote, LE32, EntryAt, Patch;
      s' := s;
      var i := 0;
      while i < n
        invariant i <= n && Wrote(data, at, s', orig) && |s'| == 4 * n
        invariant forall k :: 0 <= k < i ==> EntryAt(s', k) == start + k + 1
      {
        ghost var before := s';
        s' := Put(data, at, 4 * i, LE32(start + i + 1), s', orig);
        forall k | 0 <= k < i + 1 ensures EntryAt(s', k) == start + k + 1 {
          StoreEntryAt(before, i, start + i + 1, k);
        }
        i := i + 1;
      }
    }

    method MarkFirstSector(n: nat, data: array<byte>, at: nat, ghost s: seq<byte>, ghost orig: seq<byte>)
      returns (ghost s': seq<byte>)
      requires Wrote(data, at, s, orig) && |s| == 4 * n && n >= ENTRIES_PER_SECTOR
      requires forall k :: 0 <= k < n ==> EntryAt(s, k) == k + 1
      modifies data
      ensures Wrote(data, at, s', orig) && |s'| == 4 * n
      ensures forall k :: 0 <= k < n ==> EntryAt(s', k) == if k < ENTRIES_PER_SECTOR then FAT_END_MARKER else k + 1
    {
      hide Wrote, LE32, EntryAt, Patch;
      s' := s;
      var i := 0;
      while i < ENTRIES_PER_SECTOR
        invariant i <= ENTRIES_PER_SECTOR && Wrote(data, at, s', orig) && |s'| == 4 * n
        invariant forall k :: 0 <= k < n ==> EntryAt(s', k) == if k < i then FAT_END_MARKER else k + 1
      {
        ghost var before := s';
        // Entry 0 carries the media byte, which makes it the end marker as well.
        s' := Put(data, at, 4 * i,
                  LE32(if i == 0 then FAT_END_MARKER / 256 * 256 + 0xf8 else FAT_END_MARKER), s', orig);
        forall k | 0 <= k < n ensures EntryAt(s', k) == if k < i + 1 then FAT_END_MARKER else k + 1 {
          StoreEntryAt(before, i, FAT_END_MARKER, k);
        }
        i := i + 1;
      }
    }

    /** A window of the file allocation table. */
    method BuildFat(lba: nat, count: nat, data: array<byte>, at: nat, ghost orig: seq<byte>)
      requires Valid() && data[..] == orig && at + count * SECTOR_SIZE <= data.Length
      requires FAT_LBA <= lba && lba + count <= FAT_LBA + SECTORS_PER_FAT
      requires lba == FAT_LBA ==> count > 0
      modifies data
      ensures files[..] == old(files[..])
      ensures Wrote(data, at, SectorsAt(files[..], lba, count), orig)
    {
      hide Wrote, LE32, EntryAt, SectorsAt, EndsFile, Patch;
      var start := (lba - FAT_LBA) * ENTRIES_PER_SECTOR;
      var n := count * ENTRIES_PER_SECTOR;
      ghost var s := orig[at..at + count * SECTOR_SIZE];
      WroteNothing(data, at, count * SECTOR_SIZE);
      s := ChainAll(start, n, data, at, s, orig);
      if start == 0 {
        s := MarkFirstSector(n, data, at, s, orig);
      }
      forall k | 0 <= k < n ensures EntryAt(s, k) == Marked(files[..], 0, start + k) {
        NoneMarked(files[..], start + k);
      }
      var i := 0;
      while i < MAX_FILES
        invariant i <= MAX_FILES && files[..] == old(files[..])
        invariant Wrote(data, at, s, orig) && |s| == count * SECTOR_SIZE
        invariant EntriesMarked(s, files[..], i, start, n)
      {
        ghost var before := s;
        if files[i].Present? {
          var marker := EndCluster(i, files[i].xlen);
          if marker >= start && marker < start + n {
            s := Put(data, at, 4 * (marker - start), LE32(FAT_END_MARKER), s, orig);
          }
        }
        MarkOne(files[..], i, start, n, before, s);
        i := i + 1;
      }
      FatSectors(files[..], lba, count, s);
    }

    /** The sector of a directory's subdirectories. */
    method BuildSubdirs(k: nat, data: array<byte>, at: nat, ghost orig: seq<byte>)
      requires data[..] == orig && at + SECTOR_SIZE <= data.Length
      modifies data
      ensures Wrote(data, at, SubdirSector(k), orig)
    {
      hide Wrote, Flatten, Place, FreeBelow;
      EmptyDirectory(data, at, orig);
      SubdirsFit(k);
      SubdirNames(k);
      EmptyIsFree();
      var subdirs, i, slot := Subdirs(k), 0, ENTRIES - 1;
      ghost var dir: Entries := EmptyDir();
      while i < |subdirs|
        invariant i <= |subdirs| && slot < ENTRIES
        invariant FitsBelow(subdirs[i..], slot) && FreeBelow(dir, slot)
        invariant PlaceAll(dir, slot, subdirs[i..]) == PlaceAll(EmptyDir(), ENTRIES - 1, subdirs)
        invariant Wrote(data, at, Flatten(dir), orig)
      {
        var d := subdirs[i];
        assert subdirs[i..][1..] == subdirs[i + 1..];
        StillFree(dir, slot, d.name, 0, DIRECTORY, d.cluster);
        ghost var before := dir;
        dir := Place(dir, slot, d.name, 0, DIRECTORY, d.cluster);
        slot := DirectoryEntry(data, at, slot, d.name, 0, DIRECTORY, d.cluster, before, orig);
        i := i + 1;
      }
    }

    method BuildDirent(idx: nat, data: array<byte>, at: nat, ghost orig: seq<byte>)
      requires Valid() && data[..] == orig && at + SECTOR_SIZE <= data.Length && idx < MAX_FILES
      modifies data
      ensures files[..] == old(files[..])
      ensures Wrote(data, at, DirentSector(files[idx], idx), orig)
    {
      hide Wrote, Flatten, Place, FreeBelow;
      EmptyDirectory(data, at, orig);
      EmptyIsFree();
      var file := files[idx];
      if file.Present? {
        var next := DirectoryEntry(data, at, ENTRIES - 1, file.name, file.xlen, READ_ONLY, FileCluster(idx), EmptyDir(),
                                   orig);
      }
    }

    /** Directory sectors that announce file slots, one each. */
    method BuildDirFiles(lba: nat, count: nat, data: array<byte>, at: nat, ghost orig: seq<byte>)
      requires Valid() && data[..] == orig && at + count * SECTOR_SIZE <= data.Length && lba > 0
      requires forall l :: lba <= l < lba + count ==>
        FileDirentIdx(l) < MAX_FILES
        && SectorAt(files[..], l) == DirentSector(files[FileDirentIdx(l)], FileDirentIdx(l))
      modifies data
      ensures files[..] == old(files[..])
      ensures Wrote(data, at, SectorsAt(files[..], lba, count), orig)
    {
      hide Wrote, SectorAt, DirentSector;
      var i := 0;
      WroteNothing(data, at, 0);
      while i < count
        invariant i <= count && files[..] == old(files[..])
        invariant Wrote(data, at, SectorsAt(files[..], lba, i), orig)
      {
        ghost var mid := data[..];
        WroteContents(data, at, SectorsAt(files[..], lba, i), orig);
        var idx := FileDirentIdx(lba + i);
        assert SectorAt(files[..], lba + i) == DirentSector(files[idx], idx);
        assert idx < MAX_FILES;
        BuildDirent(idx, data, at + i * SECTOR_SIZE, mid);
        Extend(data, at, SectorsAt(files[..], lba, i), SectorAt(files[..], lba + i), orig, mid);
        i := i + 1;
      }
    }

    /** The file's read method: bytes `offset` on of its content. */
    method CopyContent(file: File, offset: nat, n: nat, data: array<byte>, at: nat, ghost orig: seq<byte>)
      requires file.Present? && offset + n <= |file.content|
      requires data[..] == orig && at + n <= data.Length
      modifies data
      ensures Wrote(data, at, FileBytes(file, offset, n), orig)
    {
      hide FileBytes;
      var i := 0;
      while i < n
        invariant i <= n && data.Length == |orig|
        invariant forall b :: 0 <= b < |orig| ==>
          data[b] == if at <= b < at + i then file.content[offset + b - at] else orig[b]
      {
        data[at + i] := file.content[offset + i];
        i := i + 1;
      }
      assert data[..] == orig[..at] + FileBytes(file, offset, n) + orig[at + n..];
    }

    /** Sectors of one file slot: its content, then zeros. */
    method BuildFile(lba: nat, count: nat, data: array<byte>, at: nat, ghost orig: seq<byte>)
      requires Valid() && data[..] == orig && at + count * SECTOR_SIZE <= data.Length
      requires 0 <= FileIdx(lba) < MAX_FILES && lba + count <= FileLba(FileIdx(lba) + 1)
      modifies data
      ensures files[..] == old(files[..])
      ensures Wrote(data, at, SectorsAt(files[..], lba, count), orig)
    {
      hide Wrote, SectorsAt, FileBytes;
      var file := files[FileIdx(lba)];
      var offset, len := FileOffset(lba), count * SECTOR_SIZE;
      var flen := if file.Present? then |file.content| else 0;
      var copyLen := if offset < flen then flen - offset else 0;
      if copyLen > len {
        copyLen := len;
      }
      WroteNothing(data, at, 0);
      assert data[at..at] == FileBytes(file, offset, 0);
      if copyLen > 0 {
        CopyContent(file, offset, copyLen, data, at, orig);
      }
      ghost var mid := data[..];
      WroteContents(data, at, FileBytes(file, offset, copyLen), orig);
      Memset(data, at + copyLen, len - copyLen, 0, mid);
      PaddedBytes(file, offset, copyLen, len);
      Extend(data, at, FileBytes(file, offset, copyLen), Repeat(len - copyLen, 0), orig, mid);
      FileSectors(files[..], FileIdx(lba), lba, count);
    }

    // ------------------------------------------------------------ vdisk_read

    /** Truncates a fragment to one region or to the gap before the next, searching the region table. */
    method FindRegion(start: nat, limit: nat) returns (end: nat, build: Builder, ghost r: int)
      requires start <= limit
      ensures start <= end <= limit && (start < limit ==> start < end)
      ensures end == limit || end < FILE_COUNT
      ensures r < REGIONS
      ensures r >= 0 ==> build == RegionAt(r).build && RegionAt(r).lba <= start
      ensures r >= 0 ==> end <= RegionAt(r).lba + RegionAt(r).count && (start == end ==> RegionAt(r).lba < start)
      ensures r >= 0 ==> start < RegionAt(r).lba + RegionAt(r).count
      ensures r < 0 ==> build == EmptyBuilder
      ensures r < 0 ==> forall j, l :: 0 <= j < REGIONS && start <= l < end ==> !InRegion(j, l)
    {
      end, build, r := limit, EmptyBuilder, -1;
      var i := 0;
      while i < REGIONS
        invariant i <= REGIONS && start <= end <= limit && (start < limit ==> start < end)
        invariant end == limit || end < FILE_COUNT
        invariant r == -1 && build == EmptyBuilder
        invariant forall j :: 0 <= j < i ==> end <= RegionAt(j).lba || start >= RegionAt(j).lba + RegionAt(j).count
      {
        var region := RegionAt(i);
        RegionsBelowFiles(i);
        var regionStart, regionEnd := region.lba, region.lba + region.count;
        if start < regionStart && end > regionStart {
          end := regionStart;
        }
        if !(start >= regionEnd || end <= regionStart) {
          if end > regionEnd {
            end := regionEnd;
          }
          build, r := region.build, i;
          return;
        }
        i := i + 1;
      }
    }

    /** Builds a fragment that lies within region `r`. */
    method BuildRegion(ghost r: nat, build: Builder, lba: nat, count: nat, data: array<byte>, at: nat,
                       ghost orig: seq<byte>)
      requires Valid() && data[..] == orig && at + count * SECTOR_SIZE <= data.Length
      requires r < REGIONS && build == RegionAt(r).build && RegionAt(r).lba <= lba
      requires lba + count <= RegionAt(r).lba + RegionAt(r).count && lba < RegionAt(r).lba + RegionAt(r).count
      requires count == 0 ==> RegionAt(r).lba < lba
      modifies data
      ensures files[..] == old(files[..])
      ensures Wrote(data, at, SectorsAt(files[..], lba, count), orig)
    {
      hide Wrote, SectorAt, SectorsAt, DirentSector, SubdirSector, Mbr, Vbr, FsInfo, FatSector, FileSector;
      ghost var t := files[..];
      RegionSector(t, r, lba);
      OneSector(t, lba);
      match build {
        case MbrBuilder => BuildMbr(data, at, orig);
        case VbrBuilder => BuildVbr(data, at, orig);
        case FsInfoBuilder => BuildFsInfo(data, at, orig);
        case FatBuilder => BuildFat(lba, count, data, at, orig);
        case SubdirBuilder(k) => BuildSubdirs(k, data, at, orig);
        case DirFilesBuilder =>
          forall l | lba <= l < lba + count
            ensures FileDirentIdx(l) < MAX_FILES
            ensures SectorAt(t, l) == DirentSector(t[FileDirentIdx(l)], FileDirentIdx(l))
          {
            RegionSector(t, r, l);
          }
          BuildDirFiles(lba, count, data, at, orig);
      }
    }

    /** A fragment at or above the files: one file slot, or nothing beyond the last. */
    method BuildFileFragment(ghost base: nat, start: nat, count: nat, data: array<byte>, at: nat,
                             ghost t: Table, ghost orig: seq<byte>)
      requires Valid() && Files() == t && data[..] == orig && at + count * SECTOR_SIZE <= data.Length
      requires FileIdx(start) >= 0 && start + count <= FileLba(FileIdx(start) + 1)
      requires base >= FILE_COUNT || count == 0
      modifies data
      ensures Valid() && Files() == t
      ensures Wrote(data, at, ReadRun(t, base, start, count), orig)
    {
      hide Wrote, SectorAt, SectorsAt, ReadRun, FileBytes;
      if FileIdx(start) < MAX_FILES {
        BuildFile(start, count, data, at, orig);
      } else {
        Memset(data, at, count * SECTOR_SIZE, 0, orig);
        BeyondFiles(t, start, count);
      }
      if base >= FILE_COUNT {
        ReadRunIsSectors(t, base, start, count);
      } else {
        NoSectors(t, base, start);
      }
    }

    /** A fragment below the files: within one region, or the gap before the next, which may run on to `end`. */
    method BuildRegionFragment(ghost base: nat, start: nat, end: nat, data: array<byte>, at: nat,
                               ghost t: Table, ghost orig: seq<byte>) returns (count: nat)
      requires Valid() && Files() == t && data[..] == orig && base <= start <= end && start < FILE_COUNT
      requires at + (end - start) * SECTOR_SIZE <= data.Length
      modifies data
      ensures Valid() && Files() == t
      ensures start + count <= end && (start < end ==> count > 0)
      ensures start + count < FILE_COUNT || start + count == end
      ensures Wrote(data, at, ReadRun(t, base, start, count), orig)
    {
      hide Wrote, SectorAt, SectorsAt, ReadRun, FileBytes, RegionAt, ZeroSector;
      var fragEnd, build, r := FindRegion(start, end);
      count := fragEnd - start;
      if build != EmptyBuilder {
        RegionsBelowFiles(r);
        BuildRegion(r, build, start, count, data, at, orig);
        ReadRunIsSectors(t, base, start, count);
      } else {
        NoRegionEmpty(r);
        Memset(data, at, count * SECTOR_SIZE, 0, orig);
        forall l | start <= l < start + count && l < FILE_COUNT ensures SectorAt(t, l) == ZeroSector() {
          GapSector(t, l);
        }
        ReadRunIsZero(t, base, start, count);
      }
    }

    /** Determines the next fragment and generates its data. */
    method BuildFragment(ghost base: nat, ghost built: nat, start: nat, end: nat, data: array<byte>, at: nat,
                         ghost t: Table, ghost orig: seq<byte>) returns (fragCount: nat)
      requires Valid() && Files() == t && start == base + built <= end <= 0x40_0000_0000_0000
      requires at == built * SECTOR_SIZE && at + (end - start) * SECTOR_SIZE <= data.Length
      requires base < FILE_COUNT ==> start < FILE_COUNT || start == end
      requires Wrote(data, 0, ReadRun(t, base, base, built), orig)
      modifies data
      ensures Valid() && Files() == t
      ensures start + fragCount <= end && (start < end ==> fragCount > 0)
      ensures base < FILE_COUNT ==> start + fragCount < FILE_COUNT || start + fragCount == end
      ensures Wrote(data, 0, ReadRun(t, base, base, built + fragCount), orig)
    {
      hide Wrote, SectorAt, SectorsAt, ReadRun, FileBytes;
      ghost var mid, done := data[..], ReadRun(t, base, base, built);
      WroteContents(data, 0, done, orig);
      var fileIdx := FileIdx(start);
      if fileIdx >= 0 {
        var fragEnd := if end > FileLba(fileIdx + 1) then FileLba(fileIdx + 1) else end;
        fragCount := fragEnd - start;
        BuildFileFragment(base, start, fragCount, data, at, t, mid);
      } else {
        fragCount := BuildRegionFragment(base, start, end, data, at, t, mid);
      }
      ReadRunAppend(t, base, base, built, fragCount);
      Extend(data, 0, done, ReadRun(t, base, start, fragCount), orig, mid);
    }

    /**
     Reads `count` sectors. Every fragment lies in one region, one gap or one file slot and
     is not empty while sectors remain; a fragment in the gap below the files runs on over them.
     */
    method Read(lba: nat, count: nat, data: array<byte>)
      requires Valid() && count * SECTOR_SIZE <= data.Length && count * SECTOR_SIZE < 0x1_0000_0000
      requires lba + count <= 0x40_0000_0000_0000
      modifies data
      ensures Valid() && files[..] == old(files[..])
      ensures data[..count * SECTOR_SIZE] == ReadRun(Files(), lba, lba, count)
      ensures data[count * SECTOR_SIZE..] == old(data[count * SECTOR_SIZE..])
    {
      hide Wrote, SectorAt, SectorsAt, ReadRun;
      ghost var t, orig := Files(), data[..];
      ghost var built: nat := 0;
      var end, fragStart, at := lba + count, lba, 0;
      NothingRead(t, lba, data);
      while true
        invariant fragStart == lba + built <= end && at == built * SECTOR_SIZE
        invariant lba < FILE_COUNT ==> fragStart < FILE_COUNT || fragStart == end
        invariant Valid() && Files() == t
        invariant Wrote(data, 0, ReadRun(t, lba, lba, built), orig)
        decreases end - fragStart
      {
        var fragCount := BuildFragment(lba, built, fragStart, end, data, at, t, orig);
        built := built + fragCount;
        fragStart, at := fragStart + fragCount, at + fragCount * SECTOR_SIZE;
        if fragStart == end {
          assert built == count;
          break;
        }
      }
      WroteFirst(data, ReadRun(t, lba, lba, count), count * SECTOR_SIZE, orig);
    }
  }
}
