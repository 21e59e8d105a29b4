/** The region table of libnt/vdisk.c, and what a read returns sector by sector. */
module VdiskRead {
  import opened Arith
  import opened VdiskLayout
  import opened VdiskSectors

  /** What builds the sectors of a region. */
  datatype Builder =
    | MbrBuilder | VbrBuilder | FsInfoBuilder | FatBuilder
    | SubdirBuilder(dir: nat) | DirFilesBuilder | FileBuilder(idx: nat) | EmptyBuilder

  datatype Region = Region(lba: nat, count: nat, build: Builder)

  const REGIONS := 19

  /** The region table, in order. */
  function RegionAt(i: nat): Region
    requires i < REGIONS
  {
    if i == 0 then Region(MBR_LBA, 1, MbrBuilder)
    else if i == 1 then Region(VBR_LBA, 1, VbrBuilder)
    else if i == 2 then Region(FSINFO_LBA, 1, FsInfoBuilder)
    else if i == 3 then Region(BACKUP_VBR_LBA, 1, VbrBuilder)
    else if i == 4 then Region(FAT_LBA, SECTORS_PER_FAT, FatBuilder)
    else if i % 2 == 1 then Region(DirectoryLba((i - 5) / 2), 1, SubdirBuilder((i - 5) / 2))
    else Region(DirectoryLba((i - 5) / 2) + 1, CLUSTER_COUNT - 1, DirFilesBuilder)
  }

  lemma {:induction false} RegionsAscend(i: nat, j: nat)
    requires i < j < REGIONS
    ensures RegionAt(i).lba + RegionAt(i).count <= RegionAt(j).lba
  {
    if i + 1 == j {
    } else {
      RegionsAscend(i, j - 1);
    }
  }

  lemma RegionsBelowFiles(i: nat)
    requires i < REGIONS
    ensures RegionAt(i).lba + RegionAt(i).count < FILE_COUNT
  {}

  predicate InRegion(i: nat, lba: nat)
    requires i < REGIONS
  {
    RegionAt(i).lba <= lba < RegionAt(i).lba + RegionAt(i).count
  }

  /** The sector a builder makes for `lba`. */
  function Built(files: Table, build: Builder, lba: nat): Sector {
    match build
    case MbrBuilder => Mbr()
    case VbrBuilder => Vbr()
    case FsInfoBuilder => FsInfo()
    case FatBuilder => if lba >= FAT_LBA then FatSector(files, lba - FAT_LBA) else ZeroSector()
    case SubdirBuilder(k) => SubdirSector(k)
    case DirFilesBuilder =>
      if lba > 0 && FileDirentIdx(lba) < MAX_FILES then DirentSector(files[FileDirentIdx(lba)], FileDirentIdx(lba))
      else ZeroSector()
    case FileBuilder(idx) => if idx < MAX_FILES then FileSector(files[idx], lba % FILE_COUNT) else ZeroSector()
    case EmptyBuilder => ZeroSector()
  }

  /** A directory cluster: one sector of subdirectories, then one per file slot. */
  lemma {:induction false} DirectorySector(files: Table, k: nat, lba: nat)
    requires k < DIRECTORIES && DirectoryLba(k) <= lba < DirectoryLba(k) + CLUSTER_COUNT
    ensures lba == DirectoryLba(k) ==> SectorAt(files, lba) == SubdirSector(k)
    ensures lba > DirectoryLba(k) ==>
      && FileDirentIdx(lba) == lba - DirectoryLba(k) - 1 < MAX_FILES
      && SectorAt(files, lba) == DirentSector(files[FileDirentIdx(lba)], FileDirentIdx(lba))
  {
    hide FatSector, SubdirSector, DirentSector, Mbr, Vbr, FsInfo, FileSector, ZeroSector;
    var n := lba - DirectoryLba(0);
    DivModUnique(n, CLUSTER_COUNT, k, lba - DirectoryLba(k));
    if lba > DirectoryLba(k) {
      DivModUnique(lba - 1, CLUSTER_COUNT, DirectoryLba(k) / CLUSTER_COUNT, lba - DirectoryLba(k) - 1);
    }
  }

  /** The region table and the sector-by-sector description agree. */
  lemma {:induction false} RegionSector(files: Table, i: nat, lba: nat)
    requires i < REGIONS && InRegion(i, lba)
    ensures SectorAt(files, lba) == Built(files, RegionAt(i).build, lba)
    ensures RegionAt(i).build == DirFilesBuilder ==> lba > 0 && FileDirentIdx(lba) < MAX_FILES
  {
    hide FatSector, SubdirSector, DirentSector, Mbr, Vbr, FsInfo, FileSector, ZeroSector;
    if i >= 5 {
      hide SectorAt;
      DirectorySector(files, (i - 5) / 2, lba);
    }
  }

  lemma {:induction false} DirectoryRegion(lba: nat) returns (i: nat)
    requires DirectoryLba(0) <= lba < DirectoryLba(DIRECTORIES)
    ensures i < REGIONS && InRegion(i, lba)
  {
    var k := (lba - DirectoryLba(0)) / CLUSTER_COUNT;
    i := if lba == DirectoryLba(k) then 5 + 2 * k else 6 + 2 * k;
    assert (i - 5) / 2 == k;
  }

  /** Outside the regions and below the files the disk is empty. */
  lemma {:induction false} GapSector(files: Table, lba: nat)
    requires lba < FILE_COUNT && forall i :: 0 <= i < REGIONS ==> !InRegion(i, lba)
    ensures SectorAt(files, lba) == ZeroSector()
  {
    hide FatSector, SubdirSector, DirentSector, Mbr, Vbr, FsInfo, FileSector, ZeroSector;
    assert !InRegion(0, lba) && !InRegion(1, lba) && !InRegion(2, lba) && !InRegion(3, lba) && !InRegion(4, lba);
    if DirectoryLba(0) <= lba < DirectoryLba(DIRECTORIES) {
      var i := DirectoryRegion(lba);
    }
  }

  /** Bytes that agree with the disk sector by sector are its sectors. */
  lemma {:induction false} SectorsFromParts(files: Table, lba: nat, count: nat, s: seq<byte>)
    requires |s| == count * SECTOR_SIZE
    requires forall k :: 0 <= k < count ==> s[k * SECTOR_SIZE..(k + 1) * SECTOR_SIZE] == SectorAt(files, lba + k)
    ensures s == SectorsAt(files, lba, count)
    decreases count
  {
    hide SectorAt;
    if count == 0 {
    } else {
      var t := s[..(count - 1) * SECTOR_SIZE];
      forall k | 0 <= k < count - 1
        ensures t[k * SECTOR_SIZE..(k + 1) * SECTOR_SIZE] == SectorAt(files, lba + k)
      {
        assert t[k * SECTOR_SIZE..(k + 1) * SECTOR_SIZE] == s[k * SECTOR_SIZE..(k + 1) * SECTOR_SIZE];
      }
      SectorsFromParts(files, lba, count - 1, t);
      assert s == t + s[(count - 1) * SECTOR_SIZE..count * SECTOR_SIZE];
    }
  }

  lemma {:induction false} SectorsAppend(files: Table, lba: nat, a: nat, b: nat)
    ensures SectorsAt(files, lba, a + b) == SectorsAt(files, lba, a) + SectorsAt(files, lba + a, b)
    decreases b
  {
    hide SectorAt;
    if b == 0 {
      assert SectorsAt(files, lba + a, 0) == [];
    } else {
      SectorsAppend(files, lba, a, b - 1);
      assert lba + (a + b) - 1 == lba + a + b - 1;
    }
  }

  lemma {:induction false} EmptySectors(files: Table, lba: nat, count: nat)
    requires forall l :: lba <= l < lba + count ==> SectorAt(files, l) == ZeroSector()
    ensures Repeat(count * SECTOR_SIZE, 0) == SectorsAt(files, lba, count)
  {
    hide SectorAt;
    var s := Repeat(count * SECTOR_SIZE, 0);
    forall k | 0 <= k < count ensures s[k * SECTOR_SIZE..(k + 1) * SECTOR_SIZE] == SectorAt(files, lba + k) {
      assert SectorAt(files, lba + k) == ZeroSector();
    }
    SectorsFromParts(files, lba, count, s);
  }

  lemma {:induction false} OneSector(files: Table, lba: nat)
    ensures SectorsAt(files, lba, 1) == SectorAt(files, lba)
  {
    hide SectorAt;
    assert SectorsAt(files, lba, 0) == [];
  }

  // ------------------------------------------------------------- file data

  lemma {:induction false} FileBytesPart(file: File, o: nat, n: nat, from: nat, len: nat)
    requires from + len <= n
    ensures FileBytes(file, o, n)[from..from + len] == FileBytes(file, o + from, len)
  {
    hide FileBytes, FileByte;
    var s, t := FileBytes(file, o, n)[from..from + len], FileBytes(file, o + from, len);
    forall b | 0 <= b < len ensures s[b] == t[b] {
      assert s[b] == FileBytes(file, o, n)[from + b];
      assert o + from + b == o + (from + b);
    }
  }

  lemma {:induction false} FileSlot(files: Table, idx: nat, lba: nat)
    requires FileLba(idx) <= lba < FileLba(idx + 1)
    ensures FileIdx(lba) == idx && lba >= FILE_COUNT && lba % FILE_COUNT == lba - FileLba(idx)
    ensures SectorAt(files, lba) == Built(files, FileBuilder(idx), lba)
  {
    hide FatSector, SubdirSector, DirentSector, Mbr, Vbr, FsInfo, FileSector, ZeroSector;
    DivModUnique(lba, FILE_COUNT, idx + 1, lba - FileLba(idx));
  }

  /** All sectors of a run inside one file slot are that file's bytes. */
  lemma {:induction false} FileSectors(files: Table, idx: nat, lba: nat, count: nat)
    requires idx < MAX_FILES && FileLba(idx) <= lba && lba + count <= FileLba(idx + 1)
    ensures SectorsAt(files, lba, count) == FileBytes(files[idx], FileOffset(lba), count * SECTOR_SIZE)
  {
    hide FileBytes, FileByte, SectorAt;
    var s := FileBytes(files[idx], FileOffset(lba), count * SECTOR_SIZE);
    forall k | 0 <= k < count
      ensures s[k * SECTOR_SIZE..(k + 1) * SECTOR_SIZE] == SectorAt(files, lba + k)
    {
      FileSlot(files, idx, lba);
      FileSlot(files, idx, lba + k);
      FileBytesPart(files[idx], FileOffset(lba), count * SECTOR_SIZE, k * SECTOR_SIZE, SECTOR_SIZE);
    }
    SectorsFromParts(files, lba, count, s);
  }

  // ---------------------------------------------------- what a read returns

  /**
   A sector of a read that started at `base`. Regions end below the first file and files
   are not in the region table, so the last gap of a read that starts below the files is
   zero-filled to the read's end, over any file sectors it reaches.
   */
  function ReadSector(files: Table, base: nat, lba: nat): Sector {
    if base < FILE_COUNT <= lba then ZeroSector() else SectorAt(files, lba)
  }

  function ReadRun(files: Table, base: nat, lba: nat, count: nat): (s: seq<byte>)
    ensures |s| == count * SECTOR_SIZE
    decreases count
  {
    if count == 0 then [] else ReadRun(files, base, lba, count - 1) + ReadSector(files, base, lba + count - 1)
  }

  lemma {:induction false} ReadRunAppend(files: Table, base: nat, lba: nat, a: nat, b: nat)
    ensures ReadRun(files, base, lba, a + b) == ReadRun(files, base, lba, a) + ReadRun(files, base, lba + a, b)
    decreases b
  {
    hide ReadSector;
    if b == 0 {
      assert ReadRun(files, base, lba + a, 0) == [];
    } else {
      ReadRunAppend(files, base, lba, a, b - 1);
      assert lba + (a + b) - 1 == lba + a + b - 1;
    }
  }

  lemma {:induction false} ReadRunIsSectors(files: Table, base: nat, lba: nat, count: nat)
    requires base >= FILE_COUNT || lba + count <= FILE_COUNT
    ensures ReadRun(files, base, lba, count) == SectorsAt(files, lba, count)
    decreases count
  {
    hide SectorAt;
    if count == 0 {
    } else {
      ReadRunIsSectors(files, base, lba, count - 1);
    }
  }

  lemma {:induction false} ReadRunIsZero(files: Table, base: nat, lba: nat, count: nat)
    requires base < FILE_COUNT
    requires forall l :: lba <= l < lba + count && l < FILE_COUNT ==> SectorAt(files, l) == ZeroSector()
    ensures ReadRun(files, base, lba, count) == Repeat(count * SECTOR_SIZE, 0)
    decreases count
  {
    hide SectorAt;
    if count == 0 {
    } else {
      ReadRunIsZero(files, base, lba, count - 1);
      var l := lba + count - 1;
      assert l < FILE_COUNT ==> SectorAt(files, l) == ZeroSector();
      assert Repeat(count * SECTOR_SIZE, 0) == Repeat((count - 1) * SECTOR_SIZE, 0) + Repeat(SECTOR_SIZE, 0);
    }
  }

  /** The read stays on one side of the first file's first sector. */
  predicate StaysOneSide(lba: nat, count: nat) {
    lba >= FILE_COUNT || lba + count <= FILE_COUNT
  }

  /** A table whose first slot holds a file of the given content. */
  function OneFile(content: seq<byte>): Table {
    NoFiles()[0 := Present([0x41], content, |content|)]
  }

  lemma {:induction false} FirstByteDiffers(base: nat)
    requires base < FILE_COUNT
    ensures ReadSector(OneFile([1]), base, FILE_COUNT)[0] == 0
    ensures SectorAt(OneFile([1]), FILE_COUNT)[0] == 1
  {
    hide FileBytes;
  }

  /** The failing input: one file of one non-zero byte, and any read that crosses into it. */
  lemma {:induction false} CrossingReadDiffers(lba: nat, count: nat)
    requires lba < FILE_COUNT < lba + count
    ensures ReadRun(OneFile([1]), lba, lba, count) != SectorsAt(OneFile([1]), lba, count)
  {
    hide ReadSector, SectorAt;
    var files := OneFile([1]);
    var a := FILE_COUNT - lba;
    var b := count - a;
    ReadRunAppend(files, lba, lba, a, b);
    SectorsAppend(files, lba, a, b);
    ReadRunAppend(files, lba, FILE_COUNT, 1, b - 1);
    SectorsAppend(files, FILE_COUNT, 1, b - 1);
    OneSector(files, FILE_COUNT);
    assert ReadRun(files, lba, FILE_COUNT, 0) == [];
    FirstByteDiffers(lba);
    var at := a * SECTOR_SIZE;
    assert ReadRun(files, lba, lba, count)[at] == ReadRun(files, lba, FILE_COUNT, b)[0]
        == ReadSector(files, lba, FILE_COUNT)[0];
    assert SectorsAt(files, lba, count)[at] == SectorsAt(files, FILE_COUNT, b)[0] == SectorAt(files, FILE_COUNT)[0];
  }

  /**
   A multi-sector read is the concatenation of its one-sector reads, whatever the files,
   if and only if it does not run into the files from below.
   */
  lemma {:induction false} ReadIsConcatenation(lba: nat, count: nat)
    ensures (forall files: Table :: ReadRun(files, lba, lba, count) == SectorsAt(files, lba, count))
      <==> StaysOneSide(lba, count)
  {
    if StaysOneSide(lba, count) {
      forall files: Table ensures ReadRun(files, lba, lba, count) == SectorsAt(files, lba, count) {
        ReadRunIsSectors(files, lba, lba, count);
      }
    } else {
      var files := OneFile([1]);
      CrossingReadDiffers(lba, count);
      assert ReadRun(files, lba, lba, count) != SectorsAt(files, lba, count);
    }
  }
}
