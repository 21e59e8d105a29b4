/**
 The virtual disk of libnt/vdisk.c seen through an independent FAT32 reader: geometry,
 cluster chains and file contents.
 */
module VdiskFat {
  import opened Arith
  import opened VdiskLayout
  import opened VdiskSectors
  import opened VdiskRead
  import R = FatReader

  function SectorDisk(files: Table): (d: nat -> seq<byte>)
    ensures forall lba :: d(lba) == SectorAt(files, lba)
    ensures forall lba :: |d(lba)| == R.SECTOR
  {
    lba => SectorAt(files, lba)
  }

  /** The disk a reader sees, one sector at a time. */
  function DiskOf(files: Table): R.Disk {
    SectorDisk(files)
  }

  const GEOMETRY := R.Geometry(PARTITION_LBA, CLUSTER_COUNT, RESERVED_COUNT, 1, SECTORS_PER_FAT, ROOT_CLUSTER)

  /** Single-sector reads through `vdisk_read` are what the reader sees. */
  lemma {:induction false} OneSectorRead(files: Table, lba: nat)
    ensures ReadRun(files, lba, lba, 1) == DiskOf(files)(lba)
  {
    hide SectorAt;
    ReadRunIsSectors(files, lba, lba, 1);
    OneSector(files, lba);
  }

  lemma ClusterAligned(cluster: nat)
    requires 2 <= cluster
    ensures var lba := VBR_LBA + ClusterSector(cluster); lba >= FILE_COUNT || lba + CLUSTER_COUNT <= FILE_COUNT
  {}

  lemma {:induction false} SectorsAreRead(files: Table, lba: nat, n: nat)
    ensures R.Sectors(DiskOf(files), lba, n) == SectorsAt(files, lba, n)
    decreases n
  {
    hide SectorAt;
    if n == 0 {
    } else {
      SectorsAreRead(files, lba, n - 1);
    }
  }

  /** So are whole-cluster reads: no cluster runs into the files from below. */
  lemma {:induction false} ClusterRead(files: Table, cluster: nat)
    requires 2 <= cluster
    ensures var lba := VBR_LBA + ClusterSector(cluster);
      lba >= 0 && ReadRun(files, lba, lba, CLUSTER_COUNT) == R.Sectors(DiskOf(files), lba, CLUSTER_COUNT)
  {
    hide SectorAt, SectorsAt, ReadRun;
    var lba := VBR_LBA + ClusterSector(cluster);
    ClusterAligned(cluster);
    assert StaysOneSide(lba, CLUSTER_COUNT);
    ReadRunIsSectors(files, lba, lba, CLUSTER_COUNT);
    SectorsAreRead(files, lba, CLUSTER_COUNT);
  }

  // ----------------------------------------------------------------- geometry

  lemma {:induction false} MbrFields()
    ensures U32(Mbr(), MBR_PARTITION + 8) == PARTITION_LBA
  {
    hide LE16;
    ReadsBack(Mbr(), MBR_PARTITION + 8, PARTITION_LBA);
  }

  lemma {:induction false} VbrFields()
    ensures Vbr()[13] == CLUSTER_COUNT && U16(Vbr(), 14) == RESERVED_COUNT && Vbr()[16] == 1
    ensures U32(Vbr(), 36) == SECTORS_PER_FAT && U32(Vbr(), 44) == ROOT_CLUSTER
  {
    hide LE16, LE32, U16, U32;
    assert Vbr()[14..16] == LE16(RESERVED_COUNT);
    ReadsBack(Vbr(), 14, RESERVED_COUNT);
    assert Vbr()[36..40] == LE32(SECTORS_PER_FAT);
    ReadsBack(Vbr(), 36, SECTORS_PER_FAT);
    assert Vbr()[44..48] == LE32(ROOT_CLUSTER);
    ReadsBack(Vbr(), 44, ROOT_CLUSTER);
  }

  lemma {:induction false} BootSectors(files: Table)
    ensures DiskOf(files)(0) == Mbr() && DiskOf(files)(PARTITION_LBA) == Vbr()
  {
    hide Mbr, Vbr, FatSector, SubdirSector, DirentSector, FsInfo, FileSector;
    assert SectorAt(files, 0) == Mbr();
    assert SectorAt(files, PARTITION_LBA) == Vbr();
  }

  /** The reader finds the geometry the layout macros describe. */
  lemma {:induction false} Geometry(files: Table)
    ensures R.ReadGeometry(DiskOf(files)) == GEOMETRY
  {
    hide Mbr, Vbr, SectorAt, U16, U32;
    MbrFields();
    VbrFields();
    BootSectors(files);
  }

  // --------------------------------------------------------------- FAT entries

  lemma {:induction false} FatSectorByte(files: Table, n: nat, k: nat, b: nat)
    requires k < ENTRIES_PER_SECTOR && n < SECTORS_PER_FAT && b < 4
    ensures FatSector(files, n)[4 * k + b] == LE32(FatEntry(files, n * ENTRIES_PER_SECTOR + k))[b]
  {
    hide LE32, FatEntry;
    DivModUnique(4 * k + b, 4, k, b);
  }

  lemma {:induction false} FatSectorField(files: Table, n: nat, k: nat)
    requires k < ENTRIES_PER_SECTOR && n < SECTORS_PER_FAT
    ensures U32(FatSector(files, n), 4 * k) == FatEntry(files, n * ENTRIES_PER_SECTOR + k)
  {
    hide LE32, FatSector, U32, FatEntry;
    var s, v := FatSector(files, n), FatEntry(files, n * ENTRIES_PER_SECTOR + k);
    var f := s[4 * k..4 * k + 4];
    forall b | 0 <= b < 4 ensures f[b] == LE32(v)[b] {
      FatSectorByte(files, n, k, b);
      assert f[b] == s[4 * k + b];
    }
    assert f == LE32(v);
    ReadsBack(s, 4 * k, v);
  }

  lemma {:induction false} FatPlace(files: Table, n: nat)
    requires n < SECTORS_PER_FAT
    ensures DiskOf(files)(PARTITION_LBA + RESERVED_COUNT + n) == FatSector(files, n)
  {
    hide FatSector, SectorAt, Mbr, Vbr, FsInfo, SubdirSector, DirentSector, FileSector, ZeroSector, SectorDisk;
    assert InRegion(4, FAT_LBA + n);
    RegionSector(files, 4, FAT_LBA + n);
  }

  /** The table entry the reader finds for any cluster. */
  lemma {:induction false} NextIsFatEntry(files: Table, cluster: nat)
    requires cluster < CLUSTERS
    ensures R.NextCluster(DiskOf(files), GEOMETRY, cluster) == FatEntry(files, cluster)
  {
    hide FatSector, SectorAt, FatEntry, U32;
    var n, k := cluster / 128, cluster % 128;
    FatPlace(files, n);
    FatSectorField(files, n, k);
    assert n * ENTRIES_PER_SECTOR + k == cluster;
  }

  // ------------------------------------------------------------- file chains

  predicate FitsSlot(xlen: nat) {
    xlen <= 0x1_0000_0000
  }

  /** Every file fits its 4GB slot. */
  predicate Bounded(files: Table) {
    forall i :: 0 <= i < MAX_FILES && files[i].Present? ==> FitsSlot(files[i].xlen)
  }

  predicate Filled(files: Table, idx: nat) {
    idx < MAX_FILES && files[idx].Present? && files[idx].xlen > 0
  }

  predicate Empty(files: Table, idx: nat) {
    idx < MAX_FILES && files[idx].Present? && files[idx].xlen == 0
  }

  /** The number of clusters `xlen` bytes take. */
  function Clusters(xlen: nat): nat {
    (xlen + CLUSTER_SIZE - 1) / CLUSTER_SIZE
  }

  function Consecutive(first: nat, n: nat): (s: seq<nat>)
    ensures |s| == n
  {
    seq(n, k => first + k)
  }

  lemma LastClusterOf(xlen: nat)
    requires FitsSlot(xlen) && xlen > 0
    ensures ((xlen - 1) % 0x1_0000_0000_0000_0000) / CLUSTER_SIZE == Clusters(xlen) - 1
    ensures 1 <= Clusters(xlen) <= FILE_CLUSTERS
  {}

  lemma {:induction false} EndClusterInSlot(idx: nat, xlen: nat)
    requires idx < MAX_FILES && FitsSlot(xlen) && xlen > 0
    ensures EndCluster(idx, xlen) == FileCluster(idx) + Clusters(xlen) - 1
    ensures 1 <= Clusters(xlen) <= FILE_CLUSTERS
  {
    LastClusterOf(xlen);
    FileClustersInTable(idx, Clusters(xlen) - 1);
  }

  /** The end marker of an empty file falls on the cluster before its slot. */
  lemma {:induction false} EmptyEndCluster(idx: nat)
    requires idx < MAX_FILES
    ensures EndCluster(idx, 0) == FileCluster(idx) - 1
  {
    var c := FileCluster(idx) - 1;
    FileClustersInTable(idx, 0);
    DivModUnique(-1, 0x1_0000_0000_0000_0000, -1, 0xffff_ffff_ffff_ffff);
    DivModUnique(0xffff_ffff_ffff_ffff, CLUSTER_SIZE, 0x1_ffff_ffff_ffff, 0x7fff);
    DivModUnique(c + 0x2_0000_0000_0000, 0x1_0000_0000, 0x2_0000, c);
  }

  /** Cluster `k` of slot `idx` is the last of file `j`, or the one before the slot of an empty file `j`. */
  predicate MarkedBy(files: Table, idx: nat, k: nat, j: nat) {
    || (j == idx && Filled(files, j) && k == Clusters(files[j].xlen) - 1)
    || (j == idx + 1 && Empty(files, j) && k == FILE_CLUSTERS - 1)
  }

  /** No cluster belongs to two file slots. */
  lemma {:induction false} SlotsDisjoint(i: nat, k: nat, j: nat, l: nat)
    requires k < FILE_CLUSTERS && l < FILE_CLUSTERS && FileCluster(i) + k == FileCluster(j) + l
    ensures i == j && k == l
  {
    var c := FileCluster(i) + k - FileCluster(0);
    assert c == i * FILE_CLUSTERS + k == j * FILE_CLUSTERS + l;
    DivModUnique(c, FILE_CLUSTERS, i, k);
    DivModUnique(c, FILE_CLUSTERS, j, l);
  }

  lemma {:induction false} NextSlot(idx: nat, k: nat, j: nat)
    requires k < FILE_CLUSTERS
    ensures FileCluster(j) - 1 == FileCluster(idx) + k <==> j == idx + 1 && k == FILE_CLUSTERS - 1
  {
    if FileCluster(j) - 1 == FileCluster(idx) + k {
      assert j > 0;
      SlotsDisjoint(idx, k, j - 1, FILE_CLUSTERS - 1);
    }
  }

  /** The end marker of file `j` is in its own slot, or on the cluster before it if the file is empty. */
  lemma {:induction false} MarkerPlace(files: Table, idx: nat, k: nat, j: nat)
    requires Bounded(files) && k < FILE_CLUSTERS && j < MAX_FILES && files[j].Present?
    ensures EndCluster(j, files[j].xlen) == FileCluster(idx) + k
      <==> MarkedBy(files, idx, k, j)
  {
    hide EndCluster, Clusters, FileCluster;
    assert FitsSlot(files[j].xlen);
    if files[j].xlen > 0 {
      EndClusterInSlot(j, files[j].xlen);
      if EndCluster(j, files[j].xlen) == FileCluster(idx) + k {
        SlotsDisjoint(idx, k, j, Clusters(files[j].xlen) - 1);
      }
    } else {
      EmptyEndCluster(j);
      NextSlot(idx, k, j);
    }
  }

  /**
   Exactly the marked clusters of a slot: the last cluster of a file with bytes, and the
   slot's last cluster when the next slot holds an empty file.
   */
  lemma {:induction false} SlotMarkers(files: Table, idx: nat, k: nat)
    requires Bounded(files) && k < FILE_CLUSTERS
    ensures EndsFile(files, MAX_FILES, FileCluster(idx) + k)
      <==> MarkedBy(files, idx, k, idx) || MarkedBy(files, idx, k, idx + 1)
  {
    hide EndCluster, Clusters, FileCluster, Bounded;
    var c := FileCluster(idx) + k;
    if EndsFile(files, MAX_FILES, c) {
      var j :| 0 <= j < MAX_FILES && files[j].Present? && EndCluster(j, files[j].xlen) == c;
      MarkerPlace(files, idx, k, j);
    }
    if idx < MAX_FILES && files[idx].Present? {
      MarkerPlace(files, idx, k, idx);
    }
    if idx + 1 < MAX_FILES && files[idx + 1].Present? {
      MarkerPlace(files, idx, k, idx + 1);
    }
  }

  /** Among a file's own clusters only its last is marked as an end, whatever the other files. */
  lemma {:induction false} EndsOwnFile(files: Table, idx: nat, k: nat)
    requires Bounded(files) && Filled(files, idx) && k < Clusters(files[idx].xlen)
    ensures EndsFile(files, MAX_FILES, FileCluster(idx) + k) <==> k == Clusters(files[idx].xlen) - 1
  {
    hide EndsFile, Clusters, FileCluster;
    assert FitsSlot(files[idx].xlen);
    EndClusterInSlot(idx, files[idx].xlen);
    SlotMarkers(files, idx, k);
  }

  /** A file's slot holds an end marker exactly when the file has bytes or the next slot's file has none. */
  lemma {:induction false} ChainEndsInSlot(files: Table, idx: nat)
    requires Bounded(files) && idx < MAX_FILES && files[idx].Present?
    ensures (exists c :: FileCluster(idx) <= c < FileCluster(idx + 1) && EndsFile(files, MAX_FILES, c))
      <==> files[idx].xlen > 0 || Empty(files, idx + 1)
  {
    hide EndsFile, Clusters;
    assert FitsSlot(files[idx].xlen);
    if files[idx].xlen > 0 {
      EndClusterInSlot(idx, files[idx].xlen);
      SlotMarkers(files, idx, Clusters(files[idx].xlen) - 1);
    } else if Empty(files, idx + 1) {
      SlotMarkers(files, idx, FILE_CLUSTERS - 1);
    } else {
      forall c | FileCluster(idx) <= c < FileCluster(idx + 1) ensures !EndsFile(files, MAX_FILES, c) {
        SlotMarkers(files, idx, c - FileCluster(idx));
      }
    }
  }

  /** Chains of different files share no cluster. */
  lemma {:induction false} ChainsDisjoint(i: nat, m: nat, j: nat, n: nat, c: nat)
    requires i != j && m <= FILE_CLUSTERS && n <= FILE_CLUSTERS
    ensures !(c in Consecutive(FileCluster(i), m) && c in Consecutive(FileCluster(j), n))
  {
    if c in Consecutive(FileCluster(i), m) && c in Consecutive(FileCluster(j), n) {
      var k :| 0 <= k < m && Consecutive(FileCluster(i), m)[k] == c;
      var l :| 0 <= l < n && Consecutive(FileCluster(j), n)[l] == c;
      SlotsDisjoint(i, k, j, l);
    }
  }

  /** A chain runs through consecutive clusters to the first marked one. */
  lemma {:induction false} ChainToMarker(files: Table, c: nat, n: nat, fuel: nat)
    requires ENTRIES_PER_SECTOR <= c && 1 <= n <= fuel && c + n <= CLUSTERS
    requires forall d :: c <= d < c + n ==> (EndsFile(files, MAX_FILES, d) <==> d == c + n - 1)
    ensures R.Chain(DiskOf(files), GEOMETRY, c, fuel) == Some(Consecutive(c, n))
    decreases n
  {
    hide R.NextCluster, EndsFile, SectorAt, SectorDisk;
    NextIsFatEntry(files, c);
    assert EndsFile(files, MAX_FILES, c) <==> n == 1;
    if n > 1 {
      ChainToMarker(files, c + 1, n - 1, fuel - 1);
      assert [c] + Consecutive(c + 1, n - 1) == Consecutive(c, n);
    } else {
      assert [c] == Consecutive(c, 1);
    }
  }

  /** With no marked cluster ahead, a chain runs off the end of the table. */
  lemma {:induction false} ChainUnmarked(files: Table, c: nat, fuel: nat)
    requires ENTRIES_PER_SECTOR <= c <= CLUSTERS
    requires forall d :: c <= d < CLUSTERS ==> !EndsFile(files, MAX_FILES, d)
    ensures R.Chain(DiskOf(files), GEOMETRY, c, fuel) == None
    decreases fuel
  {
    hide R.NextCluster, EndsFile, SectorAt, SectorDisk;
    if fuel > 0 && c < CLUSTERS {
      NextIsFatEntry(files, c);
      assert !EndsFile(files, MAX_FILES, c);
      ChainUnmarked(files, c + 1, fuel - 1);
    }
  }

  /** From its `k`-th cluster on, a file's chain runs through consecutive clusters to its last. */
  lemma {:induction false} FileChainFrom(files: Table, idx: nat, k: nat, fuel: nat)
    requires Bounded(files) && Filled(files, idx)
    requires k < Clusters(files[idx].xlen) <= k + fuel
    ensures R.Chain(DiskOf(files), GEOMETRY, FileCluster(idx) + k, fuel)
         == Some(Consecutive(FileCluster(idx) + k, Clusters(files[idx].xlen) - k))
  {
    hide R.Chain, EndsFile, Clusters, SectorAt, FileCluster, Consecutive, DiskOf;
    var n, c := Clusters(files[idx].xlen), FileCluster(idx);
    assert FitsSlot(files[idx].xlen);
    EndClusterInSlot(idx, files[idx].xlen);
    FileClustersInTable(idx, n - 1);
    FileClusterIsFileLba(idx);
    forall d | c + k <= d < c + n ensures EndsFile(files, MAX_FILES, d) <==> d == c + n - 1 {
      EndsOwnFile(files, idx, d - c);
    }
    ChainToMarker(files, c + k, n - k, fuel);
  }

  // ------------------------------------------------------------- empty files

  /** The first slot from `i` on that holds a file, or `MAX_FILES`. */
  function NextFile(files: Table, i: nat): (j: nat)
    requires i <= MAX_FILES
    ensures i <= j <= MAX_FILES
    ensures forall s :: i <= s < j ==> files[s].Absent?
    ensures j < MAX_FILES ==> files[j].Present?
    decreases MAX_FILES - i
  {
    if i == MAX_FILES || files[i].Present? then i else NextFile(files, i + 1)
  }

  /** How many clusters lie between an empty file's first cluster and the next marked one, counting it. */
  function ClustersToMarker(files: Table, idx: nat, j: nat): nat
    requires idx <= j < MAX_FILES && files[j].Present?
  {
    (j - idx) * FILE_CLUSTERS + if files[j].xlen == 0 then 0 else Clusters(files[j].xlen)
  }

  /** Between an empty file and the next one no slot has a marker, but the one before an empty file. */
  lemma {:induction false} SlotsBetween(files: Table, idx: nat, s: nat)
    requires Empty(files, idx) && s >= idx
    ensures var j := NextFile(files, idx + 1);
      && (s < j ==> !Filled(files, s) && (Empty(files, s + 1) <==> s + 1 == j && Empty(files, j)))
      && (j == MAX_FILES ==> !Filled(files, s) && !Empty(files, s + 1))
  {
    hide NextFile;
    if s + 1 < NextFile(files, idx + 1) {
      assert files[s + 1].Absent?;
    }
  }

  lemma {:induction false} SlotOf(idx: nat, d: nat) returns (s: nat, k: nat)
    requires d >= FileCluster(idx)
    ensures s >= idx && k < FILE_CLUSTERS && d == FileCluster(s) + k
  {
    s, k := idx + (d - FileCluster(idx)) / FILE_CLUSTERS, (d - FileCluster(idx)) % FILE_CLUSTERS;
  }

  lemma {:induction false} SlotDistance(i: nat, j: nat)
    requires i < j
    ensures FileCluster(j) == FileCluster(i) + (j - i) * FILE_CLUSTERS
    ensures (j - i) * FILE_CLUSTERS >= FILE_CLUSTERS
  {
    MulDistributes(i, j - i, FILE_CLUSTERS);
    MulMonotone(1, j - i, FILE_CLUSTERS);
  }

  lemma {:induction false} SlotsAscend(s: nat, k: nat, j: nat)
    requires k < FILE_CLUSTERS
    ensures FileCluster(s) + k < FileCluster(j) <==> s < j
  {
    if s < j {
      SlotDistance(s, j);
    } else if j < s {
      SlotDistance(j, s);
    }
  }

  /** The marked clusters between an empty file's slot and the next file's. */
  lemma {:induction false} MarkersAfterEmpty(files: Table, idx: nat, d: nat)
    requires Bounded(files) && Empty(files, idx) && d >= FileCluster(idx)
    ensures var j := NextFile(files, idx + 1);
      && (d < FileCluster(j) ==> (EndsFile(files, MAX_FILES, d) <==> Empty(files, j) && d == FileCluster(j) - 1))
      && (j == MAX_FILES ==> !EndsFile(files, MAX_FILES, d))
  {
    hide EndsFile, Clusters, FileCluster, NextFile, Filled, Empty, Bounded;
    var s, k := SlotOf(idx, d);
    SlotMarkers(files, s, k);
    SlotsBetween(files, idx, s);
    NextSlot(s, k, NextFile(files, idx + 1));
    SlotsAscend(s, k, NextFile(files, idx + 1));
  }

  lemma {:induction false} MarkerReached(files: Table, idx: nat, j: nat)
    requires Bounded(files) && idx < j < MAX_FILES && files[j].Present?
    ensures 1 <= ClustersToMarker(files, idx, j) <= CLUSTERS - FileCluster(idx)
    ensures FileCluster(idx) + ClustersToMarker(files, idx, j)
         == FileCluster(j) + if files[j].xlen == 0 then 0 else Clusters(files[j].xlen)
  {
    hide Clusters, FileCluster, EndCluster;
    assert FitsSlot(files[j].xlen);
    if files[j].xlen > 0 {
      EndClusterInSlot(j, files[j].xlen);
    }
    FileClustersInTable(j, FILE_CLUSTERS - 1);
    SlotDistance(idx, j);
  }

  lemma {:induction false} FirstMarker(files: Table, idx: nat, j: nat, d: nat)
    requires Bounded(files) && Empty(files, idx) && j == NextFile(files, idx + 1) < MAX_FILES
    requires FileCluster(idx) <= d < FileCluster(idx) + ClustersToMarker(files, idx, j)
    ensures EndsFile(files, MAX_FILES, d) <==> d == FileCluster(idx) + ClustersToMarker(files, idx, j) - 1
  {
    hide EndsFile, Clusters, FileCluster, NextFile, ClustersToMarker;
    MarkerReached(files, idx, j);
    if d < FileCluster(j) {
      MarkersAfterEmpty(files, idx, d);
      assert Filled(files, j) ==> Clusters(files[j].xlen) > 0 by {
        if Filled(files, j) {
          assert FitsSlot(files[j].xlen);
          EndClusterInSlot(j, files[j].xlen);
        }
      }
    } else {
      EndsOwnFile(files, j, d - FileCluster(j));
    }
  }

  /**
   An empty file has no cluster of its own marked: its chain runs on through the slots after
   it to the end of the next file, or to the cluster before that file if it is empty too,
   and off the end of the table if no file follows.
   */
  lemma {:induction false} EmptyFileChain(files: Table, idx: nat)
    requires Bounded(files) && Empty(files, idx)
    ensures var j := NextFile(files, idx + 1);
      R.Chain(DiskOf(files), GEOMETRY, FileCluster(idx), CLUSTERS)
      == if j < MAX_FILES then Some(Consecutive(FileCluster(idx), ClustersToMarker(files, idx, j))) else None
  {
    hide R.Chain, EndsFile, Clusters, SectorAt, FileCluster, Consecutive, DiskOf, NextFile;
    var j, c := NextFile(files, idx + 1), FileCluster(idx);
    FileClusterIsFileLba(idx);
    FileClustersInTable(idx, 0);
    if j == MAX_FILES {
      forall d | c <= d < CLUSTERS ensures !EndsFile(files, MAX_FILES, d) {
        MarkersAfterEmpty(files, idx, d);
      }
      ChainUnmarked(files, c, CLUSTERS);
    } else {
      var n := ClustersToMarker(files, idx, j);
      MarkerReached(files, idx, j);
      forall d | c <= d < c + n ensures EndsFile(files, MAX_FILES, d) <==> d == c + n - 1 {
        FirstMarker(files, idx, j, d);
      }
      ChainToMarker(files, c, n, CLUSTERS);
    }
  }

  // ------------------------------------------------------------- file contents

  /** A file as its reader should see it: cut or zero-padded to its announced length. */
  function Padded(content: seq<byte>, xlen: nat): (s: seq<byte>)
    ensures |s| == xlen
  {
    if xlen <= |content| then content[..xlen] else content + Repeat(xlen - |content|, 0)
  }

  lemma {:induction false} PaddedIsFileBytes(file: File, n: nat)
    requires file.Present? && file.xlen <= n
    ensures FileBytes(file, 0, n)[..file.xlen] == Padded(file.content, file.xlen)
  {
    hide FileBytes;
    var a, b := FileBytes(file, 0, n)[..file.xlen], Padded(file.content, file.xlen);
    forall i | 0 <= i < file.xlen ensures a[i] == b[i] {
      assert a[i] == FileBytes(file, 0, n)[i];
    }
  }

  lemma {:induction false} FileBytesAppend(file: File, o: nat, a: nat, b: nat)
    ensures FileBytes(file, o, a) + FileBytes(file, o + a, b) == FileBytes(file, o, a + b)
  {
    hide FileBytes;
    var l, r := FileBytes(file, o, a) + FileBytes(file, o + a, b), FileBytes(file, o, a + b);
    forall i | 0 <= i < a + b ensures l[i] == r[i] {
      if i >= a {
        assert l[i] == FileBytes(file, o + a, b)[i - a];
        assert o + a + (i - a) == o + i;
      }
    }
  }

  lemma ClusterLbaIs(cluster: nat)
    ensures R.ClusterLba(GEOMETRY, cluster) == VBR_LBA + ClusterSector(cluster)
  {}

  lemma LaterCluster(cluster: nat, k: nat)
    ensures ClusterSector(cluster + k) == ClusterSector(cluster) + k * CLUSTER_COUNT
  {}

  lemma {:induction false} OffsetInSlot(idx: nat, k: nat)
    requires k < FILE_CLUSTERS
    ensures FileLba(idx) >= 0 && FileLba(idx) + k * CLUSTER_COUNT + CLUSTER_COUNT <= FileLba(idx + 1)
    ensures FileOffset(FileLba(idx) + k * CLUSTER_COUNT) == k * CLUSTER_SIZE
  {
    DivModUnique(FileLba(idx) + k * CLUSTER_COUNT, FILE_COUNT, idx + 1, k * CLUSTER_COUNT);
  }

  /** Cluster `k` of a file slot on the disk. */
  lemma {:induction false} ClusterPlace(idx: nat, k: nat)
    requires k < FILE_CLUSTERS
    ensures var lba := FileLba(idx) + k * CLUSTER_COUNT;
      && R.ClusterLba(GEOMETRY, FileCluster(idx) + k) == lba >= FileLba(idx) >= 0
      && lba + CLUSTER_COUNT <= FileLba(idx + 1)
      && FileOffset(lba) == k * CLUSTER_SIZE
  {
    hide R.ClusterLba, ClusterSector, FileLba, FileCluster, FileOffset;
    FileClusterIsFileLba(idx);
    ClusterLbaIs(FileCluster(idx) + k);
    LaterCluster(FileCluster(idx), k);
    OffsetInSlot(idx, k);
  }

  lemma {:induction false} ClusterBytes(files: Table, idx: nat, k: nat)
    requires idx < MAX_FILES && k < FILE_CLUSTERS
    ensures FileBytes(files[idx], k * CLUSTER_SIZE, CLUSTER_SIZE)
         == R.ClusterData(DiskOf(files), GEOMETRY, FileCluster(idx) + k)
  {
    hide SectorAt, FileBytes, R.Sectors, R.ClusterLba, FileOffset, FileLba, SectorsAt;
    var lba := FileLba(idx) + k * CLUSTER_COUNT;
    ClusterPlace(idx, k);
    SectorsAreRead(files, lba, CLUSTER_COUNT);
    FileSectors(files, idx, lba, CLUSTER_COUNT);
  }

  lemma NoFileBytes(file: File)
    ensures FileBytes(file, 0, 0) == []
  {}

  lemma {:induction false} ChainBytes(files: Table, idx: nat, n: nat)
    requires idx < MAX_FILES && n <= FILE_CLUSTERS
    ensures FileBytes(files[idx], 0, n * CLUSTER_SIZE)
         == R.ChainData(DiskOf(files), GEOMETRY, Consecutive(FileCluster(idx), n))
  {
    hide FileBytes, R.ClusterData, SectorAt;
    var cs := Consecutive(FileCluster(idx), n);
    if n > 0 {
      assert cs[..n - 1] == Consecutive(FileCluster(idx), n - 1);
      ChainBytes(files, idx, n - 1);
      ClusterBytes(files, idx, n - 1);
      FileBytesAppend(files[idx], 0, (n - 1) * CLUSTER_SIZE, CLUSTER_SIZE);
    } else {
      NoFileBytes(files[idx]);
    }
  }

  /** Reading a file through the table yields its content, padded to its announced length. */
  lemma {:induction false} FileReads(files: Table, idx: nat)
    requires Bounded(files) && Filled(files, idx)
    ensures R.ReadFile(DiskOf(files), GEOMETRY, FileCluster(idx), files[idx].xlen, CLUSTERS)
         == Some(Padded(files[idx].content, files[idx].xlen))
  {
    hide FileBytes, R.Chain, R.ChainData, SectorAt;
    var n := Clusters(files[idx].xlen);
    assert FitsSlot(files[idx].xlen);
    EndClusterInSlot(idx, files[idx].xlen);
    FileChainFrom(files, idx, 0, CLUSTERS);
    ChainBytes(files, idx, n);
    PaddedIsFileBytes(files[idx], n * CLUSTER_SIZE);
  }

  /** An empty file reads as empty if and only if a file follows it in the table. */
  lemma {:induction false} EmptyFileReads(files: Table, idx: nat)
    requires Bounded(files) && Empty(files, idx)
    ensures var follows := NextFile(files, idx + 1) < MAX_FILES;
      R.ReadFile(DiskOf(files), GEOMETRY, FileCluster(idx), files[idx].xlen, CLUSTERS)
      == if follows then Some([]) else None
  {
    hide R.Chain, R.ChainData, SectorAt, NextFile, ClustersToMarker;
    EmptyFileChain(files, idx);
  }
}
