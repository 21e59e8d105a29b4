/** The disk geometry and layout macros of include/vdisk.h. */
module VdiskLayout {

  const SECTOR_SIZE: nat := 512
  const PARTITION_LBA: nat := 128
  const CLUSTER_COUNT: nat := 64
  const CLUSTER_SIZE: nat := CLUSTER_COUNT * SECTOR_SIZE
  const CLUSTERS: nat := 0x03ff_c000
  const MAX_FILES: nat := CLUSTER_COUNT - 1
  const FILE_COUNT: nat := 0x80_0000
  const FILE_CLUSTERS: nat := FILE_COUNT / CLUSTER_COUNT
  const RESERVED_COUNT: nat := CLUSTER_COUNT
  const SECTORS_PER_FAT: nat := ((CLUSTERS * 4 + CLUSTER_SIZE - 1) / CLUSTER_SIZE) * CLUSTER_COUNT
  const PARTITION_COUNT: nat := RESERVED_COUNT + SECTORS_PER_FAT + CLUSTERS * CLUSTER_COUNT

  const MBR_LBA: nat := 0
  const VBR_LBA: nat := PARTITION_LBA
  const FSINFO_LBA: nat := VBR_LBA + 1
  const BACKUP_VBR_LBA: nat := VBR_LBA + 6
  const FAT_LBA: nat := VBR_LBA + RESERVED_COUNT
  const FAT_END_MARKER: nat := 0x0fff_fff8
  const ENTRIES_PER_SECTOR: nat := SECTOR_SIZE / 4

  const ROOT_CLUSTER: nat := 2
  const DIRECTORIES: nat := 7

  function FileLba(idx: int): int {
    (idx + 1) * FILE_COUNT
  }

  function FileIdx(lba: nat): int {
    lba / FILE_COUNT - 1
  }

  function FileOffset(lba: nat): nat {
    (lba % FILE_COUNT) * SECTOR_SIZE
  }

  function FileDirentIdx(lba: nat): nat
    requires lba > 0
  {
    (lba - 1) % CLUSTER_COUNT
  }

  function FileCluster(idx: nat): nat {
    (FILE_COUNT - PARTITION_LBA - RESERVED_COUNT - SECTORS_PER_FAT) / CLUSTER_COUNT + 2
      + idx * FILE_CLUSTERS
  }

  function ClusterSector(cluster: int): int {
    (cluster - 2) * CLUSTER_COUNT + RESERVED_COUNT + SECTORS_PER_FAT
  }

  /** The LBA of directory `k`: root, boot, sources, fonts, resources, EFI, Microsoft. */
  function DirectoryLba(k: nat): nat {
    VBR_LBA + ClusterSector(ROOT_CLUSTER + k)
  }

  /** File `idx` starts at the cluster whose sectors start at its LBA. */
  lemma FileClusterIsFileLba(idx: nat)
    ensures VBR_LBA + ClusterSector(FileCluster(idx)) == FileLba(idx)
    ensures FileCluster(idx) > CLUSTER_COUNT * 2
  {}

  /** Every cluster of every file lies within the table. */
  lemma FileClustersInTable(idx: nat, k: nat)
    requires idx < MAX_FILES && k < FILE_CLUSTERS
    ensures FileCluster(idx) + k < CLUSTERS
    ensures FileCluster(idx) + k < FileCluster(idx + 1)
  {}
}
