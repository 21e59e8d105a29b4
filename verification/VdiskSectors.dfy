/** What each sector of the virtual disk of libnt/vdisk.c contains. */
module VdiskSectors {
  import opened Arith
  import opened VdiskLayout

  function Repeat(n: nat, v: byte): (s: seq<byte>)
    ensures |s| == n
    ensures forall i :: 0 <= i < n ==> s[i] == v
  {
    seq(n, _ => v)
  }

  type Sector = s: seq<byte> | |s| == SECTOR_SIZE  witness Repeat(SECTOR_SIZE, 0)

  /** A slot of the file table: the data a file's read method yields, and its padded length. */
  datatype File = Absent | Present(name: seq<byte>, content: seq<byte>, xlen: nat)

  const NAME_LEN := 31

  /** Names are what fits the table's 32-byte name field, without the NUL. */
  predicate Named(file: File) {
    file.Present? ==> |file.name| <= NAME_LEN
  }

  function NoFiles(): (t: seq<File>)
    ensures |t| == MAX_FILES && forall i :: 0 <= i < |t| ==> t[i] == Absent
  {
    seq(MAX_FILES, _ => Absent)
  }

  type Table = t: seq<File> | |t| == MAX_FILES && forall i :: 0 <= i < |t| ==> Named(t[i])
    witness NoFiles()

  function ZeroSector(): Sector {
    Repeat(SECTOR_SIZE, 0)
  }

  // ---------------------------------------------------------- boot sectors

  const MBR_PARTITION := 446

  /** The Master Boot Record: one bootable FAT32 partition. */
  function Mbr(): Sector {
    var s0 := Patch(ZeroSector(), MBR_PARTITION, [0x80]);
    var s1 := Patch(s0, MBR_PARTITION + 4, [0x0c]);
    var s2 := Patch(s1, MBR_PARTITION + 8, LE32(PARTITION_LBA));
    var s3 := Patch(s2, MBR_PARTITION + 12, LE32(PARTITION_COUNT));
    var s4 := Patch(s3, 440, LE32(0x1453_0529));
    Patch(s4, 510, LE16(0xaa55))
  }

  const OEM_ID: seq<byte> := [0x77, 0x69, 0x6d, 0x62, 0x6f, 0x6f, 0x74, 0]                      // "wimboot\0"
  const LABEL: seq<byte> := [0x6e, 0x74, 0x6c, 0x6f, 0x61, 0x64, 0x65, 0x72, 0x20, 0x20, 0]     // "ntloader  \0"
  const SYSTEM: seq<byte> := [0x46, 0x41, 0x54, 0x33, 0x32, 0x20, 0x20, 0x20]                   // "FAT32   "

  /** The Volume Boot Record up to its geometry. */
  function VbrGeometry(): Sector {
    var s0 := Patch(ZeroSector(), 0, [0xe9]);
    var s1 := Patch(s0, 3, OEM_ID);
    var s2 := Patch(s1, 11, LE16(SECTOR_SIZE));
    var s3 := Patch(s2, 13, [CLUSTER_COUNT]);
    var s4 := Patch(s3, 14, LE16(RESERVED_COUNT));
    var s5 := Patch(s4, 16, [1]);
    var s6 := Patch(s5, 21, [0xf8]);
    var s7 := Patch(s6, 24, LE16(63));
    Patch(s7, 26, LE16(255))
  }

  /** The whole Volume Boot Record. */
  function Vbr(): Sector {
    var s9 := Patch(VbrGeometry(), 28, LE32(VBR_LBA));
    var s10 := Patch(s9, 32, LE32(PARTITION_COUNT));
    var s11 := Patch(s10, 36, LE32(SECTORS_PER_FAT));
    var s12 := Patch(s11, 44, LE32(ROOT_CLUSTER));
    var s13 := Patch(s12, 48, LE16(1));
    var s14 := Patch(s13, 50, LE16(6));
    var s15 := Patch(s14, 66, [0x29]);
    var s16 := Patch(s15, 67, LE32(0xdead_c0de));
    var s17 := Patch(s16, 71, LABEL);
    var s18 := Patch(s17, 82, SYSTEM);
    Patch(s18, 510, LE16(0xaa55))
  }

  function FsInfo(): Sector {
    var s0 := Patch(ZeroSector(), 0, LE32(0x4161_5252));
    var s1 := Patch(s0, 484, LE32(0x6141_7272));
    var s2 := Patch(s1, 492, LE32(0xffff_ffff));
    Patch(s2, 508, LE32(0xaa55_0000))
  }

  // ----------------------------------------------- the file allocation table

  /**
   The cluster marked as a file's last. C computes it in 64-bit then 32-bit unsigned
   arithmetic, so a padded length of zero wraps.
   */
  function EndCluster(idx: nat, xlen: nat): nat {
    (FileCluster(idx) + ((xlen - 1) % 0x1_0000_0000_0000_0000) / CLUSTER_SIZE) % 0x1_0000_0000
  }

  /** Some file among the first `n` ends at `cluster`. */
  predicate EndsFile(files: Table, n: nat, cluster: nat)
    requires n <= MAX_FILES
  {
    exists i :: 0 <= i < n && files[i].Present? && EndCluster(i, files[i].xlen) == cluster
  }

  /** The table entry of `cluster`. The first sector's clusters are all chain ends. */
  function FatEntry(files: Table, cluster: nat): (v: nat)
    ensures v == FAT_END_MARKER || v == cluster + 1
  {
    if cluster < ENTRIES_PER_SECTOR || EndsFile(files, MAX_FILES, cluster) then FAT_END_MARKER
    else cluster + 1
  }

  function FatSector(files: Table, n: nat): Sector {
    seq(SECTOR_SIZE, b requires 0 <= b < SECTOR_SIZE => LE32(FatEntry(files, n * ENTRIES_PER_SECTOR + b / 4))[b % 4])
  }

  // ------------------------------------------------------------- directories

  const ENTRY_SIZE := 32
  const ENTRIES := 16
  const READ_ONLY := 0x01
  const DIRECTORY := 0x10
  const LFN_ATTR := 0x0f
  const LFN_END := 0x40
  const DELETED := 0xe5
  const LFN_CHARS := 13

  type Entry = e: seq<byte> | |e| == ENTRY_SIZE witness Repeat(ENTRY_SIZE, 0)

  function DeletedEntry(): Entry {
    [DELETED] + Repeat(ENTRY_SIZE - 1, 0)
  }

  /** The checksum of an 8.3 name: rotate right one bit, add the next byte. */
  function Checksum(raw: seq<byte>): byte {
    if raw == [] then 0
    else
      var c := Checksum(raw[..|raw| - 1]);
      ((c % 2) * 128 + c / 2 + raw[|raw| - 1]) % 256
  }

  function BlankName(): (r: seq<byte>)
    ensures |r| == 11
  {
    Repeat(11, 0x20)
  }

  /** The 8.3 record, with a blank (invalid) short name. */
  function DosEntry(len: nat, attr: byte, cluster: nat): Entry {
    var e1 := Patch(DeletedEntry(), 0, BlankName());
    var e2 := Patch(e1, 11, [attr]);
    var e3 := Patch(e2, 28, LE32(len));
    var e4 := Patch(e3, 20, LE16(cluster / 0x1_0000));
    var e5 := Patch(e4, 26, LE16(cluster % 0x1_0000));
    var e6 := Patch(e5, 16, LE16(0x2821));
    var e7 := Patch(e6, 14, LE16(0));
    var e8 := Patch(e7, 13, [0]);
    var e9 := Patch(e8, 24, LE16(0x2821));
    Patch(e9, 22, LE16(0))
  }

  /** The `i`-th 16-bit character of a stored name when `k` have been stored, counting its NUL. */
  function LfnChar(name: seq<byte>, i: nat, k: nat): (c: nat)
    requires k <= |name| + 1
    ensures 0 <= c < 0x1_0000
  {
    if i >= k then 0xffff else if i == |name| then 0 else SignExtended(name[i])
  }

  /** Byte `b` of the characters of record `j`: five, six and two 16-bit fields. */
  function LfnCharByte(name: seq<byte>, j: nat, k: nat, b: nat): byte
    requires k <= |name| + 1
  {
    if 1 <= b < 11 then LE16(LfnChar(name, LFN_CHARS * j + (b - 1) / 2, k))[(b - 1) % 2]
    else if 14 <= b < 26 then LE16(LfnChar(name, LFN_CHARS * j + 5 + (b - 14) / 2, k))[b % 2]
    else if 28 <= b < 32 then LE16(LfnChar(name, LFN_CHARS * j + 11 + (b - 28) / 2, k))[b % 2]
    else 0
  }

  /** Long-name record `j` of a name once `k` characters are stored; `end` flags the last record. */
  function LfnRecord(name: seq<byte>, j: nat, k: nat, end: bool): Entry
    requires k <= |name| + 1
  {
    seq(ENTRY_SIZE, b requires 0 <= b < ENTRY_SIZE =>
      if b == 0 then (j + 1 + if end then LFN_END else 0) % 256
      else if b == 11 then LFN_ATTR
      else if b == 13 then Checksum(BlankName())
      else LfnCharByte(name, j, k, b))
  }

  /** How many long-name records a name takes; its NUL is always stored. */
  function LfnCount(name: seq<byte>): nat {
    |name| / LFN_CHARS + 1
  }

  function EmptyDir(): (d: seq<Entry>)
    ensures |d| == ENTRIES && forall s :: 0 <= s < ENTRIES ==> d[s] == DeletedEntry()
  {
    seq(ENTRIES, _ => DeletedEntry())
  }

  type Entries = r: seq<Entry> | |r| == ENTRIES witness EmptyDir()

  function Placed(dir: Entries, slot: nat, name: seq<byte>, len: nat, attr: byte, cluster: nat, s: nat): Entry
    requires LfnCount(name) <= slot < ENTRIES && s < ENTRIES
  {
    var m := LfnCount(name);
    if s == slot then DosEntry(len, attr, cluster)
    else if slot - m <= s < slot then LfnRecord(name, slot - 1 - s, |name| + 1, s == slot - m)
    else dir[s]
  }

  /** The 8.3 record at `slot` and the long-name records below it, in reverse order. */
  function Place(dir: Entries, slot: nat, name: seq<byte>, len: nat, attr: byte, cluster: nat): Entries
    requires LfnCount(name) <= slot < ENTRIES
  {
    seq(ENTRIES, s requires 0 <= s < ENTRIES => Placed(dir, slot, name, len, attr, cluster, s))
  }

  function Flatten(dir: Entries): Sector {
    seq(SECTOR_SIZE, b requires 0 <= b < SECTOR_SIZE => dir[b / ENTRY_SIZE][b % ENTRY_SIZE])
  }

  // --------------------------------------------------- the fixed directories

  datatype Subdir = Subdir(name: seq<byte>, cluster: nat)

  function Ascii(s: string): (r: seq<byte>)
    requires forall i :: 0 <= i < |s| ==> s[i] < 128 as char
    ensures |r| == |s|
  {
    seq(|s|, i requires 0 <= i < |s| => s[i] as int)
  }

  /** The subdirectories of directory `k`. */
  function Subdirs(k: nat): seq<Subdir> {
    if k == 0 then [Subdir(Ascii("BOOT"), 3), Subdir(Ascii("SOURCES"), 4), Subdir(Ascii("EFI"), 7)]
    else if k == 1 then [Subdir(Ascii("FONTS"), 5), Subdir(Ascii("RESOURCES"), 6)]
    else if k == 5 then [Subdir(Ascii("BOOT"), 3), Subdir(Ascii("MICROSOFT"), 8)]
    else if k == 6 then [Subdir(Ascii("BOOT"), 3)]
    else []
  }

  predicate FitsBelow(subdirs: seq<Subdir>, slot: int) {
    subdirs == [] ||
    (LfnCount(subdirs[0].name) <= slot && FitsBelow(subdirs[1..], slot - 1 - LfnCount(subdirs[0].name)))
  }

  /** Directory records are built from the last entry of the sector downwards. */
  function PlaceAll(dir: Entries, slot: int, subdirs: seq<Subdir>): Entries
    requires slot < ENTRIES && FitsBelow(subdirs, slot)
    decreases |subdirs|
  {
    if subdirs == [] then dir
    else PlaceAll(Place(dir, slot, subdirs[0].name, 0, DIRECTORY, subdirs[0].cluster),
                  slot - 1 - LfnCount(subdirs[0].name), subdirs[1..])
  }

  lemma {:induction false} ShortNamesFit(subdirs: seq<Subdir>, slot: int)
    requires forall i :: 0 <= i < |subdirs| ==> |subdirs[i].name| < LFN_CHARS
    requires 2 * |subdirs| <= slot + 1
    ensures FitsBelow(subdirs, slot)
  {
    if subdirs == [] {
    } else {
      ShortNamesFit(subdirs[1..], slot - 2);
    }
  }

  lemma {:induction false} SubdirsFit(k: nat)
    ensures FitsBelow(Subdirs(k), ENTRIES - 1)
  {
    ShortNamesFit(Subdirs(k), ENTRIES - 1);
  }

  function SubdirSector(k: nat): Sector {
    SubdirsFit(k);
    Flatten(PlaceAll(EmptyDir(), ENTRIES - 1, Subdirs(k)))
  }

  /** The sector announcing one slot of the file table. */
  function DirentSector(file: File, idx: nat): Sector
    requires Named(file)
  {
    if file.Present? then
      Flatten(Place(EmptyDir(), ENTRIES - 1, file.name, file.xlen, READ_ONLY, FileCluster(idx)))
    else Flatten(EmptyDir())
  }

  // -------------------------------------------------------------- file data

  /** Byte `o` of a file slot: the content, then zeros. */
  function FileByte(file: File, o: nat): byte {
    if file.Present? && o < |file.content| then file.content[o] else 0
  }

  function FileBytes(file: File, o: nat, n: nat): (s: seq<byte>)
    ensures |s| == n
    ensures forall b :: 0 <= b < n ==> s[b] == FileByte(file, o + b)
  {
    var data := if file.Present? && o < |file.content| then file.content[o..Min(o + n, |file.content|)] else [];
    data + Repeat(n - |data|, 0)
  }

  function FileSector(file: File, n: nat): Sector {
    FileBytes(file, n * SECTOR_SIZE, SECTOR_SIZE)
  }

  // ---------------------------------------------------------------- the disk

  /** What the sector at `lba` holds, one sector at a time. */
  function SectorAt(files: Table, lba: nat): Sector {
    if lba >= FILE_COUNT then
      (if FileIdx(lba) < MAX_FILES then FileSector(files[FileIdx(lba)], lba % FILE_COUNT) else ZeroSector())
    else if lba == MBR_LBA then Mbr()
    else if lba == VBR_LBA || lba == BACKUP_VBR_LBA then Vbr()
    else if lba == FSINFO_LBA then FsInfo()
    else if FAT_LBA <= lba < FAT_LBA + SECTORS_PER_FAT then FatSector(files, lba - FAT_LBA)
    else if DirectoryLba(0) <= lba < DirectoryLba(DIRECTORIES) then
      var n := lba - DirectoryLba(0);
      if n % CLUSTER_COUNT == 0 then SubdirSector(n / CLUSTER_COUNT)
      else DirentSector(files[n % CLUSTER_COUNT - 1], n % CLUSTER_COUNT - 1)
    else ZeroSector()
  }

  /** `count` consecutive sectors. */
  function SectorsAt(files: Table, lba: nat, count: nat): (s: seq<byte>)
    ensures |s| == count * SECTOR_SIZE
    decreases count
  {
    if count == 0 then [] else SectorsAt(files, lba, count - 1) + SectorAt(files, lba + count - 1)
  }
}
