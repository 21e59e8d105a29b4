/**
 A FAT32 reader written from the Microsoft FAT32 File System Specification: partition
 table, boot record, cluster chains, long names. It knows nothing of the virtual disk.
 */
module FatReader {
  import opened Arith

  const SECTOR := 512
  const ENTRY := 32

  function BlankDisk(): (d: nat -> seq<byte>)
    ensures forall lba :: |d(lba)| == SECTOR
  {
    lba => seq(SECTOR, _ => 0)
  }

  /** A sector's bytes, by LBA. */
  type Disk = d: nat -> seq<byte> | forall lba :: |d(lba)| == SECTOR witness BlankDisk()

  datatype Geometry = Geometry(partition: nat, sectorsPerCluster: nat, reserved: nat, fats: nat,
                               sectorsPerFat: nat, root: nat)

  /** First partition of the MBR, then the geometry fields of its boot record. */
  function ReadGeometry(disk: Disk): Geometry {
    var partition := U32(disk(0), 446 + 8);
    var vbr := disk(partition);
    Geometry(partition, vbr[13], U16(vbr, 14), vbr[16], U32(vbr, 36), U32(vbr, 44))
  }

  // ------------------------------------------------------------ cluster chains

  /** The 28-bit table entry of a cluster. */
  function NextCluster(disk: Disk, g: Geometry, cluster: nat): nat {
    U32(disk(g.partition + g.reserved + cluster / 128), 4 * (cluster % 128)) % 0x1000_0000
  }

  predicate EndOfChain(next: nat) {
    next >= 0x0fff_fff8
  }

  /** The clusters of a chain; `None` if it leaves the table or does not end within `fuel` clusters. */
  function Chain(disk: Disk, g: Geometry, cluster: nat, fuel: nat): Option<seq<nat>>
    decreases fuel
  {
    if fuel == 0 || cluster >= SECTOR / 4 * g.sectorsPerFat then None
    else if EndOfChain(NextCluster(disk, g, cluster)) then Some([cluster])
    else
      match Chain(disk, g, NextCluster(disk, g, cluster), fuel - 1)
      case None => None
      case Some(rest) => Some([cluster] + rest)
  }

  function ClusterLba(g: Geometry, cluster: nat): int {
    g.partition + g.reserved + g.fats * g.sectorsPerFat + (cluster - 2) * g.sectorsPerCluster
  }

  /** `n` consecutive sectors. */
  function Sectors(disk: Disk, lba: nat, n: nat): (s: seq<byte>)
    ensures |s| == n * SECTOR
    decreases n
  {
    if n == 0 then [] else Sectors(disk, lba, n - 1) + disk(lba + n - 1)
  }

  function ClusterData(disk: Disk, g: Geometry, cluster: nat): seq<byte> {
    if ClusterLba(g, cluster) >= 0 then Sectors(disk, ClusterLba(g, cluster), g.sectorsPerCluster) else []
  }

  function ChainData(disk: Disk, g: Geometry, clusters: seq<nat>): seq<byte> {
    if clusters == [] then []
    else ChainData(disk, g, clusters[..|clusters| - 1]) + ClusterData(disk, g, clusters[|clusters| - 1])
  }

  /** A file's bytes: its chain's clusters, cut to its size. */
  function ReadFile(disk: Disk, g: Geometry, cluster: nat, size: nat, fuel: nat): Option<seq<byte>> {
    match Chain(disk, g, cluster, fuel)
    case None => None
    case Some(clusters) =>
      var data := ChainData(disk, g, clusters);
      if size <= |data| then Some(data[..size]) else None
  }

  // --------------------------------------------------------------- directories

  datatype DirEntry = DirEntry(name: seq<nat>, attr: byte, cluster: nat, size: nat)

  /** A directory sector's 32-byte entries. */
  function Slots(s: seq<byte>): (r: seq<seq<byte>>)
    requires |s| == SECTOR
    ensures |r| == 16 && forall k :: 0 <= k < 16 ==> |r[k]| == ENTRY
  {
    seq(16, k requires 0 <= k < 16 => s[ENTRY * k..ENTRY * k + ENTRY])
  }

  type Slotted = r: seq<seq<byte>> | |r| == 16 && forall k :: 0 <= k < 16 ==> |r[k]| == ENTRY
    witness Slots(seq(SECTOR, _ => 0))

  /** Rotate right, add: the sum a long name's records carry of the 8.3 name. */
  function NameSum(raw: seq<byte>): byte {
    if raw == [] then 0
    else
      var c := NameSum(raw[..|raw| - 1]);
      ((if c % 2 == 1 then 0x80 else 0) + c / 2 + raw[|raw| - 1]) % 256
  }

  /** The thirteen characters of a long-name record. */
  function RecordChars(e: seq<byte>): (r: seq<nat>)
    requires |e| == ENTRY
    ensures |r| == 13
  {
    [U16(e, 1), U16(e, 3), U16(e, 5), U16(e, 7), U16(e, 9),
     U16(e, 14), U16(e, 16), U16(e, 18), U16(e, 20), U16(e, 22), U16(e, 24),
     U16(e, 28), U16(e, 30)]
  }

  /** Long-name records `n`, `n` + 1, ... stored before the 8.3 entry in slot `k`, up to the flagged one. */
  function LongChars(dir: Slotted, k: nat, n: nat): Option<seq<nat>>
    requires k < 16
    decreases 16 - n
  {
    if n == 0 || n > k then None
    else
      var e := dir[k - n];
      if e[11] != 0x0f || e[0] % 0x40 != n || e[13] != NameSum(dir[k][..11]) then None
      else if e[0] / 0x40 % 2 == 1 then Some(RecordChars(e))
      else
        match LongChars(dir, k, n + 1)
        case None => None
        case Some(rest) => Some(RecordChars(e) + rest)
  }

  /** The characters before the first NUL. */
  function UpToNul(cs: seq<nat>): seq<nat> {
    if cs == [] || cs[0] == 0 then [] else [cs[0]] + UpToNul(cs[1..])
  }

  /** The long name of the 8.3 entry in slot `k`, empty if its records are not in order. */
  function LongName(dir: Slotted, k: nat): seq<nat>
    requires k < 16
  {
    match LongChars(dir, k, 1)
    case None => []
    case Some(cs) => UpToNul(cs)
  }

  /** What a run of directory slots lists, and whether it holds the end of the directory. */
  datatype Listing = Listing(entries: seq<DirEntry>, ended: bool)

  /** One run after another: nothing is listed past the end of the directory. */
  function Then(a: Listing, b: Listing): Listing {
    if a.ended then a else Listing(a.entries + b.entries, b.ended)
  }

  /** A first byte of zero ends the directory; deleted entries and long-name records are skipped. */
  function ListSlot(dir: Slotted, k: nat): Listing
    requires k < 16
  {
    var e := dir[k];
    if e[0] == 0 then Listing([], true)
    else if e[0] == 0xe5 || e[11] == 0x0f then Listing([], false)
    else Listing([DirEntry(LongName(dir, k), e[11], U16(e, 20) * 0x1_0000 + U16(e, 26), U32(e, 28))], false)
  }

  /** The first `n` slots, in order. */
  function ListSlots(dir: Slotted, n: nat): Listing
    requires n <= 16
  {
    if n == 0 then Listing([], false) else Then(ListSlots(dir, n - 1), ListSlot(dir, n - 1))
  }

  function ListSector(disk: Disk, lba: nat): Listing {
    ListSlots(Slots(disk(lba)), 16)
  }

  /** `n` directory sectors from `lba`. */
  function ListSectors(disk: Disk, lba: nat, n: nat): Listing
    decreases n
  {
    if n == 0 then Listing([], false)
    else Then(ListSectors(disk, lba, n - 1), ListSector(disk, lba + n - 1))
  }

  function ListClusters(disk: Disk, g: Geometry, clusters: seq<nat>): Listing {
    if clusters == [] then Listing([], false)
    else
      var lba := ClusterLba(g, clusters[|clusters| - 1]);
      Then(ListClusters(disk, g, clusters[..|clusters| - 1]),
           if lba >= 0 then ListSectors(disk, lba, g.sectorsPerCluster) else Listing([], true))
  }

  /** All entries of the directory whose chain starts at `cluster`. */
  function ListDirectory(disk: Disk, g: Geometry, cluster: nat, fuel: nat): Option<seq<DirEntry>> {
    match Chain(disk, g, cluster, fuel)
    case None => None
    case Some(clusters) => Some(ListClusters(disk, g, clusters).entries)
  }

  // --------------------------------------------------------------------- paths

  function Upper(c: nat): nat {
    if 'a' as int <= c <= 'z' as int then c - 32 else c
  }

  /** Names are compared without regard to case. */
  predicate SameName(a: seq<nat>, b: seq<nat>) {
    |a| == |b| && forall i :: 0 <= i < |a| ==> Upper(a[i]) == Upper(b[i])
  }

  predicate IsDirectory(e: DirEntry) {
    e.attr / 0x10 % 2 == 1
  }

  /** The first entry of that name. */
  function Find(entries: seq<DirEntry>, name: seq<nat>): Option<DirEntry> {
    if entries == [] then None
    else if SameName(entries[0].name, name) then Some(entries[0])
    else Find(entries[1..], name)
  }

  /** The first cluster of the directory that `path` names, from the directory at `cluster`. */
  function Walk(disk: Disk, g: Geometry, cluster: nat, path: seq<seq<nat>>, fuel: nat): Option<nat>
    decreases |path|
  {
    if path == [] then Some(cluster)
    else
      match ListDirectory(disk, g, cluster, fuel)
      case None => None
      case Some(entries) =>
        match Find(entries, path[0])
        case None => None
        case Some(e) => if IsDirectory(e) then Walk(disk, g, e.cluster, path[1..], fuel) else None
  }

  function OpenEntry(disk: Disk, g: Geometry, listing: Option<seq<DirEntry>>, name: seq<nat>, fuel: nat)
    : Option<seq<byte>>
  {
    match listing
    case None => None
    case Some(entries) =>
      match Find(entries, name)
      case None => None
      case Some(e) => if IsDirectory(e) then None else ReadFile(disk, g, e.cluster, e.size, fuel)
  }

  /** The bytes of the file `name` in the directory `path`, from nothing but the disk. */
  function OpenFile(disk: Disk, path: seq<seq<nat>>, name: seq<nat>, fuel: nat): Option<seq<byte>> {
    var g := ReadGeometry(disk);
    match Walk(disk, g, g.root, path, fuel)
    case None => None
    case Some(dir) => OpenEntry(disk, g, ListDirectory(disk, g, dir, fuel), name, fuel)
  }
}
