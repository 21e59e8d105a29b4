/** Directory sectors of the virtual disk seen through the FAT reader: long names round-trip. */
module VdiskListing {
  import opened Arith
  import opened VdiskLayout
  import opened VdiskSectors
  import opened VdiskRead
  import opened VdiskDirectory
  import opened VdiskFat
  import R = FatReader

  // ------------------------------------------------------- reading one record

  lemma {:induction false} SlotsOfFlatten(dir: Entries)
    ensures R.Slots(Flatten(dir)) == dir
  {
    var s := R.Slots(Flatten(dir));
    forall k | 0 <= k < ENTRIES ensures s[k] == dir[k] {
      forall b | 0 <= b < ENTRY_SIZE ensures s[k][b] == dir[k][b] {
        assert (ENTRY_SIZE * k + b) / ENTRY_SIZE == k && (ENTRY_SIZE * k + b) % ENTRY_SIZE == b;
      }
    }
  }

  lemma {:induction false} SameSum(raw: seq<byte>)
    ensures R.NameSum(raw) == Checksum(raw)
  {
    if raw == [] {
    } else {
      SameSum(raw[..|raw| - 1]);
    }
  }

  lemma {:induction false} CharAt(name: seq<byte>, j: nat, end: bool, p: nat)
    requires p < LFN_CHARS
    ensures U16(LfnRecord(name, j, |name| + 1, end), CharOffset(p)) == LfnChar(name, LFN_CHARS * j + p, |name| + 1)
  {
    hide LE16, U16, LfnChar, Checksum;
    var r, o := LfnRecord(name, j, |name| + 1, end), CharOffset(p);
    var v := LfnChar(name, LFN_CHARS * j + p, |name| + 1);
    var f := r[o..o + 2];
    assert f[0] == r[o] == LE16(v)[0];
    assert f[1] == r[o + 1] == LE16(v)[1];
    assert f == LE16(v);
    ReadsBack(r, o, v);
  }

  /** Character `i` counted from the start of record `j`. */
  function StoredChar(name: seq<byte>, j: nat, i: nat): nat {
    LfnChar(name, LFN_CHARS * j + i, |name| + 1)
  }

  /** The characters stored in records `j` to `m` of a name. */
  function Stored(name: seq<byte>, j: nat, m: nat): seq<nat>
    requires j <= m
  {
    seq(LFN_CHARS * (m - j), i requires 0 <= i < LFN_CHARS * (m - j) => StoredChar(name, j, i))
  }

  lemma {:induction false} RecordHolds(name: seq<byte>, j: nat, end: bool)
    ensures R.RecordChars(LfnRecord(name, j, |name| + 1, end)) == Stored(name, j, j + 1)
  {
    hide LfnRecord, U16, LfnChar;
    var c, s := R.RecordChars(LfnRecord(name, j, |name| + 1, end)), Stored(name, j, j + 1);
    CharAt(name, j, end, 0);
    CharAt(name, j, end, 1);
    CharAt(name, j, end, 2);
    CharAt(name, j, end, 3);
    CharAt(name, j, end, 4);
    CharAt(name, j, end, 5);
    CharAt(name, j, end, 6);
    CharAt(name, j, end, 7);
    CharAt(name, j, end, 8);
    CharAt(name, j, end, 9);
    CharAt(name, j, end, 10);
    CharAt(name, j, end, 11);
    CharAt(name, j, end, 12);
  }

  lemma RecordBytes(name: seq<byte>, j: nat, end: bool)
    ensures var e := LfnRecord(name, j, |name| + 1, end);
      && e[0] == (j + 1 + if end then 0x40 else 0) % 256 && e[11] == 0x0f && e[13] == Checksum(BlankName())
  {}

  lemma {:induction false} NumberByte(j: nat, end: bool)
    requires j < 63
    ensures var b := (j + 1 + if end then 0x40 else 0) % 256;
      b % 0x40 == j + 1 && (b / 0x40 % 2 == 1 <==> end)
  {
    DivModUnique(j + 1 + if end then 0x40 else 0, 0x40, if end then 1 else 0, j + 1);
  }

  /** Sequence numbers count from 1, only the last record is flagged, and all carry the checksum. */
  lemma {:induction false} RecordFields(name: seq<byte>, j: nat, end: bool)
    requires j < 63
    ensures var e := LfnRecord(name, j, |name| + 1, end);
      && e[11] == 0x0f && e[0] % 0x40 == j + 1 && (e[0] / 0x40 % 2 == 1 <==> end)
      && e[13] == R.NameSum(BlankName())
  {
    hide Checksum, R.NameSum, LfnRecord, BlankName;
    RecordBytes(name, j, end);
    SameSum(BlankName());
    NumberByte(j, end);
  }

  lemma {:induction false} DosFields(len: nat, attr: byte, cluster: nat)
    requires len < 0x1_0000_0000 && cluster < 0x1_0000_0000
    ensures var e := DosEntry(len, attr, cluster);
      && e[0] == 0x20 && e[11] == attr && e[..11] == BlankName()
      && U16(e, 20) * 0x1_0000 + U16(e, 26) == cluster && U32(e, 28) == len
  {
    hide LE16, LE32, U16, U32;
    var e := DosEntry(len, attr, cluster);
    assert e[20..22] == LE16(cluster / 0x1_0000);
    assert e[26..28] == LE16(cluster % 0x1_0000);
    assert e[28..32] == LE32(len);
    ReadsBack(e, 20, cluster / 0x1_0000);
    ReadsBack(e, 26, cluster % 0x1_0000);
    ReadsBack(e, 28, len);
  }

  // -------------------------------------------------------- reading one name

  lemma {:induction false} UpToNulStops(a: seq<nat>, b: seq<nat>)
    requires forall i :: 0 <= i < |a| ==> a[i] != 0
    requires b != [] && b[0] == 0
    ensures R.UpToNul(a + b) == a
  {
    if a == [] {
      assert a + b == b;
    } else {
      assert (a + b)[1..] == a[1..] + b;
      UpToNulStops(a[1..], b);
    }
  }

  /** A name's bytes as 16-bit characters. */
  function Wide(name: seq<byte>): (w: seq<nat>)
    ensures |w| == |name|
  {
    seq(|name|, i requires 0 <= i < |name| => name[i])
  }

  /** The characters a name is stored as. */
  function Shown(name: seq<byte>): (w: seq<nat>)
    ensures |w| == |name|
  {
    seq(|name|, i requires 0 <= i < |name| => SignExtended(name[i]))
  }

  predicate Ascii7(name: seq<byte>) {
    forall i :: 0 <= i < |name| ==> name[i] < 0x80
  }

  /** A name is stored as it is exactly when all its bytes are below 128. */
  lemma {:induction false} ShownExactly(name: seq<byte>)
    ensures Shown(name) == Wide(name) <==> Ascii7(name)
  {
    if Shown(name) == Wide(name) {
      forall i | 0 <= i < |name| ensures name[i] < 0x80 {
        assert Shown(name)[i] == Wide(name)[i];
      }
    }
  }

  /** What is stored is the name, a NUL, and padding. */
  lemma {:induction false} StoredName(name: seq<byte>)
    requires forall i :: 0 <= i < |name| ==> name[i] != 0
    ensures R.UpToNul(Stored(name, 0, LfnCount(name))) == Shown(name)
  {
    var s := Stored(name, 0, LfnCount(name));
    assert LFN_CHARS * LfnCount(name) > |name|;
    forall i | 0 <= i < |name| ensures s[i] == Shown(name)[i] {
      assert s[i] == StoredChar(name, 0, i);
    }
    assert s[|name|] == StoredChar(name, 0, |name|);
    assert s == Shown(name) + s[|name|..];
    UpToNulStops(Shown(name), s[|name|..]);
  }

  /** The records below an 8.3 entry in `slot` are those of `name`. */
  ghost predicate NamedAt(dir: R.Slotted, slot: nat, name: seq<byte>) {
    && LfnCount(name) <= slot < ENTRIES
    && dir[slot][..11] == BlankName()
    && forall s :: slot - LfnCount(name) <= s < slot ==>
         dir[s] == LfnRecord(name, slot - 1 - s, |name| + 1, s == slot - LfnCount(name))
  }

  lemma {:induction false} LongCharsFrom(dir: R.Slotted, slot: nat, name: seq<byte>, n: nat)
    requires NamedAt(dir, slot, name) && 1 <= n <= LfnCount(name)
    ensures R.LongChars(dir, slot, n) == Some(Stored(name, n - 1, LfnCount(name)))
    decreases 16 - n
  {
    hide LfnRecord, R.RecordChars, R.NameSum, LfnChar;
    var m, s := LfnCount(name), slot - n;
    assert dir[s] == LfnRecord(name, slot - 1 - s, |name| + 1, s == slot - m);
    RecordFields(name, n - 1, n == m);
    RecordHolds(name, n - 1, n == m);
    if n == m {
    } else {
      LongCharsFrom(dir, slot, name, n + 1);
      assert Stored(name, n - 1, n) + Stored(name, n, m) == Stored(name, n - 1, m);
    }
  }

  /** The reader recovers the characters stored: the name itself exactly when its bytes are below 128. */
  lemma {:induction false} NameReads(dir: R.Slotted, slot: nat, name: seq<byte>)
    requires NamedAt(dir, slot, name) && forall i :: 0 <= i < |name| ==> name[i] != 0
    ensures R.LongName(dir, slot) == Shown(name)
    ensures R.LongName(dir, slot) == Wide(name) <==> Ascii7(name)
  {
    hide R.LongChars, R.UpToNul, Stored;
    ShownExactly(name);
    LongCharsFrom(dir, slot, name, 1);
    StoredName(name);
  }

  // ------------------------------------------------------- reading a directory

  /** What a placed record announces. */
  function Announced(name: seq<byte>, attr: byte, cluster: nat, size: nat): R.DirEntry {
    R.DirEntry(Shown(name), attr, cluster, size)
  }

  /** The 8.3 entry and long-name records of one placed name. */
  ghost predicate Holds(dir: R.Slotted, slot: nat, name: seq<byte>, len: nat, attr: byte, cluster: nat) {
    && LfnCount(name) <= slot < ENTRIES
    && dir[slot] == DosEntry(len, attr, cluster)
    && forall s :: slot - LfnCount(name) <= s < slot ==>
         dir[s] == LfnRecord(name, slot - 1 - s, |name| + 1, s == slot - LfnCount(name))
  }

  /** Entries, and more to come. */
  function Listed(entries: seq<R.DirEntry>): R.Listing {
    R.Listing(entries, false)
  }

  /** A long-name record lists nothing. */
  lemma SkippedSlot(dir: R.Slotted, k: nat)
    requires k < 16 && dir[k][0] != 0 && dir[k][11] == LFN_ATTR
    ensures R.ListSlots(dir, k + 1) == R.ListSlots(dir, k)
  {}

  lemma {:induction false} LfnSlotsSkipped(dir: R.Slotted, slot: nat, name: seq<byte>, len: nat, attr: byte,
                                           cluster: nat, n: nat)
    requires Holds(dir, slot, name, len, attr, cluster) && slot - LfnCount(name) <= n <= slot
    ensures R.ListSlots(dir, n) == R.ListSlots(dir, slot - LfnCount(name))
    decreases n
  {
    hide LfnRecord, R.LongName, R.ListSlot, R.Then, R.NameSum, DosEntry, BlankName, LfnCount;
    if n == slot - LfnCount(name) {
    } else {
      LfnSlotsSkipped(dir, slot, name, len, attr, cluster, n - 1);
      assert dir[n - 1] == LfnRecord(name, slot - n, |name| + 1, n - 1 == slot - LfnCount(name));
      RecordFields(name, slot - n, n - 1 == slot - LfnCount(name));
      SkippedSlot(dir, n - 1);
    }
  }

  /** Reading the slots of one placed name adds exactly its entry. */
  lemma {:induction false} PlacedEntry(dir: R.Slotted, slot: nat, name: seq<byte>, len: nat, attr: byte, cluster: nat)
    requires Holds(dir, slot, name, len, attr, cluster)
    requires len < 0x1_0000_0000 && cluster < 0x1_0000_0000 && attr != LFN_ATTR
    requires forall i :: 0 <= i < |name| ==> name[i] != 0
    ensures R.ListSlots(dir, slot + 1)
         == R.Then(R.ListSlots(dir, slot - LfnCount(name)), Listed([Announced(name, attr, cluster, len)]))
  {
    hide DosEntry, LfnRecord, R.LongName;
    DosFields(len, attr, cluster);
    NameReads(dir, slot, name);
    LfnSlotsSkipped(dir, slot, name, len, attr, cluster, slot);
  }

  lemma {:induction false} FreeSlotsSkipped(dir: R.Slotted, n: nat)
    requires n <= ENTRIES && forall s :: 0 <= s < n ==> dir[s] == DeletedEntry()
    ensures R.ListSlots(dir, n) == Listed([])
  {
    hide R.LongName;
    if n == 0 {
    } else {
      FreeSlotsSkipped(dir, n - 1);
    }
  }

  lemma PlaceHolds(dir: Entries, slot: nat, name: seq<byte>, len: nat, attr: byte, cluster: nat)
    requires LfnCount(name) <= slot < ENTRIES
    ensures Holds(Place(dir, slot, name, len, attr, cluster), slot, name, len, attr, cluster)
  {}

  // ---------------------------------------------------------- one file's sector

  /** What the directory sector of a file slot lists. */
  function FileEntry(files: Table, idx: nat): seq<R.DirEntry>
    requires idx < MAX_FILES
  {
    if files[idx].Present?
    then [Announced(files[idx].name, READ_ONLY, FileCluster(idx), files[idx].xlen)]
    else []
  }

  predicate ListableFile(f: File) {
    f.Present? && f.xlen < 0x1_0000_0000 && forall i :: 0 <= i < |f.name| ==> f.name[i] != 0
  }

  /** Names without NULs, lengths that fit the 32-bit size field. */
  predicate Listable(files: Table) {
    forall i :: 0 <= i < MAX_FILES && files[i].Present? ==> ListableFile(files[i])
  }

  lemma {:induction false} BelowUntouched(dir: Entries, slot: nat, name: seq<byte>, len: nat, attr: byte, cluster: nat)
    requires LfnCount(name) <= slot < ENTRIES
    ensures forall s :: 0 <= s < slot - LfnCount(name) ==> Place(dir, slot, name, len, attr, cluster)[s] == dir[s]
    ensures forall s :: slot < s < ENTRIES ==> Place(dir, slot, name, len, attr, cluster)[s] == dir[s]
  {
    hide DosEntry, LfnRecord;
  }

  /** Long-name round trip: the reader lists exactly the file the sector was built for. */
  lemma {:induction false} DirentListed(files: Table, idx: nat)
    requires idx < MAX_FILES && Listable(files)
    ensures R.ListSlots(R.Slots(DirentSector(files[idx], idx)), ENTRIES) == Listed(FileEntry(files, idx))
  {
    hide Flatten, R.Slots, R.ListSlots, Place, DosEntry, DeletedEntry, Shown;
    var f := files[idx];
    if f.Present? {
      assert ListableFile(f);
      var dir := Place(EmptyDir(), ENTRIES - 1, f.name, f.xlen, READ_ONLY, FileCluster(idx));
      SlotsOfFlatten(dir);
      PlaceHolds(EmptyDir(), ENTRIES - 1, f.name, f.xlen, READ_ONLY, FileCluster(idx));
      PlacedEntry(dir, ENTRIES - 1, f.name, f.xlen, READ_ONLY, FileCluster(idx));
      BelowUntouched(EmptyDir(), ENTRIES - 1, f.name, f.xlen, READ_ONLY, FileCluster(idx));
      FreeSlotsSkipped(dir, ENTRIES - 1 - LfnCount(f.name));
    } else {
      SlotsOfFlatten(EmptyDir());
      FreeSlotsSkipped(EmptyDir(), ENTRIES);
    }
  }

  // ------------------------------------------------------------ subdirectories

  /** Records are placed from the end of the sector down, so they are read in reverse order. */
  function SubdirEntries(subdirs: seq<Subdir>): seq<R.DirEntry> {
    if subdirs == [] then []
    else SubdirEntries(subdirs[1..]) + [Announced(subdirs[0].name, DIRECTORY, subdirs[0].cluster, 0)]
  }

  predicate Plain(subdirs: seq<Subdir>) {
    forall i :: 0 <= i < |subdirs| ==>
      subdirs[i].cluster < 0x1_0000_0000 && forall j :: 0 <= j < |subdirs[i].name| ==> subdirs[i].name[j] != 0
  }

  lemma {:induction false} PlaceAllAbove(dir: Entries, slot: int, subdirs: seq<Subdir>)
    requires slot < ENTRIES && FitsBelow(subdirs, slot)
    ensures forall s :: 0 <= s < ENTRIES && s > slot ==> PlaceAll(dir, slot, subdirs)[s] == dir[s]
    decreases |subdirs|
  {
    hide DosEntry, LfnRecord;
    if subdirs == [] {
    } else {
      var d := subdirs[0];
      BelowUntouched(dir, slot, d.name, 0, DIRECTORY, d.cluster);
      PlaceAllAbove(Place(dir, slot, d.name, 0, DIRECTORY, d.cluster), slot - 1 - LfnCount(d.name), subdirs[1..]);
    }
  }

  lemma {:induction false} HoldsPreserved(a: R.Slotted, b: R.Slotted, slot: nat, name: seq<byte>, len: nat,
                                          attr: byte, cluster: nat)
    requires Holds(a, slot, name, len, attr, cluster)
    requires forall s :: slot - LfnCount(name) <= s <= slot ==> b[s] == a[s]
    ensures Holds(b, slot, name, len, attr, cluster)
  {
    hide DosEntry, LfnRecord;
  }

  lemma {:induction false} StillFreeBelow(dir: Entries, slot: nat, d: Subdir)
    requires LfnCount(d.name) <= slot < ENTRIES && FreeBelow(dir, slot)
    ensures FreeBelow(Place(dir, slot, d.name, 0, DIRECTORY, d.cluster), slot - 1 - LfnCount(d.name))
  {
    hide DosEntry, LfnRecord, DeletedEntry;
  }

  lemma {:induction false} PlaceAllListed(dir: Entries, slot: int, subdirs: seq<Subdir>)
    requires -1 <= slot < ENTRIES && FitsBelow(subdirs, slot) && FreeBelow(dir, slot) && Plain(subdirs)
    ensures R.ListSlots(PlaceAll(dir, slot, subdirs), slot + 1) == Listed(SubdirEntries(subdirs))
    decreases |subdirs|
  {
    hide DosEntry, LfnRecord, R.ListSlots, Holds, DeletedEntry, Shown, Place;
    if subdirs == [] {
      FreeSlotsSkipped(dir, slot + 1);
    } else {
      var d := subdirs[0];
      var dir', slot' := Place(dir, slot, d.name, 0, DIRECTORY, d.cluster), slot - 1 - LfnCount(d.name);
      StillFreeBelow(dir, slot, d);
      PlaceAllListed(dir', slot', subdirs[1..]);
      PlaceAllAbove(dir', slot', subdirs[1..]);
      PlaceHolds(dir, slot, d.name, 0, DIRECTORY, d.cluster);
      HoldsPreserved(dir', PlaceAll(dir, slot, subdirs), slot, d.name, 0, DIRECTORY, d.cluster);
      PlacedEntry(PlaceAll(dir, slot, subdirs), slot, d.name, 0, DIRECTORY, d.cluster);
    }
  }

  lemma SubdirsPlain(k: nat)
    ensures Plain(Subdirs(k))
  {}

  lemma {:induction false} SubdirsListed(k: nat)
    ensures R.ListSlots(R.Slots(SubdirSector(k)), ENTRIES) == Listed(SubdirEntries(Subdirs(k)))
  {
    hide Flatten, R.Slots, R.ListSlots, PlaceAll, Subdirs;
    SubdirsFit(k);
    SubdirsPlain(k);
    SlotsOfFlatten(PlaceAll(EmptyDir(), ENTRIES - 1, Subdirs(k)));
    PlaceAllListed(EmptyDir(), ENTRIES - 1, Subdirs(k));
  }

  // --------------------------------------------------------- whole directories

  /** The entries of the first `n` file slots, in table order. */
  function FileEntries(files: Table, n: nat): seq<R.DirEntry>
    requires n <= MAX_FILES
  {
    if n == 0 then [] else FileEntries(files, n - 1) + FileEntry(files, n - 1)
  }

  /** The first sector of a directory lists its subdirectories. */
  lemma {:induction false} FirstSectorListed(files: Table, k: nat)
    requires k < DIRECTORIES
    ensures R.ListSector(DiskOf(files), DirectoryLba(k)) == Listed(SubdirEntries(Subdirs(k)))
  {
    hide SectorAt, R.ListSlots, R.Slots, SubdirSector, DirentSector, Subdirs, SubdirEntries;
    DirectorySector(files, k, DirectoryLba(k));
    SubdirsListed(k);
  }

  /** Each sector after it lists one file slot. */
  lemma {:induction false} FileSectorListed(files: Table, k: nat, idx: nat)
    requires k < DIRECTORIES && idx < MAX_FILES && Listable(files)
    ensures R.ListSector(DiskOf(files), DirectoryLba(k) + 1 + idx) == Listed(FileEntry(files, idx))
  {
    hide SectorAt, R.ListSlots, R.Slots, SubdirSector, DirentSector, FileEntry, Listable;
    DirectorySector(files, k, DirectoryLba(k) + 1 + idx);
    DirentListed(files, idx);
  }

  lemma {:induction false} DirectorySectorsListed(files: Table, k: nat, n: nat)
    requires k < DIRECTORIES && 1 <= n <= CLUSTER_COUNT && Listable(files)
    ensures R.ListSectors(DiskOf(files), DirectoryLba(k), n)
         == Listed(SubdirEntries(Subdirs(k)) + FileEntries(files, n - 1))
    decreases n
  {
    hide SectorAt, R.ListSector, Subdirs, SubdirEntries, FileEntry, Listable, DirectoryLba, SectorDisk;
    if n == 1 {
      FirstSectorListed(files, k);
      assert R.ListSectors(DiskOf(files), DirectoryLba(k), 0) == Listed([]);
    } else {
      DirectorySectorsListed(files, k, n - 1);
      FileSectorListed(files, k, n - 2);
    }
  }

  lemma {:induction false} DirectoryChain(files: Table, k: nat, fuel: nat)
    requires k < DIRECTORIES && fuel >= 1
    ensures R.Chain(DiskOf(files), GEOMETRY, ROOT_CLUSTER + k, fuel) == Some([ROOT_CLUSTER + k])
  {
    hide R.NextCluster, EndsFile, SectorAt;
    NextIsFatEntry(files, ROOT_CLUSTER + k);
  }

  lemma DirectoryPlace(k: nat)
    requires k < DIRECTORIES
    ensures R.ClusterLba(GEOMETRY, ROOT_CLUSTER + k) == DirectoryLba(k)
  {}

  lemma {:induction false} OneCluster(disk: R.Disk, c: nat)
    requires R.ClusterLba(GEOMETRY, c) >= 0
    ensures R.ListClusters(disk, GEOMETRY, [c])
         == R.ListSectors(disk, R.ClusterLba(GEOMETRY, c), GEOMETRY.sectorsPerCluster)
  {
    hide R.ListSectors, R.ClusterLba;
    assert R.ListClusters(disk, GEOMETRY, []) == Listed([]);
    assert [c][..0] == [];
  }

  /**
   Every directory lists its subdirectories and then, in table order, exactly the files
   that were added, each with its name, length, attributes and first cluster.
   */
  lemma {:induction false} DirectoryListed(files: Table, k: nat)
    requires k < DIRECTORIES && Listable(files)
    ensures R.ListDirectory(DiskOf(files), GEOMETRY, ROOT_CLUSTER + k, CLUSTERS)
         == Some(SubdirEntries(Subdirs(k)) + FileEntries(files, MAX_FILES))
  {
    hide SectorAt, R.ListSectors, R.Chain, Subdirs, SubdirEntries, FileEntries;
    DirectoryChain(files, k, CLUSTERS);
    DirectorySectorsListed(files, k, CLUSTER_COUNT);
    DirectoryPlace(k);
    OneCluster(DiskOf(files), ROOT_CLUSTER + k);
  }

  // -------------------------------------------------------------------- paths

  /** The subdirectory of that name. The last placed is listed first. */
  function FindSubdir(subdirs: seq<Subdir>, name: seq<nat>): (r: Option<Subdir>)
    ensures r.Some? ==> r.value in subdirs
  {
    if subdirs == [] then None
    else
      match FindSubdir(subdirs[1..], name)
      case Some(d) => Some(d)
      case None => if R.SameName(Shown(subdirs[0].name), name) then Some(subdirs[0]) else None
  }

  lemma SubdirClusters(k: nat, d: Subdir)
    requires d in Subdirs(k)
    ensures ROOT_CLUSTER <= d.cluster < ROOT_CLUSTER + DIRECTORIES
  {}

  /** The directory that `path` names, from directory `k`. */
  function Follow(k: nat, path: seq<seq<nat>>): (r: Option<nat>)
    ensures k < DIRECTORIES && r.Some? ==> r.value < DIRECTORIES
    decreases |path|
  {
    if path == [] then Some(k)
    else
      match FindSubdir(Subdirs(k), path[0])
      case None => None
      case Some(d) =>
        SubdirClusters(k, d);
        Follow(d.cluster - ROOT_CLUSTER, path[1..])
  }

  lemma {:induction false} FindAppend(a: seq<R.DirEntry>, b: seq<R.DirEntry>, name: seq<nat>)
    ensures R.Find(a + b, name) == if R.Find(a, name).Some? then R.Find(a, name) else R.Find(b, name)
  {
    hide R.SameName;
    if a == [] {
      assert a + b == b;
    } else {
      assert (a + b)[1..] == a[1..] + b;
      FindAppend(a[1..], b, name);
    }
  }

  lemma {:induction false} FindAmongSubdirs(subdirs: seq<Subdir>, name: seq<nat>)
    ensures R.Find(SubdirEntries(subdirs), name) == match FindSubdir(subdirs, name)
      case None => None
      case Some(d) => Some(Announced(d.name, DIRECTORY, d.cluster, 0))
  {
    hide R.SameName, Shown;
    if subdirs == [] {
    } else {
      var last := [Announced(subdirs[0].name, DIRECTORY, subdirs[0].cluster, 0)];
      FindAmongSubdirs(subdirs[1..], name);
      FindAppend(SubdirEntries(subdirs[1..]), last, name);
      assert R.Find(last[1..], name) == None;
    }
  }

  lemma {:induction false} FilesAreNotDirectories(files: Table, n: nat, name: seq<nat>)
    requires n <= MAX_FILES
    ensures var r := R.Find(FileEntries(files, n), name); r.Some? ==> !R.IsDirectory(r.value)
  {
    hide R.SameName, Shown;
    if n == 0 {
    } else {
      FilesAreNotDirectories(files, n - 1, name);
      FindAppend(FileEntries(files, n - 1), FileEntry(files, n - 1), name);
      if FileEntry(files, n - 1) != [] {
        assert FileEntry(files, n - 1)[1..] == [];
      }
    }
  }

  lemma DirectoryBit()
    ensures forall e: R.DirEntry :: e.attr == DIRECTORY ==> R.IsDirectory(e)
  {}

  /** Following names from directory to directory, the reader gets where the fixed tree leads, and nowhere else. */
  lemma {:induction false} WalkFollows(files: Table, k: nat, path: seq<seq<nat>>)
    requires k < DIRECTORIES && Listable(files)
    ensures R.Walk(DiskOf(files), GEOMETRY, ROOT_CLUSTER + k, path, CLUSTERS) == match Follow(k, path)
      case None => None
      case Some(j) => Some(ROOT_CLUSTER + j)
    decreases |path|
  {
    hide SectorDisk, SectorAt, R.ListDirectory, R.Find, Subdirs, SubdirEntries, FileEntries, FindSubdir, Listable;
    hide DiskOf, Shown, R.IsDirectory;
    DirectoryBit();
    if path == [] {
    } else {
      DirectoryListed(files, k);
      FindAppend(SubdirEntries(Subdirs(k)), FileEntries(files, MAX_FILES), path[0]);
      FindAmongSubdirs(Subdirs(k), path[0]);
      FilesAreNotDirectories(files, MAX_FILES, path[0]);
      if FindSubdir(Subdirs(k), path[0]).Some? {
        var d := FindSubdir(Subdirs(k), path[0]).value;
        SubdirClusters(k, d);
        WalkFollows(files, d.cluster - ROOT_CLUSTER, path[1..]);
      }
    }
  }

  lemma {:induction false} NotFoundByLength(subdirs: seq<Subdir>, name: seq<nat>)
    requires forall j :: 0 <= j < |subdirs| ==> |subdirs[j].name| != |name|
    ensures FindSubdir(subdirs, name) == None
  {
    if subdirs == [] {
    } else {
      NotFoundByLength(subdirs[1..], name);
    }
  }

  /** A name is found when it is some subdirectory's and no other has a name as long. */
  lemma {:induction false} FoundByLength(subdirs: seq<Subdir>, i: nat)
    requires i < |subdirs|
    requires forall j :: 0 <= j < |subdirs| && j != i ==> |subdirs[j].name| != |subdirs[i].name|
    ensures FindSubdir(subdirs, Shown(subdirs[i].name)) == Some(subdirs[i])
  {
    if i > 0 {
      FoundByLength(subdirs[1..], i - 1);
    } else {
      NotFoundByLength(subdirs[1..], Shown(subdirs[0].name));
    }
  }

  lemma SubdirLengths(k: nat, i: nat, j: nat)
    requires i < |Subdirs(k)| && j < |Subdirs(k)| && i != j
    ensures |Subdirs(k)[i].name| != |Subdirs(k)[j].name|
  {}

  /** One name of a path leads from directory `k` to the directory of its `i`-th record. */
  lemma {:induction false} Step(k: nat, i: nat, path: seq<seq<nat>>, rest: seq<seq<nat>>)
    requires k < DIRECTORIES && i < |Subdirs(k)| && path == [Shown(Subdirs(k)[i].name)] + rest
    ensures Subdirs(k)[i].cluster >= ROOT_CLUSTER
    ensures Follow(k, path) == Follow(Subdirs(k)[i].cluster - ROOT_CLUSTER, rest)
  {
    hide FindSubdir, Subdirs, Shown;
    assert path[1..] == rest;
    forall j | 0 <= j < |Subdirs(k)| && j != i ensures |Subdirs(k)[j].name| != |Subdirs(k)[i].name| {
      SubdirLengths(k, i, j);
    }
    FoundByLength(Subdirs(k), i);
    SubdirClusters(k, Subdirs(k)[i]);
  }

  /** A name as a reader writes it. */
  function Name(s: string): seq<nat> {
    seq(|s|, i requires 0 <= i < |s| => s[i] as int)
  }

  lemma NameIsShown(s: string)
    requires forall i :: 0 <= i < |s| ==> s[i] < 128 as char
    ensures Name(s) == Shown(Ascii(s))
  {}

  lemma {:induction false} Tree()
    ensures Subdirs(0) == [Subdir(Ascii("BOOT"), 3), Subdir(Ascii("SOURCES"), 4), Subdir(Ascii("EFI"), 7)]
    ensures Subdirs(1) == [Subdir(Ascii("FONTS"), 5), Subdir(Ascii("RESOURCES"), 6)]
    ensures Subdirs(5) == [Subdir(Ascii("BOOT"), 3), Subdir(Ascii("MICROSOFT"), 8)]
    ensures Subdirs(6) == [Subdir(Ascii("BOOT"), 3)]
  {
    hide Ascii;
  }

  lemma Arrived(k: nat)
    ensures Follow(k, []) == Some(k)
  {}

  /** The paths of the seven directories, and the other paths to the boot directory. */
  lemma {:induction false} DirectoryPaths()
    ensures Follow(0, []) == Some(0)
    ensures Follow(0, [Name("BOOT")]) == Some(1)
    ensures Follow(0, [Name("SOURCES")]) == Some(2)
    ensures Follow(0, [Name("BOOT"), Name("FONTS")]) == Some(3)
    ensures Follow(0, [Name("BOOT"), Name("RESOURCES")]) == Some(4)
    ensures Follow(0, [Name("EFI")]) == Some(5)
    ensures Follow(0, [Name("EFI"), Name("MICROSOFT")]) == Some(6)
    ensures Follow(0, [Name("EFI"), Name("BOOT")]) == Some(1)
    ensures Follow(0, [Name("EFI"), Name("MICROSOFT"), Name("BOOT")]) == Some(1)
  {
    hide FindSubdir, Shown, Ascii, Subdirs, Follow, Name;
    Tree();
    NameIsShown("BOOT");
    NameIsShown("SOURCES");
    NameIsShown("EFI");
    NameIsShown("FONTS");
    NameIsShown("RESOURCES");
    NameIsShown("MICROSOFT");
    Arrived(0);
    Arrived(1);
    Arrived(2);
    Arrived(3);
    Arrived(4);
    Arrived(5);
    Arrived(6);
    Step(0, 0, [Name("BOOT")], []);
    Step(0, 1, [Name("SOURCES")], []);
    Step(0, 2, [Name("EFI")], []);
    Step(1, 0, [Name("FONTS")], []);
    Step(1, 1, [Name("RESOURCES")], []);
    Step(5, 0, [Name("BOOT")], []);
    Step(5, 1, [Name("MICROSOFT")], []);
    Step(6, 0, [Name("BOOT")], []);
    Step(0, 0, [Name("BOOT"), Name("FONTS")], [Name("FONTS")]);
    Step(0, 0, [Name("BOOT"), Name("RESOURCES")], [Name("RESOURCES")]);
    Step(0, 2, [Name("EFI"), Name("MICROSOFT")], [Name("MICROSOFT")]);
    Step(0, 2, [Name("EFI"), Name("BOOT")], [Name("BOOT")]);
    Step(5, 1, [Name("MICROSOFT"), Name("BOOT")], [Name("BOOT")]);
    Step(0, 2, [Name("EFI"), Name("MICROSOFT"), Name("BOOT")], [Name("MICROSOFT"), Name("BOOT")]);
  }

  // ------------------------------------------------------------- end to end

  lemma {:induction false} ListableIsBounded(files: Table)
    requires Listable(files)
    ensures Bounded(files)
  {
    forall i | 0 <= i < MAX_FILES && files[i].Present? ensures FitsSlot(files[i].xlen) {
      assert ListableFile(files[i]);
    }
  }

  lemma EmptyPadded(content: seq<byte>)
    ensures Padded(content, 0) == []
  {}

  /** A file's chain yields its padded content, unless it is empty and last. */
  lemma {:induction false} FileData(files: Table, idx: nat)
    requires Listable(files) && idx < MAX_FILES && files[idx].Present?
    ensures var f, follows := files[idx], NextFile(files, idx + 1) < MAX_FILES;
      R.ReadFile(DiskOf(files), GEOMETRY, FileCluster(idx), f.xlen, CLUSTERS)
      == if f.xlen > 0 || follows then Some(Padded(f.content, f.xlen)) else None
  {
    hide SectorAt, R.ReadFile, Padded, FileCluster, SectorDisk, DiskOf, Listable, NextFile;
    ListableIsBounded(files);
    if files[idx].xlen > 0 {
      FileReads(files, idx);
    } else {
      EmptyFileReads(files, idx);
      EmptyPadded(files[idx].content);
    }
  }

  lemma {:induction false} EntryListed(files: Table, idx: nat, n: nat)
    requires idx < n <= MAX_FILES && files[idx].Present?
    ensures Announced(files[idx].name, READ_ONLY, FileCluster(idx), files[idx].xlen) in FileEntries(files, n)
  {
    hide Shown;
    if idx == n - 1 {
    } else {
      EntryListed(files, idx, n - 1);
    }
  }

  /** The directory at `path` lists the file, and reading the entry's chain gives its padded content. */
  ghost predicate Visible(disk: R.Disk, path: seq<seq<nat>>, f: File, cluster: nat)
    requires f.Present?
  {
    var g := R.ReadGeometry(disk);
    match R.Walk(disk, g, g.root, path, CLUSTERS)
    case None => false
    case Some(dir) =>
      var entry := Announced(f.name, READ_ONLY, cluster, f.xlen);
      && R.ListDirectory(disk, g, dir, CLUSTERS).Some?
      && entry in R.ListDirectory(disk, g, dir, CLUSTERS).value
      && R.ReadFile(disk, g, entry.cluster, entry.size, CLUSTERS) == Some(Padded(f.content, f.xlen))
  }

  /**
   End to end: a reader that starts from nothing but the disk and a path to any of the
   directories finds there each file that was added, and reading that entry's chain yields
   the file's content padded to its length: always for a file with bytes, whatever the other
   files, and for an empty one if and only if another file follows it in the table.
   */
  lemma {:induction false} FilesVisible(files: Table, path: seq<seq<nat>>, idx: nat)
    requires Follow(0, path).Some? && idx < MAX_FILES && files[idx].Present?
    requires Listable(files)
    ensures Visible(DiskOf(files), path, files[idx], FileCluster(idx))
      <==> files[idx].xlen > 0 || NextFile(files, idx + 1) < MAX_FILES
  {
    hide SectorAt, R.ListDirectory, R.ReadFile, Subdirs, SubdirEntries, FileEntries, R.ReadGeometry, Padded;
    hide FileCluster, Shown, SectorDisk, DiskOf, Listable, Follow, R.Walk, NextFile;
    Geometry(files);
    WalkFollows(files, 0, path);
    DirectoryListed(files, Follow(0, path).value);
    EntryListed(files, idx, MAX_FILES);
    FileData(files, idx);
  }

  // ------------------------------------------------------- files by name

  predicate HasName(files: Table, i: nat, name: seq<nat>) {
    i < MAX_FILES && files[i].Present? && R.SameName(Shown(files[i].name), name)
  }

  /** The first of the first `n` slots whose file has that name. */
  function Holder(files: Table, name: seq<nat>, n: nat): (r: Option<nat>)
    requires n <= MAX_FILES
    ensures r.Some? ==> r.value < n && HasName(files, r.value, name)
    ensures forall i :: 0 <= i < (if r.Some? then r.value else n) ==> !HasName(files, i, name)
  {
    if n == 0 then None
    else if Holder(files, name, n - 1).Some? then Holder(files, name, n - 1)
    else if HasName(files, n - 1, name) then Some(n - 1)
    else None
  }

  lemma {:induction false} FindAmongFiles(files: Table, n: nat, name: seq<nat>)
    requires n <= MAX_FILES
    ensures R.Find(FileEntries(files, n), name) == match Holder(files, name, n)
      case None => None
      case Some(i) => Some(FileEntry(files, i)[0])
  {
    hide R.SameName, Shown;
    if n == 0 {
    } else {
      FindAmongFiles(files, n - 1, name);
      FindAppend(FileEntries(files, n - 1), FileEntry(files, n - 1), name);
      if files[n - 1].Present? {
        assert FileEntry(files, n - 1)[1..] == [];
      }
    }
  }

  /** What opening a name in directory `k` yields: the first file of that name that no directory hides. */
  function Opened(files: Table, k: nat, name: seq<nat>): Option<seq<byte>> {
    if FindSubdir(Subdirs(k), name).Some? then None
    else
      match Holder(files, name, MAX_FILES)
      case None => None
      case Some(i) =>
        if files[i].xlen > 0 || NextFile(files, i + 1) < MAX_FILES then Some(Padded(files[i].content, files[i].xlen))
        else None
  }

  lemma {:induction false} EntryOpens(files: Table, k: nat, name: seq<nat>)
    requires Listable(files) && k < DIRECTORIES
    ensures var disk := DiskOf(files);
      R.OpenEntry(disk, GEOMETRY, R.ListDirectory(disk, GEOMETRY, ROOT_CLUSTER + k, CLUSTERS), name, CLUSTERS)
      == Opened(files, k, name)
  {
    hide SectorAt, R.ListDirectory, R.ReadFile, Subdirs, SubdirEntries, FileEntries, Padded, R.Find, FindSubdir;
    hide FileCluster, Shown, SectorDisk, DiskOf, Listable, NextFile, Holder;
    DirectoryListed(files, k);
    FindAppend(SubdirEntries(Subdirs(k)), FileEntries(files, MAX_FILES), name);
    FindAmongSubdirs(Subdirs(k), name);
    FindAmongFiles(files, MAX_FILES, name);
    var holder := Holder(files, name, MAX_FILES);
    if holder.Some? {
      FileData(files, holder.value);
    }
  }

  /**
   Opening any name at any path yields the padded content of the first file of that name, case
   ignored, and fails where a directory of that name hides it, where no file has it, where the
   path leads nowhere, and for an empty file that no other follows.
   */
  lemma {:induction false} FileOpens(files: Table, path: seq<seq<nat>>, name: seq<nat>)
    requires Listable(files)
    ensures R.OpenFile(DiskOf(files), path, name, CLUSTERS) == match Follow(0, path)
      case None => None
      case Some(k) => Opened(files, k, name)
  {
    hide SectorAt, R.ListDirectory, R.OpenEntry, R.ReadGeometry, SectorDisk, DiskOf, Listable, Follow, R.Walk, Opened;
    Geometry(files);
    WalkFollows(files, 0, path);
    if Follow(0, path).Some? {
      EntryOpens(files, Follow(0, path).value, name);
    }
  }

  lemma OwnName(files: Table, idx: nat)
    requires idx < MAX_FILES && files[idx].Present?
    ensures HasName(files, idx, Shown(files[idx].name))
  {}

  lemma NotADirectory(files: Table, idx: nat)
    requires idx < MAX_FILES && files[idx].Present?
    ensures FileEntry(files, idx)[0].attr != DIRECTORY
  {}

  /** No two slots have the same entry. */
  lemma {:induction false} EntryTells(files: Table, i: nat, j: nat, name: seq<nat>)
    requires HasName(files, i, name) && HasName(files, j, name)
    ensures FileEntry(files, i)[0] == FileEntry(files, j)[0] <==> i == j
  {
    hide Shown, FileCluster;
    if FileCluster(i) == FileCluster(j) {
      SlotsDisjoint(i, 0, j, 0);
    }
  }

  /**
   A file is what its own name finds, in directory `k`, exactly when no subdirectory of that
   directory and no earlier file has the name, case ignored.
   */
  lemma {:induction false} FoundByName(files: Table, k: nat, idx: nat)
    requires k < DIRECTORIES && idx < MAX_FILES && files[idx].Present?
    ensures var name := Shown(files[idx].name);
      R.Find(SubdirEntries(Subdirs(k)) + FileEntries(files, MAX_FILES), name) == Some(FileEntry(files, idx)[0])
      <==> FindSubdir(Subdirs(k), name).None? && forall i :: 0 <= i < idx ==> !HasName(files, i, name)
  {
    hide Subdirs, SubdirEntries, FileEntries, R.Find, FindSubdir, Shown, Holder, FileEntry, HasName;
    var name := Shown(files[idx].name);
    FindAppend(SubdirEntries(Subdirs(k)), FileEntries(files, MAX_FILES), name);
    FindAmongSubdirs(Subdirs(k), name);
    FindAmongFiles(files, MAX_FILES, name);
    OwnName(files, idx);
    var holder := Holder(files, name, MAX_FILES);
    if FindSubdir(Subdirs(k), name).Some? {
      NotADirectory(files, idx);
    } else if holder.Some? {
      EntryTells(files, holder.value, idx, name);
    }
  }

  lemma {:induction false} BootSubdir(subdirs: seq<Subdir>)
    requires subdirs != [] && subdirs[0].name == Ascii("BOOT")
    ensures FindSubdir(subdirs, Name("boot")).Some?
  {
    var a, b := Shown(Ascii("BOOT")), Name("boot");
    assert |a| == |b| == 4;
    assert R.Upper(a[0]) == R.Upper(b[0]) && R.Upper(a[1]) == R.Upper(b[1]);
    assert R.Upper(a[2]) == R.Upper(b[2]) && R.Upper(a[3]) == R.Upper(b[3]);
  }

  /** The failing input: in the root the boot directory hides a file named "boot". */
  lemma {:induction false} BootHidden(files: Table)
    requires Listable(files)
    ensures R.OpenFile(DiskOf(files), [], Name("boot"), CLUSTERS) == None
  {
    hide SectorDisk, DiskOf, Listable, R.OpenFile, FindSubdir;
    FileOpens(files, [], Name("boot"));
    Tree();
    BootSubdir(Subdirs(0));
  }
}
