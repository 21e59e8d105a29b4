# ntloader verification

A Dafny model of the algorithms inside ntloader, a boot loader for Windows images, with proofs that
they do what the loader needs of them. The model keeps the loader's own form: loops over mutable
state are methods with invariants, in-place buffers are arrays, structures whose fields are updated
are classes, and expression macros are functions. Each method is proved against a specification
function or a direct statement of its result, and the theorems are about those specifications.

What is modelled:

- **Decompression.** The canonical Huffman alphabet with its quick-lookup table and re-based raw
  pointers (`HuffmanCode`, `HuffmanAlphabet`); LZ77 tokens and the overlapping copy (`Lz77`);
  LZ77+Huffman, section 2.2 of MS-XCA (`XcaStream`, `XcaDecompress`, `XcaLayout`, `XcaRoundTrip`); LZNT1,
  section 2.5 of MS-XCA (`Lznt1Format`, `Lznt1Decompress`, `Lznt1RoundTrip`). The abstract XCA
  decoder works on a queue of bits; the code's 32-bit accumulator is proved to represent it. Input is
  a total byte memory with a length, because both decoders look past the length before they report
  an error.
- **The virtual FAT32 disk.** Sector contents (`VdiskLayout`, `VdiskSectors`), builders that fill the
  caller's buffer (`VdiskBuffer`, `VdiskDirectory`, `Vdisk`), fragment-by-fragment reads (`VdiskRead`,
  `Vdisk`), and an independent FAT32 reader (`FatReader`) that starts from the boot sectors, follows
  paths from the root and stops listing a directory at a free entry. It is shown to see exactly the
  files that were added (`VdiskFat`, `VdiskListing`).
- **Relocation above 4GB** through a 2MB copy window while the page directory changes (`Paging`).
- **Tables and readers.** The PE base-relocation table (`PeReloc`, `PeRelocTable`), the cpio writer
  and reader with `strtoul` (`CString`, `Cpio`, `CpioWriter`, `CpioRoundTrip`), registry subkey lookup
  and deletion (`Registry`, `RegistryDelete`), device-path ordering and the sorted device list
  (`DevicePath`, `DeviceList`).
- **64-bit division** by two shift-and-subtract loops (`Division`).

Run `dafny verify dfyconfig.toml` here to check everything.

## What the proofs found

Where the code does not do what one would expect of it, the model follows the code and the exact
condition is proved.

- *Unused Huffman alphabet.* For an all-zero length table the builder assumes two one-bit codes and
  moves the raw pointer two entries below the raw table, so decoding reads the end of the lookup
  table instead. The value read is always 0 with length 1 (`Alphabet.UnusedAlphabet`), and a decode
  leaves the raw table exactly for such tables (`Alphabet.OutsideExactlyWhenUnused`).
- *The end of an XCA stream.* A match of distance 1 and length 3 has the same symbol as the end
  marker, the decoder stops as soon as its source reaches the end, even with bits still buffered, and
  after a full 64K block it expects another code table. `XcaRoundTrip.RoundTrip` gives the exact
  condition for a round trip, with or without an end marker and whatever bytes follow the stream:
  every token but the last leaves a byte unread, every such match leaves two, and then the stream is
  read to its end. With a last block below 64K that means at most one byte after the end marker;
  without one, nothing, or few enough bytes when the zeros that pad the block read as an end marker
  (`XcaRoundTrip.ShortLastBlock`). After a full last block nothing may be left at all
  (`XcaRoundTrip.FullLastBlock`), unless the rest reads as one more empty block, and with less than a
  code table left the result is -1 (`XcaRoundTrip.RoundTrip`). With one byte after the end marker only
  a match standing where nothing but the end marker is left is lost (`XcaRoundTrip.OneByteAfter`).
  Failing inputs: two literals with nothing after the end marker lose the second
  (`XcaRoundTrip.LiteralLost`, `XcaRoundTrip.LiteralNotDecoded`); a single such match is lost even with
  one byte after it (`XcaRoundTrip.RunLost`); 65536 bytes in one block decode with nothing after the
  end marker and give -1 with one byte (`XcaRoundTrip.FullBlockOverruns`).
- *LZNT1 block overrun.* A compressed block that overruns the input is decoded before it is
  noticed; the result is then -1 all the same, since success is equivalent to headers that tile the
  input and blocks that decode (`Lznt1Format.SucceedsWhenTiled`).
- *Reads into the first file.* A read that starts below LBA 0x800000 and crosses it fills the file's
  sectors with zeros: a gap fragment is cut at the next region, but the region table has no files. A
  multi-sector read equals the concatenation of single-sector reads, for every table of files, if
  and only if it does not cross that LBA from below (`VdiskRead.ReadIsConcatenation`,
  `VdiskRead.CrossingReadDiffers`). Cluster-sized reads never do (`VdiskFat.ClusterRead`).
- *Empty file on the virtual disk.* Its end-of-chain marker falls on the cluster before its first, the
  last one of the slot before. So a slot holds an end marker exactly when its file has bytes or the
  next slot's file has none (`VdiskFat.ChainEndsInSlot`), an empty file's chain runs on through the
  slots after it to the end of the next file, or to the cluster before that file if it is empty too
  (`VdiskFat.EmptyFileChain`), and with no file after it the chain never ends: it reads as empty if and
  only if another file follows it in the table (`VdiskFat.EmptyFileReads`). Files with bytes are not
  affected.
- *File names on the virtual disk.* A byte of 128 or more is stored with its sign extended, so a name
  reads back as it is if and only if all its bytes are below 128 (`VdiskListing.NameReads`). Names that
  differ only in case, or name a directory, hide each other: a file is opened under its own name if and
  only if no subdirectory of that directory and no earlier file has it (`VdiskListing.FoundByName`). In
  the root a file named "boot" cannot be opened (`VdiskListing.BootHidden`).
- *Data in the copy window.* Data that shares the window's 2MB page keeps its virtual view but is not
  copied: the physical range returned is complete, whatever memory held, if and only if the data
  avoids that page (`Paging.CompleteIffOutsideWindow`).
- *Data beside the relocated data.* Bytes that share a 2MB page with the data but are not part of it
  move with the mapping and not with the copy: they show whatever memory held beside the copy
  (`Paging.BesideTheData`). `Paging.SameViewExactly` says which addresses read the same whatever
  memory holds.
- *Device paths that end in a broken node.* The comparison does not tell broken nodes apart: two paths
  compare equal if and only if they have the same nodes before the last and the last are the same or
  both broken (`DevicePath.CompareAlike`). Of devices that differ only so, the list keeps the one added
  first, so it then depends on the order of additions (`DeviceList.AddAllMembers`,
  `DeviceList.OrderDoesNotMatter`); `DeviceList.BrokenDropped` gives two such devices.
- *cpio.* A file named as the trailer ends the extraction, so all files are seen exactly when none has
  that name (`CpioRoundTrip.BeforeTrailer`); sizes are cut to 32 bits, so a file is stored whole
  exactly when it is smaller than 4GB (`CpioRoundTrip.StoredWhole`). A size field with a minus sign
  can make a member's length zero modulo 2^64; the reader then makes no progress, which the model
  reports as the outcome `Forever`. That happens exactly when the handler accepts every call up to a
  member whose length is zero (or, in an archive that fills the address space, rounds to zero)
  (`Cpio.StandsStill`, `Cpio.ForeverExactly`); the member named "A" with name size "00000002" and file
  size "-0000070" is one (`Cpio.CirclingForever`).

## Model

| member | source | states |
|---|---|---|
| HuffmanCode.PrefixFree | libnt/huffman.c:149-170 | No codeword of a table that fits the code space is a prefix of another symbol's codeword. |
| HuffmanCode.MatchIsInterval | libnt/huffman.c:149-170 | A symbol's codeword begins a bit string exactly when the string's 16-bit window lies in that symbol's interval of the code space. |
| HuffmanCode.MatchUnique | libnt/huffman.c:149-170 | At most one symbol's codeword begins a given bit string. |
| HuffmanCode.MatchExists | libnt/huffman.c:149-170 | With a complete code every bit string of 16 bits or more begins with some symbol's codeword. |
| HuffmanCode.StartIsSpace | libnt/huffman.c:150-168 | The running code number is the space taken by all shorter codes, so class starts are consecutive. |
| HuffmanAlphabet.SlotDistinct | libnt/huffman.c:172-181 | No two used symbols are stored in the same raw-table entry. |
| HuffmanAlphabet.OverflowMeansTooManyCodes | libnt/huffman.c:161-166 | The early exit is taken only when the Kraft sum exceeds the code space. |
| HuffmanAlphabet.CompleteMeansKraft | libnt/huffman.c:170-170 | The final completeness test holds exactly for an unused table or a Kraft sum of exactly 2^16. |
| HuffmanAlphabet.Alphabet.Build | libnt/huffman.c:113-212 | Builds classes, raw table and quick lookup in place; returns 0 exactly when all lengths are zero or the Kraft sum of 2^(16-len) is 2^16, and then the finished tables describe the canonical code. |
| HuffmanAlphabet.Alphabet.FindSymbols | libnt/huffman.c:221-234 | Quick lookup plus backward walk ends at the last class starting at or before the window, never below class 0. |
| HuffmanAlphabet.Alphabet.RawSymbolMatches | include/huffman.h:102-107 | In a used alphabet the re-based pointer stays in the raw table and yields the symbol whose codeword begins the input. |
| HuffmanAlphabet.Alphabet.UnusedAlphabet | libnt/huffman.c:141-147 | With all lengths zero every window reads one of the two entries below the raw table, which hold 0. |
| HuffmanAlphabet.Alphabet.OutsideExactlyWhenUnused | libnt/huffman.c:183-194 | A decode indexes below the raw table if and only if the alphabet is unused. |
| HuffmanAlphabet.Alphabet.DecodeSymbol | libnt/xca.c:104-109 | The symbol and length read off a window are those of the unique codeword that begins the unread bits. |
| Lz77.CopyIsPeriodic | libnt/xca.c:165-172 | An overlapping copy is the periodic extension of the last `distance` bytes of output. |
| Lz77.CopyMatch | libnt/lznt1.c:90-97 | The byte-by-byte copy loop appends exactly that extension and changes nothing after it. |
| Lz77.ExpandIgnoresUnder | libnt/xca.c:165-172 | If every match stays inside the output, the expansion does not depend on memory below the buffer. |
| XcaRoundTrip.ReadsTable | include/xca.h:64-69 | A length table written two nibbles a byte, even symbols low, is read back as the same lengths. |
| XcaStream.ReturnIsSize | libnt/xca.c:116-177 | A non-negative result is the total size of the decoded tokens; the only other result is -1. |
| XcaStream.NextToken | libnt/xca.c:104-163 | Each decoding step other than the end marker strictly lowers the number of unread bits and leaves 16 to 32 bits queued. |
| XcaDecompress.ShiftConsumes | libnt/xca.c:108-109 | Shifting the 32-bit accumulator left consumes bits from the front of the queue and keeps zeros below. |
| XcaDecompress.TopBits | libnt/xca.c:150-151 | The accumulator's top bits are the next unread bits, as a number. |
| XcaDecompress.RefillAppends | libnt/xca.c:110-114 | OR-ing in the next 16-bit word shifted below the spare bits appends it to the queue, touching no queued bit. |
| XcaDecompress.ConsumeBits | libnt/xca.c:157-163 | Shift and refill keep accumulator, spare-bit count and source position equal to the abstract queue's. |
| XcaDecompress.InitBlock | libnt/xca.c:73-102 | Block start succeeds exactly for an acceptable length table, and then the accumulator holds the first 32 bits. |
| XcaDecompress.ReadToken | libnt/xca.c:104-163 | One round decodes the same token, or the same end marker, as the abstract decoder, and stays in step with it with at most 16 extra bits. |
| XcaDecompress.Advance | libnt/xca.c:104-173 | One round appends the token's bytes and lowers the termination measure of unread bits. |
| XcaDecompress.DecompressInto | libnt/xca.c:50-182 | For every input, with or without a buffer, the result is the abstract decoder's and the buffer holds exactly the expansion of its tokens; hence the sizing pass returns what the writing pass does. |
| XcaDecompress.Extract | utils/bmtool.c:182-198 | Sizing, allocating and decompressing again fills an image of exactly the size announced; if matches stay in range it does not depend on memory outside it. |
| XcaLayout.TokenDecodes | libnt/xca.c:104-163 | Before any token of an encoded block the decoder reads that token and moves exactly past its bits and raw bytes, unless it takes a run match for the end marker. |
| XcaLayout.BitBalance | libnt/xca.c:110-114 | Every 16-bit word fetched for a block is either code bits or still buffered at its end. |
| XcaRoundTrip.FullBlockStops | libnt/xca.c:70-102 | After a full block the decoder stops without another token exactly when nothing is left or the rest reads as one more block of no tokens. |
| XcaRoundTrip.LastBlockDecodes | libnt/xca.c:71-181 | From any token of the last block on, full or not, with or without an end marker and with any bytes after it, decoding returns the remaining tokens if and only if each leaves enough bytes unread and the decoder stops right after the last; a full block with too few bytes left for a table gives -1. |
| XcaRoundTrip.PaddingDecodes | libnt/xca.c:104-128 | After the last token of a block without an end marker the decoder stops exactly when the end marker's codeword is all zeros and at most one byte is left once the next word is fetched. |
| XcaRoundTrip.FullBlockDecodes | libnt/xca.c:73-102 | A full block decodes to its tokens and leaves the decoder at the next block's table. |
| XcaRoundTrip.StreamDecodes | libnt/xca.c:70-181 | A whole stream of blocks, with any bytes after it, decodes to its tokens if and only if those of the last block are all read and decoding stops there. |
| XcaRoundTrip.RoundTrip | libnt/xca.c:70-181 | For every valid stream, with or without an end marker, and every trailing bytes: decoding returns exactly the tokens and their size if and only if the last block is read to its end; when it is full and too few bytes for a table are left, the tokens come with the result -1. |
| XcaRoundTrip.ShortLastBlock | libnt/xca.c:71-181 | With a last block below 64K that is exactly when every token but the last leaves a byte unread, every run match leaves two, and at most one byte follows the end marker; without an end marker, nothing follows, or few enough bytes when the padding reads as one. |
| XcaRoundTrip.FullLastBlock | libnt/xca.c:74-88 | With a full last block and less than a code table after it, exactly when the tokens are read and nothing at all is left. |
| XcaRoundTrip.OneByteAfter | libnt/xca.c:124-128 | With one byte after the end marker the tokens are all read exactly when no run match stands where the end marker is all there is and nothing of it is left to fetch. |
| XcaRoundTrip.LiteralLost | libnt/xca.c:71-71 | Failing input: two literals and an end marker are not all read with nothing after them, and are with one more byte. |
| XcaRoundTrip.LiteralNotDecoded | libnt/xca.c:71-71 | The decoder run on the bytes of that input returns both literals if and only if one byte, of any value, follows them. |
| XcaRoundTrip.RunLost | libnt/xca.c:124-128 | Failing input: a single run match before the end marker is taken for it even with one byte after it. |
| XcaRoundTrip.FullBlockOverruns | libnt/xca.c:74-88 | Failing input: a last block of exactly 65536 bytes decodes with nothing after its end marker and gives -1 with one byte. |
| Lznt1Format.SplitThreshold | libnt/lznt1.c:109-114 | The threshold is always 2^(16-split) and, past 16, is less than twice the output it covers: the smallest such power. |
| Lznt1Format.SplitInRange | libnt/lznt1.c:61-62 | In any block of at most 4096 bytes, however malformed, the split stays between 1 and 12. |
| Lznt1Format.TupleBounded | libnt/lznt1.c:89-90 | Decoding any tuple keeps the output within the bound that keeps the split in range. |
| Lznt1Format.DistancesRepresentable | include/lznt1.h:43-43 | Every distance into the block so far fits the offset field under the current split. |
| Lznt1Format.SucceedsWhenTiled | libnt/lznt1.c:143-198 | The result is non-negative exactly when the block headers tile the input, up to one closing zero byte, and every compressed block decodes. |
| Lznt1Format.StreamReturn | libnt/lznt1.c:132-199 | The result is -1 or the total size of the decoded tokens. |
| Lznt1Decompress.UpdateSplit | libnt/lznt1.c:109-114 | The update loop takes split and threshold from their values for the old output length to those for the new one. |
| Lznt1Decompress.Block | libnt/lznt1.c:52-122 | Block decoding returns the abstract decoder's result and appends exactly its tokens' expansion. |
| Lznt1Decompress.DecompressInto | libnt/lznt1.c:132-199 | For every input, with or without a buffer, result and output are the abstract decoder's; the sizing pass returns what the writing pass does. |
| Lznt1Decompress.Extract | utils/bmtool.c:182-198 | Sizing, allocating and decompressing again fills an image of exactly the size announced. |
| Lznt1RoundTrip.BlockDecodes | libnt/lznt1.c:66-119 | Decoding a block serialised under the sliding split gives its tokens back. |
| Lznt1RoundTrip.AllTokensExpand | libnt/lznt1.c:162-195 | Since no match leaves its own block, the stream expands to the blocks' own expansions in order. |
| Lznt1RoundTrip.RoundTrip | libnt/lznt1.c:132-199 | Decoding the stream of any valid raw and compressed blocks, with or without the closing zero, returns exactly their LZ77 expansion and its length. |
| VdiskLayout.FileClusterIsFileLba | include/vdisk.h:90-108 | A file's starting cluster is the cluster whose first sector is the file's starting LBA. |
| VdiskLayout.FileClustersInTable | include/vdisk.h:54-67 | Every cluster of every file slot is in the FAT and below the next slot. |
| VdiskBuffer.EmptyDirectory | libnt/vdisk.c:171-182 | All sixteen entries are marked deleted, in place, and nothing else in the buffer changes. |
| VdiskDirectory.StoreChar | libnt/vdisk.c:232-269 | Each round of the name loop stores one character, opening a new long-name record when the last is full. |
| VdiskDirectory.DirectoryEntry | libnt/vdisk.c:194-273 | One 8.3 record and the long-name records below it are built in place in a free stretch of a sector, for any name; bytes from 128 on are stored with their sign extended. |
| VdiskRead.RegionsAscend | libnt/vdisk.c:530-551 | The regions are in ascending order and do not overlap. |
| VdiskRead.RegionSector | libnt/vdisk.c:530-551 | A region's builder makes the right sector for every LBA of the region, and a directory region's file index never exceeds the table. |
| VdiskRead.GapSector | libnt/vdisk.c:604-633 | Sectors below the files and outside all regions are zero. |
| VdiskRead.ReadIsConcatenation | libnt/vdisk.c:560-651 | For a start and count, a multi-sector read equals the concatenation of the single sectors for every file table if and only if it does not run from below the first file into it. |
| VdiskRead.CrossingReadDiffers | libnt/vdisk.c:604-642 | The failing input: with one one-byte file, every read that crosses the boundary differs. |
| Vdisk.Disk.AddFile | libnt/vdisk.c:662-686 | Fills the next slot under the first 31 bytes of the name; a full table is left alone. |
| Vdisk.Disk.BuildFat | libnt/vdisk.c:123-163 | Any window of the table is built as the sectors that describe the same window one at a time. |
| Vdisk.Disk.BuildDirFiles | libnt/vdisk.c:416-444 | Each sector announces the file slot of its index, which is always a valid one. |
| Vdisk.Disk.BuildFile | libnt/vdisk.c:453-484 | Sectors of a file slot are its content from their offset, then zeros. |
| Vdisk.Disk.FindRegion | libnt/vdisk.c:606-633 | A fragment is non-empty and lies within one region, or in a gap outside all of them. |
| Vdisk.Disk.BuildFragment | libnt/vdisk.c:580-646 | Each fragment makes progress and extends the bytes read so far to the next sector boundary it ends at. |
| Vdisk.Disk.Read | libnt/vdisk.c:560-651 | A read of any length fills its part of the buffer with the specified run of sectors, changes nothing else and leaves the file table as it was. |
| VdiskFat.OneSectorRead | libnt/vdisk.c:560-651 | Single-sector reads are what the FAT reader sees. |
| VdiskFat.ClusterRead | libnt/vdisk.c:560-651 | Reading any whole cluster at once gives the same bytes as sector by sector. |
| VdiskFat.Geometry | libnt/vdisk.c:45-94 | From the two boot sectors alone the reader finds the geometry of the layout macros. |
| VdiskFat.NextIsFatEntry | libnt/vdisk.c:123-163 | The table entry the reader finds for a cluster is the one the disk specifies. |
| VdiskFat.SlotMarkers | libnt/vdisk.c:150-162 | The marked clusters of any slot are exactly the last cluster of a file with bytes and, when the next slot's file is empty, the slot's last cluster. |
| VdiskFat.EndsOwnFile | libnt/vdisk.c:150-162 | Among a file's own clusters only its last, the ceil(xlen/32768)-th, is marked as an end, whatever the other files are. |
| VdiskFat.ChainsDisjoint | include/vdisk.h:90-95 | Chains of different files share no cluster. |
| VdiskFat.FileChainFrom | libnt/vdisk.c:137-162 | Following the table from any cluster of a file with bytes runs through consecutive clusters to its last and stops, whatever the other files are. |
| VdiskFat.ChainEndsInSlot | libnt/vdisk.c:150-162 | A file's slot holds an end marker if and only if the file has bytes or the next slot holds an empty file. |
| VdiskFat.EmptyFileChain | libnt/vdisk.c:137-162 | From an empty file's first cluster the chain runs through consecutive clusters to the last one of the next file, or to the one before it if that file is empty too, and leaves the table if no file follows. |
| VdiskFat.FileReads | libnt/vdisk.c:453-484 | Reading a file with bytes through its chain and cutting to its length gives its content with zero padding, whatever the other files are. |
| VdiskFat.EmptyFileReads | libnt/vdisk.c:150-162 | An empty file reads as empty through its chain if and only if another file follows it in the table. |
| VdiskListing.RecordFields | libnt/vdisk.c:235-247 | Long-name records are numbered from 1, only the last is flagged, and each carries the checksum of the 8.3 name. |
| VdiskListing.NameReads | libnt/vdisk.c:229-270 | Reading the records below an 8.3 entry recovers the characters stored, which are the name itself if and only if all its bytes are below 128. |
| VdiskListing.DirentListed | libnt/vdisk.c:416-444 | A file's directory sector lists exactly that file: name, size, attributes and cluster; an unused slot lists nothing, and neither ends the directory. |
| VdiskListing.SubdirsListed | libnt/vdisk.c:282-407 | A directory's first sector lists exactly its subdirectories and does not end the directory. |
| VdiskListing.DirectoryListed | libnt/vdisk.c:529-551 | To a reader that stops at a free entry every directory lists its subdirectories and then every file of the table, and nothing else. |
| VdiskListing.WalkFollows | libnt/vdisk.c:282-407 | For any path, following names without regard to case from directory to directory ends where the fixed tree of seven directories leads, or nowhere when that tree has no such path. |
| VdiskListing.DirectoryPaths | libnt/vdisk.c:282-407 | The paths of the seven directories; the boot directory is reached under the root, under EFI and under EFI's Microsoft directory. |
| VdiskListing.FilesVisible | libnt/vdisk.c:560-651 | End to end: a reader that starts from nothing but the disk and the path of any directory finds each added file there and reads its padded content through the FAT, for every file with bytes and, of the empty ones, exactly those that another file follows in the table. |
| VdiskListing.FoundByName | libnt/vdisk.c:416-444 | In a directory's listing a file is what its own name finds, case ignored, if and only if no subdirectory of that directory and no earlier file has the name. |
| VdiskListing.FileOpens | libnt/vdisk.c:560-651 | For any path and any name, opening it from nothing but the disk yields the padded content of the first file of that name, and fails exactly where the path leads nowhere, a directory of that name hides it, no file has it, or the file is empty with no file after it. |
| VdiskListing.BootHidden | libnt/vdisk.c:282-303 | Failing input: in the root the boot directory hides a file named "boot". |
| Paging.Machine.MapPage | kern/paging.c:75-90 | Exactly one page directory entry changes, to the given page. |
| Paging.Machine.InitPaging | kern/paging.c:96-125 | Every 32-bit address is mapped to itself, or nothing changes when paging is not supported. |
| Paging.Machine.Memcpy | kern/paging.c:228-230 | Copying through the page tables moves the bytes between the translated addresses, one fragment within a page each. |
| Paging.Machine.CopyHigh | kern/paging.c:225-257 | After the fragment loop memory and page directory are those of the relocated data, window restored. |
| Paging.Machine.RelocateMemoryHigh | kern/paging.c:196-262 | The first region with room is used and the placement in it returned; with no room or no paging nothing changes. |
| Paging.PlacementIsHighest | kern/paging.c:212-217 | The placement has the data's offset in a 2MB page, ends inside the region, and no higher one does. |
| Paging.UsableIffPlaceable | kern/paging.c:212-222 | A region is used exactly when some such placement above 4GB fits in it. |
| Paging.LandsInFirstRoom | kern/paging.c:209-222 | The target lies inside one region, above 4GB, congruent to the data mod 2MB, and no earlier region had room. |
| Paging.ViewKept | kern/paging.c:225-257 | Every byte of the data reads the same at its virtual address, now mapped into the target (or still in place, in the window page). |
| Paging.OthersKept | kern/paging.c:247-257 | Pages the data does not touch keep their mapping and what they show. |
| Paging.BesideTheData | kern/paging.c:247-249 | An address that shares a page with the data, outside the data and the window, shows afterwards what physical memory holds beside the copy. |
| Paging.SameViewExactly | kern/paging.c:225-257 | An address reads the same whatever memory holds if and only if it is the data's, or it is in the window or in a page without data and is not mapped to a byte the data is copied to. |
| Paging.CompleteIffOutsideWindow | kern/paging.c:241-245 | The physical target holds the whole data, whatever memory held, if and only if the data avoids the copy window's page. |
| Division.UDivMod | posix/libgcc.c:24-59 | For every numerator and non-zero divisor, also above 2^63, the result is the Euclidean quotient and remainder and no step overflows. |
| Division.DivMod64 | disk/biosdisk.c:51-77 | The same quotient and remainder; a zero divisor gives all ones and the numerator. |
| PeReloc.TableFixups | utils/elf2efi.c:330-392 | The table stands for exactly the requested (address, type) pairs, each as often as requested. |
| PeReloc.TableWellFormed | utils/elf2efi.c:354-370 | No page has two blocks and no block is empty or mistyped. |
| PeReloc.TableOrder | utils/elf2efi.c:390-391 | The entries of a page are its requests in the order they came. |
| PeReloc.TableParses | utils/elf2efi.c:401-427 | Reading the written table gives its fixups back, block by block; padding entries are not fixups. |
| PeReloc.RoundTrip | utils/elf2efi.c:330-427 | Parsing the table written for any sequence of requests gives back exactly the multiset of requests, with 32-bit addresses. |
| PeRelocTable.RelocPage.Store | utils/elf2efi.c:372-391 | Appends an entry, doubling a full array; entries past the used ones stay zero. |
| PeRelocTable.RelocTable.GenerateReloc | utils/elf2efi.c:330-392 | Sizes 2, 4 and 8 are recorded on their page's block, a new page at the head of the list; any other size is refused. |
| PeRelocTable.RelocTable.OutputReltab | utils/elf2efi.c:401-427 | Returns the same size with and without a buffer and writes exactly the encoded table to the buffer's start. |
| PeRelocTable.CreateRelocSection | utils/elf2efi.c:999-1040 | Sizing, aligning to 512 and writing yields the table followed by zeros. |
| PeRelocTable.RelocSection | utils/elf2efi.c:330-427 | A loader reading the section made for any requests fixes up exactly those. |
| CString.ParseULong | posix/string.c:405-468 | The loop reads no further than the first NUL and returns the value of spaces, sign, base prefix and digits, modulo 2^64. |
| CString.FieldReads | utils/mkinitrd.c:48-55 | A 32-bit value written as eight hexadecimal digits is read back by `strtoul` unchanged. |
| Cpio.CpioExtract | libnt/cpio.c:69-141 | The loop makes exactly the specified handler calls and returns the specified code, for every input on which it ends. |
| Cpio.NextMember | libnt/cpio.c:83-130 | One round skips padding, checks and parses the header and finds the end, an error or the next member. |
| Cpio.StandsStill | libnt/cpio.c:112-124 | A round leaves the archive where it is exactly when the member's padded header and name and its data sum to zero modulo 2^64 or, for the longest archives, round to zero; with 32-bit size fields it moves on by at least a header. |
| Cpio.ForeverExactly | libnt/cpio.c:83-139 | The extraction never ends if and only if the handler accepts every call up to a member that leaves the archive where it is. |
| Cpio.CirclingForever | libnt/cpio.c:112-137 | Failing input: a 200-byte archive whose member has name size 2 and file size "-0000070" never ends for any handler that accepts its call. |
| CpioWriter.WriteArchive | utils/mkinitrd.c:143-164 | The output is the records of the files in order and the trailer. |
| CpioWriter.FillHeader | utils/mkinitrd.c:62-77 | Setting the fields one by one fills the 110 bytes of the header. |
| CpioWriter.CopyData | utils/mkinitrd.c:101-139 | Chunked copying outputs the contents and pads to four bytes. |
| CpioRoundTrip.RecordExtracts | libnt/cpio.c:111-139 | A written record is one handler call with its name and contents and the archive moves exactly past it; a record named as the trailer ends the extraction. |
| CpioRoundTrip.RoundTrip | libnt/cpio.c:69-141 | Extracting a written archive makes the calls for its files in order, up to the first the handler refuses or one named as the trailer. |
| CpioRoundTrip.CallsAreFiles | utils/mkinitrd.c:57-139 | Each of those calls points at the file's own name and stored contents. |
| CpioRoundTrip.AllHandled | libnt/cpio.c:133-135 | A handler that accepts every call sees them all and the extraction returns 0. |
| CpioRoundTrip.BeforeTrailer | libnt/cpio.c:128-130 | All files come before the trailer exactly when none has its name. |
| CpioRoundTrip.StoredWhole | utils/mkinitrd.c:147-148 | What is stored is the whole file exactly when its size fits 32 bits. |
| Registry.Hive.FindChildKey | libnt/reg.c:281-418 | The result is the key of the first index entry that leads to a valid node of that name, ignoring the case of ASCII letters, or the error found on the way. |
| Registry.Hive.RegFindKey | libnt/reg.c:421-446 | A path is followed component by component; a trailing backslash is ignored. |
| Registry.Hive.RegDeleteKey | libnt/reg.c:449-511 | On success every byte of the hive is as before but for the index shortened around the key's first entry and the lowered counts; otherwise nothing changes. |
| RegistryDelete.EntriesLeft | libnt/reg.c:496-505 | The index is left with all other entries, in order. |
| RegistryDelete.CountsLeft | libnt/reg.c:501-505 | The index's count and the node's subkey count are both one less. |
| RegistryDelete.OtherCells | libnt/reg.c:496-506 | Every cell apart from the parent's node and its index keeps its bytes. |
| RegistryDelete.FindAfterDelete | libnt/reg.c:281-418 | A later lookup of one name from that parent finds the first case-insensitive match in the shortened list, and nothing once the list is empty. |
| RegistryDelete.FindKeyAfterDelete | libnt/reg.c:421-446 | A later lookup of any path from any key, through the parent or not, gives what it gave with the deleted entry passed over, as long as the cells it reads are apart from the parent's node and index. |
| RegistryDelete.StaysSound | libnt/reg.c:449-511 | A hive with non-overlapping cells and agreeing counts stays one while entries are left, so deletions can follow each other; after the last one the parent has no index. |
| RegistryDelete.SmallHiveIsSound | libnt/reg.c:449-495 | A small hive with one key meets what the theorems about deletion ask. |
| DevicePath.CompareChains | disk/efidisk.c:112-157 | The comparison is transitive, strictly so if either step is strict, also for paths ending in a broken node. |
| DevicePath.CompareOpposite | disk/efidisk.c:112-157 | Swapping the paths changes only the sign. |
| DevicePath.CompareZero | disk/efidisk.c:112-157 | Well-formed paths compare equal exactly when they are the same bytes. |
| DevicePath.CompareAlike | disk/efidisk.c:112-157 | Any two paths, also broken ones, compare equal exactly when they have the same nodes before the last and the last are the same or both broken. |
| DevicePath.CompareDevicePaths | disk/efidisk.c:112-157 | Walking both paths in memory gives that order; a missing path compares as greater, one broken node as less than a valid one. |
| DevicePath.FindLastDevicePath | disk/efidisk.c:100-110 | Returns the node right before the end, or nothing for a path that has none. |
| DeviceList.InsertedAscending | disk/efidisk.c:289-305 | Insertion keeps the list strictly ascending by last node and then whole path, so nothing is in it twice. |
| DeviceList.InsertedMembers | disk/efidisk.c:289-305 | For every listed path: the old ones stay, nothing but the new one comes in, and it does exactly when none like it is there; of well-formed paths the list then holds the new one in any case. |
| DeviceList.AddAllMembers | disk/efidisk.c:283-306 | After any sequence of additions the list holds exactly the paths that came first of their kind; if all are well-formed, exactly those added. |
| DeviceList.OrderDoesNotMatter | disk/efidisk.c:283-306 | Two sequences of additions give lists alike throughout if and only if they are of the same kinds of paths, the very same list if and only if the same paths came first of their kind, and with well-formed paths if and only if the same were added. |
| DeviceList.BrokenDropped | disk/efidisk.c:289-299 | Failing input: of two different devices with broken ends, added in either order, only the first is kept. |
| DeviceList.DiskList.AddDevice | disk/efidisk.c:283-306 | Splicing into the linked list in place is that insertion; an equal device is not added again. |

## Left out

- EFI and BIOS calls, inline assembly, CPUID, control registers and TLB handling: they are effects of firmware and processor. The system memory map is an arbitrary list of regions.
- File and console input and output, and allocation failure: writers produce byte sequences and allocation succeeds.
- ELF reading, section headers and image-base adjustment in utils/elf2efi.c: field copying around the relocation table.
- Registry index roots, value lookup, enumeration and header repair in libnt/reg.c: nothing in the modelled core uses them.
- Device naming heuristics, parent search and path duplication in disk/efidisk.c: only ordering and insertion carry properties.
- libnt/bcd.c, kern/cmdline.c, disk/gpt.c, disk/msdos.c, disk/fsuuid.c, libnt/peloader.c, libnt/charset.c and posix/vsprintf.c: patching of the boot configuration, command-line options, lookup of GPT and MBR partitions and of file system UUIDs, loading of PE images, character set conversion and formatted printing; nothing is claimed about them.
- 32-bit `unsigned long` and pointers: sizes and pointers are 64-bit, plain `char` is signed, in registry names and in the long names of the virtual disk.
- Division.UDivMod: division by zero traps in the code and is a precondition here.
- HuffmanAlphabet.Alphabet.Build: requires fewer than 65536 symbols with lengths up to 16, which is what keeps the 16-bit frequencies from wrapping; its callers pass 512.
- XcaDecompress.RefillAppends: bitwise OR of numbers without common bits is modelled as addition, with the absence of common bits as a proof obligation.
- Vdisk.Disk.Read: covers lba + count up to 2^54, where the code's `int` file index is exact, and buffers below 4GB.
- Vdisk.Disk.BuildFile: the patch hook, which may rewrite a file's bytes as they are read, is not modelled; a file's padded length is a free parameter instead.
- Vdisk.Disk.AddFile: the fatal message for a full table becomes a result.
- VdiskFat.FileReads: takes tables whose files are all up to 4GB, the size of a slot; empty files are the subject of EmptyFileReads.
- VdiskListing.FilesVisible: takes files whose length fits the 32-bit size field of a directory entry.
- Paging.Machine.RelocateMemoryHigh: requires the data's pages to be mapped below 4GB on entry, as `init_paging` leaves them; region ends do not wrap at 2^64.
- PeRelocTable.RelocTable.GenerateReloc: bounds a page at 0x7ffffff0 relocations, beyond which 32-bit sizes would wrap; the linked list of pages is a sequence of page objects, so its pointers are not modelled.
- CpioRoundTrip.RoundTrip: takes names without NUL, as C strings are, shorter than 4GB, and an archive that does not reach the end of the address space.
- CpioWriter.WriteArchive: does not model a file that shrinks while it is copied.
- DeviceList.DiskList.AddDevice: takes paths with a node before the end, the only ones that are listed; the other fields of a device are not modelled.
- XcaRoundTrip.RoundTrip: blocks are encoded with zeros for the bits that pad their last words, and a block with neither tokens nor an end marker is not a last block.
- Paging.SameViewExactly: takes the window identity-mapped on entry, as `init_paging` leaves it.
- RegistryDelete.FindAfterDelete: takes hives whose cells do not overlap and whose two counts agree.
