/** Disks that were formatted field by field, in the layout of the FAT32 File System Specification,
    version 1.03, sections "Boot Sector and BPB" and "FAT Directory Structure", and what the driver makes
    of them. */
module FatFormat {
  import opened Bytes
  import opened FatVolume
  import opened FatFile
  import opened FatLookups
  import opened FatHandle
  import opened FatReader
  import opened FatBoot
  import opened FatDirectory
  import opened FatPath
  import opened FatStart
  import opened FatTable

  // ----- the boot sector

  datatype Format = Format(jump: seq<byte>, oem: seq<byte>, bytesPerSector: u16, perCluster: byte, reserved: u16,
                           fatCount: byte, dirEntries: u16, sectors16: u16, media: byte, sectorsPerFat16: u16,
                           perTrack: u16, heads: u16, hidden: u32, sectors32: u32, sectorsPerFat32: u32, flags: u16,
                           version: u16, rootCluster: u32)

  function FrontBytes(f: Format): (b: seq<byte>)
    requires |f.jump| == 3 && |f.oem| == 8
    ensures |b| == 36
  {
    (f.jump + f.oem + HalfBytes([f.bytesPerSector]) + [f.perCluster])
    + (HalfBytes([f.reserved]) + [f.fatCount] + HalfBytes([f.dirEntries, f.sectors16]) + [f.media])
    + (HalfBytes([f.sectorsPerFat16, f.perTrack, f.heads]) + WordBytes([f.hidden, f.sectors32]))
  }

  /** The fields that only FAT32 has. */
  function ExtendedBytes(f: Format): (b: seq<byte>)
    ensures |b| == 12
  {
    WordBytes([f.sectorsPerFat32]) + HalfBytes([f.flags, f.version]) + WordBytes([f.rootCluster])
  }

  /** The sector starts with these fields. FAT32 is told by a zero in the 16-bit size of the table. */
  predicate BootWritten(s: seq<byte>, f: Format) {
    && |s| == SECTOR_SIZE && |f.jump| == 3 && |f.oem| == 8 && s[..36] == FrontBytes(f)
    && (f.sectorsPerFat16 == 0 ==> s[36..48] == ExtendedBytes(f))
  }

  lemma ThreeParts(s: seq<byte>, a: seq<byte>, b: seq<byte>, c: seq<byte>)
    requires |s| >= 36 && |a| == 14 && |b| == 8 && |c| == 14 && s[..36] == a + b + c
    ensures s[..14] == a && s[14..22] == b && s[22..36] == c
  {
    assert s[..14] == s[..36][..14] && s[14..22] == s[..36][14..22] && s[22..36] == s[..36][22..36];
  }

  lemma FirstPart(s: seq<byte>, j: seq<byte>, n: seq<byte>, a: seq<byte>, c: byte)
    requires |s| >= 14 && |j| == 3 && |n| == 8 && |a| == 2 && s[..14] == j + n + a + [c]
    ensures s[11..13] == a && s[13] == c
  {
    assert s[11..13] == s[..14][11..13] && s[13] == s[..14][13];
  }

  lemma SecondPart(s: seq<byte>, a: seq<byte>, b: byte, c: seq<byte>, d: byte)
    requires |s| >= 22 && |a| == 2 && |c| == 4 && s[14..22] == a + [b] + c + [d]
    ensures s[14..16] == a && s[16] == b && s[17..21] == c
  {
    assert s[14..16] == s[14..22][..2] && s[16] == s[14..22][2] && s[17..21] == s[14..22][3..7];
  }

  lemma ThirdPart(s: seq<byte>, a: seq<byte>, b: seq<byte>)
    requires |s| >= 36 && |a| == 6 && |b| == 8 && s[22..36] == a + b
    ensures s[22..28] == a && s[28..36] == b
  {
    assert s[22..28] == s[22..36][..6] && s[28..36] == s[22..36][6..];
  }

  lemma LastPart(s: seq<byte>, a: seq<byte>, b: seq<byte>, c: seq<byte>)
    requires |s| >= 48 && |a| == |b| == |c| == 4 && s[36..48] == a + b + c
    ensures s[36..40] == a && s[44..48] == c
  {
    assert s[36..40] == s[36..48][..4] && s[44..48] == s[36..48][8..];
  }

  lemma FrontFields(s: seq<byte>, f: Format)
    requires BootWritten(s, f)
    ensures Half(s, 11) == f.bytesPerSector && s[13] == f.perCluster && Half(s, 14) == f.reserved
    ensures s[16] == f.fatCount && Half(s, 17) == f.dirEntries && Half(s, 19) == f.sectors16
    ensures Half(s, 22) == f.sectorsPerFat16 && Word(s, 32) == f.sectors32
  {
    var a, b, c := HalfBytes([f.bytesPerSector]), HalfBytes([f.reserved]), HalfBytes([f.dirEntries, f.sectors16]);
    var d, e := HalfBytes([f.sectorsPerFat16, f.perTrack, f.heads]), WordBytes([f.hidden, f.sectors32]);
    hide HalfBytes, WordBytes, Half, Word;
    ThreeParts(s, f.jump + f.oem + a + [f.perCluster], b + [f.fatCount] + c + [f.media], d + e);
    FirstPart(s, f.jump, f.oem, a, f.perCluster);
    SecondPart(s, b, f.fatCount, c, f.media);
    ThirdPart(s, d, e);
    HalfWritten(s, 11, [f.bytesPerSector], 0);
    HalfWritten(s, 14, [f.reserved], 0);
    HalfWritten(s, 17, [f.dirEntries, f.sectors16], 0);
    HalfWritten(s, 17, [f.dirEntries, f.sectors16], 1);
    HalfWritten(s, 22, [f.sectorsPerFat16, f.perTrack, f.heads], 0);
    WordWritten(s, 28, [f.hidden, f.sectors32], 1);
  }

  lemma ExtendedFields(s: seq<byte>, f: Format)
    requires BootWritten(s, f) && f.sectorsPerFat16 == 0
    ensures Word(s, 36) == f.sectorsPerFat32 && Word(s, 44) == f.rootCluster
  {
    var a, b, c := WordBytes([f.sectorsPerFat32]), HalfBytes([f.flags, f.version]), WordBytes([f.rootCluster]);
    hide HalfBytes, WordBytes, Word, FrontBytes;
    LastPart(s, a, b, c);
    WordWritten(s, 36, [f.sectorsPerFat32], 0);
    WordWritten(s, 44, [f.rootCluster], 0);
  }

  /** The fields that the boot sector has are those of the format. */
  predicate Agree(b: Boot, f: Format) {
    && b.bytesPerSector == f.bytesPerSector && b.perCluster == f.perCluster && b.reserved == f.reserved
    && b.fatCount == f.fatCount && b.dirEntries == f.dirEntries && b.sectors16 == f.sectors16
    && b.sectorsPerFat16 == f.sectorsPerFat16 && b.sectors32 == f.sectors32
    && (f.sectorsPerFat16 == 0 ==> b.sectorsPerFat32 == f.sectorsPerFat32 && b.rootCluster == f.rootCluster)
  }

  /** FAT_Initialize reads the fields that were written. */
  lemma BootParsed(s: seq<byte>, f: Format)
    requires BootWritten(s, f)
    ensures Agree(ParseBoot(s), f)
  {
    FrontFields(s, f);
    if f.sectorsPerFat16 == 0 { ExtendedFields(s, f); }
    hide BootWritten, Half, Word;
  }

  // ----- where everything is

  /** The tables follow the reserved sectors. */
  function TablesEnd(f: Format): nat {
    f.reserved + f.fatCount * if f.sectorsPerFat16 == 0 then f.sectorsPerFat32 else f.sectorsPerFat16
  }

  /** Sectors that 32-byte entries take. */
  function SectorsFor(entries: nat, bytesPerSector: nat): (n: nat)
    requires bytesPerSector > 0
    ensures n * bytesPerSector >= 32 * entries && (n == 0 || (n - 1) * bytesPerSector < 32 * entries)
  {
    (32 * entries + bytesPerSector - 1) / bytesPerSector
  }

  predicate Sizes(f: Format) {
    f.perCluster > 0 && (f.sectorsPerFat16 != 0 ==> f.bytesPerSector > 0)
  }

  /** The clusters follow the tables, and the root directory if it has a place of its own. */
  function DataStart(f: Format): nat
    requires Sizes(f)
  {
    if f.sectorsPerFat16 == 0 then TablesEnd(f) else TablesEnd(f) + SectorsFor(f.dirEntries, f.bytesPerSector)
  }

  /** The first sector of a cluster; the first one has number two. */
  function ClusterStart(f: Format, cluster: u32): int
    requires Sizes(f)
  {
    DataStart(f) + (cluster - 2) * f.perCluster
  }

  function Total(f: Format): u32 {
    if f.sectors16 == 0 then f.sectors32 else f.sectors16
  }

  /** How many clusters there are decides about the width of an entry. */
  function Width(f: Format): nat
    requires Sizes(f) && DataStart(f) <= Total(f)
  {
    var clusters := (Total(f) - DataStart(f)) / f.perCluster;
    if clusters < 4085 then 12 else if f.sectorsPerFat16 == 0 then 32 else 16
  }

  /** The volume on a disk that has this format. */
  function VolumeOf(disk: seq<seq<byte>>, f: Format): (v: Volume)
    requires Sizes(f) && DataStart(f) <= Total(f)
    ensures IsDisk(disk) ==> Formatted(v)
  {
    Volume(disk, Width(f), f.reserved, f.perCluster, DataStart(f))
  }

  lemma TablesAgree(b: Boot, f: Format)
    requires Agree(b, f) && TablesEnd(f) < TWO32
    ensures AfterTables(b) == TablesEnd(f)
  {
    if f.sectorsPerFat16 == 0 {
      assert SectorsPerFat(b) * b.fatCount == f.fatCount * f.sectorsPerFat32;
    } else {
      assert SectorsPerFat(b) * b.fatCount == f.fatCount * f.sectorsPerFat16;
    }
  }

  lemma RegionsAgree(b: Boot, f: Format)
    requires Agree(b, f) && Sizes(f) && DataStart(f) < TWO32
    ensures Divides(b) && DataLba(b) == DataStart(f)
    ensures f.sectorsPerFat16 != 0 ==> RootLba(b) == TablesEnd(f) && TablesEnd(f) + RootDirSectors(b) == DataStart(f)
  {
    TablesAgree(b, f);
    hide TablesEnd, AfterTables;
  }

  lemma RootAgrees(b: Boot, f: Format)
    requires Agree(b, f) && Sizes(f) && DataStart(f) < TWO32 && f.sectorsPerFat16 == 0
    requires 0 <= ClusterStart(f, f.rootCluster) < TWO32
    ensures RootLba(b) == ClusterStart(f, f.rootCluster)
  {
    TablesAgree(b, f);
    hide TablesEnd, AfterTables;
    Unwrapped(AfterTables(b), (b.rootCluster - 2) * b.perCluster);
  }

  lemma Unwrapped(a: int, x: int)
    requires 0 <= a + x < TWO32
    ensures (a + x) % TWO32 == a + x
  {
  }

  lemma WidthAgrees(b: Boot, f: Format)
    requires Agree(b, f) && Sizes(f) && Divides(b) && DataLba(b) == DataStart(f) <= Total(f)
    ensures DetectType(b) == Width(f)
  {
    hide DataStart, DataLba;
  }

  /** The driver finds the regions where they were put. */
  lemma LayoutWritten(s: seq<byte>, f: Format)
    requires BootWritten(s, f) && Sizes(f) && DataStart(f) <= Total(f)
    ensures var b := ParseBoot(s);
            && Divides(b) && DataLba(b) == DataStart(f) && DetectType(b) == Width(f)
            && (f.sectorsPerFat16 != 0 ==>
                  RootLba(b) == TablesEnd(f) && TablesEnd(f) + RootDirSectors(b) == DataStart(f))
            && (f.sectorsPerFat16 == 0 && 0 <= ClusterStart(f, f.rootCluster) < TWO32 ==>
                  RootLba(b) == ClusterStart(f, f.rootCluster))
  {
    BootParsed(s, f);
    var b := ParseBoot(s);
    hide BootWritten, ParseBoot, DataStart, DetectType, RootLba, DataLba, TablesEnd, RootDirSectors, ClusterStart;
    RegionsAgree(b, f);
    WidthAgrees(b, f);
    if f.sectorsPerFat16 == 0 && 0 <= ClusterStart(f, f.rootCluster) < TWO32 { RootAgrees(b, f); }
  }

  // ----- directories

  /** A directory entry with all its fields. */
  datatype Item = Item(name: seq<byte>, readOnly: bool, hidden: bool, system: bool, volumeLabel: bool, directory: bool,
                       archive: bool, reserved: byte, tenths: byte, createdTime: u16, createdDate: u16,
                       accessedDate: u16, modifiedTime: u16, modifiedDate: u16, cluster: u32, size: u32)

  function Flag(on: bool, value: byte): (b: byte)
    ensures b == if on then value else 0
  {
    if on then value else 0
  }

  function AttributeByte(d: Item): byte {
    Flag(d.readOnly, 1) + Flag(d.hidden, 2) + Flag(d.system, 4) + Flag(d.volumeLabel, 8) + Flag(d.directory, 16)
    + Flag(d.archive, 32)
  }

  function ItemBytes(d: Item): (b: seq<byte>)
    requires |d.name| == 11
    ensures |b| == 32
  {
    (d.name + [AttributeByte(d), d.reserved, d.tenths])
    + HalfBytes([d.createdTime, d.createdDate, d.accessedDate, d.cluster / 0x1_0000, d.modifiedTime, d.modifiedDate,
                 d.cluster % 0x1_0000])
    + WordBytes([d.size])
  }

  lemma ItemParts(s: seq<byte>, n: seq<byte>, a: seq<byte>, b: seq<byte>, c: seq<byte>)
    requires |n| == 11 && |a| == 3 && |b| == 14 && |c| == 4 && s == n + a + b + c
    ensures |s| == 32 && s[..11] == n && s[11] == a[0] && s[14..28] == b && s[28..32] == c
  {
  }

  /** The driver reads the fields that were written. */
  lemma ItemParsed(d: Item)
    requires |d.name| == 11
    ensures var e := ParseEntry(ItemBytes(d));
            && e.name == d.name && FirstCluster(e) == d.cluster && e.size == d.size && (IsDirEntry(e) <==> d.directory)
  {
    ItemFields(d);
    hide ItemBytes, Half, Word;
  }

  lemma ItemFields(d: Item)
    requires |d.name| == 11
    ensures var s := ItemBytes(d);
            && s[..11] == d.name && s[11] == AttributeByte(d) && Half(s, 20) == d.cluster / 0x1_0000
            && Half(s, 26) == d.cluster % 0x1_0000 && Word(s, 28) == d.size
  {
    var s := ItemBytes(d);
    var halves := [d.createdTime, d.createdDate, d.accessedDate, d.cluster / 0x1_0000, d.modifiedTime, d.modifiedDate,
                   d.cluster % 0x1_0000];
    hide HalfBytes, WordBytes, Half, Word, AttributeByte;
    ItemParts(s, d.name, [AttributeByte(d), d.reserved, d.tenths], HalfBytes(halves), WordBytes([d.size]));
    HalfWritten(s, 14, halves, 3);
    HalfWritten(s, 14, halves, 6);
    WordWritten(s, 28, [d.size], 0);
  }

  predicate Named(items: seq<Item>) {
    forall i | 0 <= i < |items| :: |items[i].name| == 11
  }

  function DirectoryBytes(items: seq<Item>): (b: seq<byte>)
    requires Named(items)
    ensures |b| == 32 * |items|
  {
    if items == [] then [] else ItemBytes(items[0]) + DirectoryBytes(items[1..])
  }

  lemma {:induction false} ItemInDirectory(items: seq<Item>, i: nat)
    requires Named(items) && i < |items|
    ensures DirectoryBytes(items)[32 * i..32 * i + 32] == ItemBytes(items[i])
  {
    hide ItemBytes;
    if i > 0 {
      ItemInDirectory(items[1..], i - 1);
      SliceBehind(ItemBytes(items[0]), DirectoryBytes(items[1..]), 32 * (i - 1), 32 * i);
    }
  }

  /** The first entry with a name, or their number. */
  ghost predicate IsFirst(items: seq<Item>, wanted: seq<byte>, i: nat) {
    && i <= |items| && (i < |items| ==> items[i].name == wanted)
    && forall j | 0 <= j < i :: items[j].name != wanted
  }

  lemma NameOfItem(items: seq<Item>, k: nat)
    requires Named(items) && k < |items|
    ensures DirectoryBytes(items)[32 * k..32 * k + 11] == items[k].name
  {
    hide DirectoryBytes, ItemBytes;
    ItemInDirectory(items, k);
    FrontOfItem(items[k]);
    SliceOfSlice(DirectoryBytes(items), 32 * k, 32 * k + 32, 0, 11);
  }

  lemma FrontOfItem(d: Item)
    requires |d.name| == 11
    ensures ItemBytes(d)[0..11] == d.name
  {
    hide HalfBytes, WordBytes;
  }

  /** The search finds the first entry that has the name. */
  lemma {:induction false} SearchWritten(items: seq<Item>, wanted: seq<byte>, i: nat, k: nat)
    requires Named(items) && |wanted| == 11 && IsFirst(items, wanted, i) && k <= i
    ensures Search(Stream(DirectoryBytes(items), 32 * k), wanted)
            == if i == |items| then NotFound else FoundAt(32 * i)
    decreases i - k
  {
    hide DirectoryBytes;
    if k < |items| { NameOfItem(items, k); }
    if k < i { SearchWritten(items, wanted, i, k + 1); }
  }

  // ----- the driver on such a disk

  /** FAT_Initialize on a disk of any width. */
  method StartWritten(disk: seq<seq<byte>>, ghost f: Format) returns (ok: bool, fat: Driver)
    requires IsDisk(disk) && disk != [] && BootWritten(disk[0], f) && Sizes(f) && DataStart(f) <= Total(f)
    ensures fresh(fat)
    ensures f.sectorsPerFat16 != 0 ==> ok == (TablesEnd(f) < |disk|)
    ensures f.sectorsPerFat16 == 0 && 0 <= ClusterStart(f, f.rootCluster) < TWO32 ==>
              ok == (ClusterStart(f, f.rootCluster) < |disk|)
    ensures ok ==> fat.Valid() && fat.vol == VolumeOf(disk, f)
  {
    LayoutWritten(disk[0], f);
    BootParsed(disk[0], f);
    hide BootWritten, ParseBoot, DataStart, DetectType, RootLba, DataLba, TablesEnd, RootDirSectors, ClusterStart,
      Divides, HasRootRegion, Width, Driver.Ready, RootDirSize, Content, OnVolume;
    fat := new Driver(disk);
    ok := fat.Initialize();
  }

  /** A FAT12 or FAT16 disk with this boot sector and this root directory. */
  ghost predicate DiskWritten(disk: seq<seq<byte>>, f: Format, items: seq<Item>) {
    && IsDisk(disk) && disk != [] && BootWritten(disk[0], f) && f.sectorsPerFat16 > 0
    && f.bytesPerSector == SECTOR_SIZE && f.perCluster > 0 && DataStart(f) <= Total(f) && DataStart(f) <= |disk|
    && Named(items) && 0 < |items| == f.dirEntries && LieAt(disk, TablesEnd(f), DirectoryBytes(items))
  }

  lemma WrittenStarts(disk: seq<seq<byte>>, f: Format, items: seq<Item>)
    requires DiskWritten(disk, f, items)
    ensures Startable(disk) && VolumeOn(disk) == VolumeOf(disk, f)
    ensures RootOn(disk).data == DirectoryBytes(items)
  {
    var b := ParseBoot(disk[0]);
    BootParsed(disk[0], f);
    LayoutWritten(disk[0], f);
    hide BootWritten, ParseBoot, DataStart, TablesEnd, DetectType, DirectoryBytes, LieAt, Named, Content, RootLba,
      DataLba, RootDirSectors, OnVolume, Width;
    HasRegion(disk, b, f);
    RootOnVolume(disk);
    BytesOnSectors(VolumeOn(disk), RootLba(b), RootDirSectors(b), DirectoryBytes(items));
  }

  lemma HasRegion(disk: seq<seq<byte>>, b: Boot, f: Format)
    requires Agree(b, f) && IsDisk(disk) && f.sectorsPerFat16 > 0 && f.bytesPerSector == SECTOR_SIZE && f.dirEntries > 0
    requires Sizes(f) && DataStart(f) <= |disk| && TablesEnd(f) + RootDirSectors(b) == DataStart(f)
    ensures HasRootRegion(disk, b)
  {
    hide RootDirSectors, DataStart;
    assert SectorsPerFat(b) * b.fatCount == f.fatCount * f.sectorsPerFat16;
  }

  lemma BytesOnSectors(v: Volume, lba: nat, n: nat, bytes: seq<byte>)
    requires Formatted(v) && OnVolume(v, Consecutive(lba, n)) && LieAt(v.disk, lba, bytes) && |bytes| <= SECTOR_SIZE * n
    ensures Content(v, Consecutive(lba, n))[..|bytes|] == bytes
  {
    var c := Content(v, Consecutive(lba, n));
    hide Content;
    forall p: nat | p < |bytes| ensures c[p] == bytes[p] {
      ByteOfContent(v, Consecutive(lba, n), p);
    }
  }

  /** What the driver takes from a directory entry. */
  ghost predicate Describes(e: DirEntry, d: Item) {
    && e.name == d.name && FirstCluster(e) == d.cluster && e.size == d.size && (IsDirEntry(e) <==> d.directory)
  }

  lemma OutcomeWritten(items: seq<Item>, wanted: seq<byte>, i: nat, t: Stream, found: bool, e: DirEntry)
    requires Named(items) && |wanted| == 11 && IsFirst(items, wanted, i)
    requires var s := Stream(DirectoryBytes(items), 0); Outcome(s, Search(s, wanted), t, found, e)
    ensures found == (i < |items|) && (found ==> Describes(e, items[i]))
  {
    hide DirectoryBytes, ParseEntry, Search, Describes, Named;
    SearchWritten(items, wanted, i, 0);
    if i < |items| { ParsedInDirectory(items, i); }
  }

  lemma ParsedInDirectory(items: seq<Item>, i: nat)
    requires Named(items) && i < |items|
    ensures Describes(ParseEntry(DirectoryBytes(items)[32 * i..32 * i + 32]), items[i])
  {
    hide DirectoryBytes, ItemBytes, ParseEntry, FirstCluster, IsDirEntry;
    ItemInDirectory(items, i);
    ItemParsed(items[i]);
  }

  lemma EndWritten(items: seq<Item>, wanted: seq<byte>, i: nat)
    requires Named(items) && |wanted| == 11 && IsFirst(items, wanted, i)
    ensures SearchEnd(Stream(DirectoryBytes(items), 0), wanted) == 32 * Min(i + 1, |items|)
  {
    SearchWritten(items, wanted, i, 0);
    hide DirectoryBytes, Search;
  }

  /** FAT_FindFile in a directory that was written: the first entry that has the name. */
  method FindWritten(fat: Driver, h: int, name: seq<byte>, ghost items: seq<Item>, ghost i: nat)
      returns (found: bool, e: DirEntry)
    requires fat.Valid() && fat.Ready(h) && Named(items) && fat.StreamAt(h) == Stream(DirectoryBytes(items), 0)
    requires IsFirst(items, ShortName(name), i) && fat.SeesTo(h, 32 * Min(i + 1, |items|))
    modifies fat`root, fat`files, fat`cache, fat`cachePosition
    ensures fat.Valid() && fat.Ready(h) && OnlyMoved(h, old(fat.Handles()), fat.Handles())
    ensures found == (i < |items|) && (found ==> Describes(e, items[i]))
  {
    hide ShortName, Search, SearchEnd, Driver.SeesTo, Driver.StreamAt, Driver.Valid, Driver.Ready, Driver.Handles,
      OnlyMoved, DirectoryBytes, IsFirst, Named, Outcome, Describes;
    EndWritten(items, ShortName(name), i);
    found, e := FindFile(fat, h, name);
    OutcomeWritten(items, ShortName(name), i, fat.StreamAt(h), found, e);
  }

  /** The file's clusters are among the data clusters, and hold its size. */
  ghost predicate FileWritten(v: Volume, d: Item, chain: seq<u32>)
    requires Formatted(v)
  {
    && chain != [] && chain[0] == d.cluster && Clusters(v, chain)
    && 0 < d.size <= SECTOR_SIZE * (|chain| * v.perCluster) < TWO32
  }

  /** Byte p of a file is byte p modulo 512 of this sector. */
  function ByteSector(f: Format, chain: seq<u32>, p: nat): int
    requires Sizes(f) && p / SECTOR_SIZE / f.perCluster < |chain|
  {
    ClusterStart(f, chain[p / SECTOR_SIZE / f.perCluster]) + p / SECTOR_SIZE % f.perCluster
  }

  lemma CanBeRead(v: Volume, d: Item, e: DirEntry, chain: seq<u32>)
    requires Formatted(v) && Describes(e, d) && FileWritten(v, d, chain)
    ensures EntryOk(v, e, chain) && e.size == d.size > 0
  {
    SectorCount(v, chain);
    hide Sectors, Clusters;
  }

  /** FAT_Initialize and FAT_FindFile on a disk that was written. */
  method FindOnDisk(disk: seq<seq<byte>>, name: seq<byte>, ghost f: Format, ghost items: seq<Item>, ghost i: nat)
      returns (fat: Driver, found: bool, e: DirEntry)
    requires DiskWritten(disk, f, items) && IsFirst(items, ShortName(name), i)
    ensures fresh(fat) && fat.Valid() && fat.vol == VolumeOf(disk, f) && !AllInUse(fat.files)
    ensures found == (i < |items|) && (found ==> Describes(e, items[i]))
  {
    WrittenNames(disk, f, items);
    WrittenStarts(disk, f, items);
    hide DiskWritten, IsFirst, ShortName, Driver.Valid, Driver.Ready, Driver.StreamAt, Driver.SeesTo, OnlyMoved,
      DirectoryBytes, Describes, AllInUse, Startable, VolumeOn, VolumeOf, RootOn, Named;
    fat := Start(disk);
    NoneInUse(fat.files);
    ghost var t0 := fat.Handles();
    fat.UsuallySees(ROOT_DIRECTORY_HANDLE, 32 * Min(i + 1, |items|));
    found, e := FindWritten(fat, ROOT_DIRECTORY_HANDLE, name, items, i);
    FilesKept(t0, fat.Handles());
  }

  lemma FilesKept(a: HandleTable, b: HandleTable)
    requires OnlyMoved(ROOT_DIRECTORY_HANDLE, a, b)
    ensures b.files == a.files && b.vol == a.vol
  {
  }

  lemma WrittenNames(disk: seq<seq<byte>>, f: Format, items: seq<Item>)
    requires DiskWritten(disk, f, items)
    ensures Named(items) && Sizes(f) && IsDisk(disk)
  {
  }

  /** FAT_Initialize, FAT_FindFile and FAT_Read on a disk that was written: the bytes of the first file
      with that name, wherever the table says that its clusters are. */
  method ReadWritten(disk: seq<seq<byte>>, name: seq<byte>, count: u32, ghost f: Format, ghost items: seq<Item>,
                     ghost i: nat, ghost t: seq<u32>, ghost chain: seq<u32>)
      returns (found: bool, data: seq<byte>)
    requires DiskWritten(disk, f, items) && IsFirst(items, ShortName(name), i)
    requires i < |items| ==> Written(VolumeOf(disk, f), t) && Leads(Width(f), t, chain)
                             && FileWritten(VolumeOf(disk, f), items[i], chain)
                             && Steady(VolumeOf(disk, f), Extent([], chain, false))
    ensures found == (i < |items|)
    ensures found ==> |data| == Min(count, items[i].size)
    ensures found ==> forall p | 0 <= p < |data| ::
              && p / SECTOR_SIZE / f.perCluster < |chain| && 0 <= ByteSector(f, chain, p) < |disk|
              && data[p] == disk[ByteSector(f, chain, p)][p % SECTOR_SIZE]
  {
    hide DiskWritten, IsFirst, ShortName, Written, Leads, Steady, Driver.Valid, Describes, FileWritten, EntryOk,
      AllInUse;
    WrittenNames(disk, f, items);
    var fat, e;
    fat, found, e := FindOnDisk(disk, name, f, items, i);
    if !found { return false, []; }
    CanBeRead(fat.vol, items[i], e, chain);
    var h;
    h, data := ReadLaidOut(fat, e, count, t, chain);
  }
}
