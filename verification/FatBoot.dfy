/** The boot sector of a FAT volume and the layout it describes. */
module FatBoot {
  import opened Bytes
  import opened FatVolume

  datatype Boot = Boot(bytesPerSector: u16, perCluster: byte, reserved: u16, fatCount: byte, dirEntries: u16,
                       sectors16: u16, sectorsPerFat16: u16, sectors32: u32, sectorsPerFat32: u32, rootCluster: u32)

  const DIR_ENTRY_SIZE: nat := 32

  function ParseBoot(s: seq<byte>): Boot
    requires |s| == SECTOR_SIZE
  {
    Boot(Half(s, 11), s[13], Half(s, 14), s[16], Half(s, 17), Half(s, 19), Half(s, 22), Word(s, 32), Word(s, 36),
        Word(s, 44))
  }

  predicate IsFat32(b: Boot) {
    b.sectorsPerFat16 == 0
  }

  function TotalSectors(b: Boot): u32 {
    if b.sectors16 != 0 then b.sectors16 else b.sectors32
  }

  function SectorsPerFat(b: Boot): u32 {
    if IsFat32(b) then b.sectorsPerFat32 else b.sectorsPerFat16
  }

  /** First sector after the copies of the table. */
  function AfterTables(b: Boot): u32 {
    (b.reserved + SectorsPerFat(b) * b.fatCount) % TWO32
  }

  function RootDirSize(b: Boot): nat {
    DIR_ENTRY_SIZE * b.dirEntries
  }

  /** Sectors of the root directory; FAT32 keeps it among the data clusters. */
  function RootDirSectors(b: Boot): nat
    requires !IsFat32(b) ==> b.bytesPerSector > 0
  {
    if IsFat32(b) then 0 else (RootDirSize(b) + b.bytesPerSector - 1) / b.bytesPerSector
  }

  function DataLba(b: Boot): u32
    requires !IsFat32(b) ==> b.bytesPerSector > 0
  {
    (AfterTables(b) + RootDirSectors(b)) % TWO32
  }

  function RootLba(b: Boot): u32 {
    if IsFat32(b) then (AfterTables(b) + (b.rootCluster - 2) * b.perCluster) % TWO32 else AfterTables(b)
  }

  /** FAT_Initialize does not divide by zero. */
  predicate Divides(b: Boot) {
    b.perCluster > 0 && (!IsFat32(b) ==> b.bytesPerSector > 0)
  }

  /** FAT_Detect: the width of the table's entries, from the number of data clusters. */
  function DetectType(b: Boot): nat
    requires Divides(b)
  {
    var clusters := (TotalSectors(b) - DataLba(b)) % TWO32 / b.perCluster;
    if clusters < 0xFF5 then 12 else if b.sectorsPerFat16 != 0 then 16 else 32
  }

  /** A volume with a root directory of its own, all of it on the disk. */
  ghost predicate HasRootRegion(disk: seq<seq<byte>>, b: Boot) {
    && !IsFat32(b) && b.bytesPerSector == SECTOR_SIZE && b.dirEntries > 0
    && b.reserved + SectorsPerFat(b) * b.fatCount + RootDirSectors(b) <= |disk| < TWO32
  }

  /** The regions follow one another: reserved sectors, tables, root directory, data, and the
      root region is just long enough for the root directory. */
  lemma RegionsInOrder(disk: seq<seq<byte>>, b: Boot)
    requires HasRootRegion(disk, b)
    ensures RootLba(b) == b.reserved + SectorsPerFat(b) * b.fatCount
    ensures DataLba(b) == RootLba(b) + RootDirSectors(b)
    ensures SECTOR_SIZE * (RootDirSectors(b) - 1) < RootDirSize(b) <= SECTOR_SIZE * RootDirSectors(b)
  {
  }
}
