/** From a disk to the bytes of a file: the driver is started, a path is opened, and the file is
    read, or loaded as a program. */
module FatStart {
  import opened Bytes
  import opened FatVolume
  import opened FatBoot
  import opened FatFile
  import opened FatLookups
  import opened FatHandle
  import opened FatReader
  import opened FatDirectory
  import opened FatPath
  import opened ElfImage
  import opened ElfLoader

  /** A disk with a FAT12 or FAT16 volume, and its root directory on it. */
  ghost predicate Startable(disk: seq<seq<byte>>) {
    IsDisk(disk) && disk != [] && Divides(ParseBoot(disk[0])) && HasRootRegion(disk, ParseBoot(disk[0]))
  }

  ghost function VolumeOn(disk: seq<seq<byte>>): (v: Volume)
    requires Startable(disk)
    ensures Formatted(v)
  {
    var b := ParseBoot(disk[0]);
    TypeIsKnown(b);
    Volume(disk, DetectType(b), b.reserved, b.perCluster, DataLba(b))
  }

  ghost function RootOn(disk: seq<seq<byte>>): Place
    requires Startable(disk)
  {
    var b := ParseBoot(disk[0]);
    RootOnVolume(disk);
    var lbas := Consecutive(RootLba(b), RootDirSectors(b));
    Place(Content(VolumeOn(disk), lbas)[..RootDirSize(b)], Extent(lbas, [], false))
  }

  lemma RootOnVolume(disk: seq<seq<byte>>)
    requires Startable(disk)
    ensures var b := ParseBoot(disk[0]);
            var lbas := Consecutive(RootLba(b), RootDirSectors(b));
            && OnVolume(VolumeOn(disk), lbas) && 0 < RootDirSize(b) <= SECTOR_SIZE * RootDirSectors(b)
            && RootLba(b) < |disk|
  {
    RegionsInOrder(disk, ParseBoot(disk[0]));
  }

  /** The driver, started on such a disk. */
  method Start(disk: seq<seq<byte>>) returns (fat: Driver)
    requires Startable(disk)
    ensures fresh(fat) && fat.Valid() && fat.vol == VolumeOn(disk) && fat.cachePosition == NO_POSITION
    ensures At(fat, ROOT_DIRECTORY_HANDLE, RootOn(disk)) && fat.root.size > 0
    ensures forall i | 0 <= i < MAX_FILE_HANDLES :: !fat.files[i].inUse
  {
    RootOnVolume(disk);
    hide ParseBoot, DetectType, RootLba, DataLba, RootDirSectors, RootDirSize, HasRootRegion, Content, RootOk, StreamOf,
      Consecutive;
    fat := new Driver(disk);
    var ok := fat.Initialize();
  }

  /** Opening the path is possible: its components fit the name buffer, and there are some. */
  predicate PathOk(path: seq<byte>, stack: seq<byte>) {
    && |stack| == MAX_PATH_SIZE && Fits(WithoutSlash(path)) && WithoutSlash(path) != []
  }

  /** All lookups that opening and reading make, from a window that is nowhere, find the chains. */
  ghost predicate ReadSees(disk: seq<seq<byte>>, names: seq<seq<byte>>, chains: seq<seq<u32>>, count: u32)
    requires Startable(disk)
  {
    var v, root := VolumeOn(disk), RootOn(disk);
    && WalkOk(v, root, names, chains, NO_POSITION)
    && match Reached(v, root, names, chains)
       case Nowhere => true
       case There(p) =>
         Seen(v, p.extent, 0, LookupsTo(v, Min(count, |p.data|)), WalkWindow(v, root, names, chains, NO_POSITION))
  }

  /** FAT_Initialize, FAT_Open and FAT_Read: what is read depends on the disk, the path and, for the
      byte before the late end, the stack only. */
  method ReadPath(disk: seq<seq<byte>>, path: seq<byte>, stack: seq<byte>, count: u32, ghost chains: seq<seq<u32>>)
      returns (ok: bool, data: seq<byte>)
    requires Startable(disk) && PathOk(path, stack)
             && ReadSees(disk, Names(WithoutSlash(path), stack), chains, count)
    ensures match Reached(VolumeOn(disk), RootOn(disk), Names(WithoutSlash(path), stack), chains)
            case Nowhere => !ok
            case There(p) => ok && data == p.data[..Min(count, |p.data|)]
  {
    ghost var v, root, names := VolumeOn(disk), RootOn(disk), Names(WithoutSlash(path), stack);
    SomeNames(WithoutSlash(path), stack);
    hide Startable, VolumeOn, RootOn, Fits, Names, WalkOk, Reached, WalkWindow, Rewound, OnlyOpen, StreamOf, Seen,
      LookupsTo, WindowOver, Driver.Valid, AllInUse;
    var fat := Start(disk);
    assert !AllInUse(fat.files) by { NoneInUse(fat.files); }
    var h := FatPath.Open(fat, path, stack, root, chains);
    if h == NO_FILE { return false, []; }
    AtStart(v);
    ghost var p := Reached(v, root, names, chains).place;
    MayReadFrom(fat, h, p, count);
    data := fat.Read(h, count);
    ok := true;
  }

  lemma NoneInUse(files: seq<FileData>)
    requires files != [] && forall i | 0 <= i < |files| :: !files[i].inUse
    ensures !AllInUse(files)
  {
    assert !files[0].inUse;
  }

  lemma SomeNames(path: seq<byte>, stack: seq<byte>)
    requires path != [] && Fits(path) && |stack| == MAX_PATH_SIZE
    ensures Names(path, stack) != []
  {
  }

  lemma MayReadFrom(fat: Driver, h: int, p: Place, count: u32)
    requires fat.Valid() && At(fat, h, p)
    requires Seen(fat.vol, p.extent, 0, LookupsTo(fat.vol, Min(count, |p.data|)), fat.cachePosition)
    ensures fat.SeesTo(h, Skip(fat.StreamAt(h), count).position)
    ensures Take(fat.StreamAt(h), count) == p.data[..Min(count, |p.data|)]
  {
    AtStart(fat.vol);
    hide Seen, LookupsTo, Driver.Valid, Driver.Ready, Driver.StreamAt;
  }

  const BOOT: seq<byte> := [0x62, 0x6F, 0x6F, 0x74]
  const KERNEL: seq<byte> := [0x6B, 0x65, 0x72, 0x6E, 0x65, 0x6C, 0x2E, 0x65, 0x6C, 0x66]
  const KERNEL_PATH: seq<byte> := [SLASH] + BOOT + [SLASH] + KERNEL

  /** The boot loader's path "/boot/kernel.elf" leads where "boot" and "kernel.elf" lead, whatever is
      on the stack. */
  lemma KernelPath(disk: seq<seq<byte>>, stack: seq<byte>, chains: seq<seq<u32>>)
    requires Startable(disk) && |stack| == MAX_PATH_SIZE && |chains| == 2
    ensures PathOk(KERNEL_PATH, stack)
    ensures var names := Names(WithoutSlash(KERNEL_PATH), stack);
            && |names| == 2
            && Reached(VolumeOn(disk), RootOn(disk), names, chains)
                == Reached(VolumeOn(disk), RootOn(disk), [BOOT, KERNEL], chains)
  {
    KernelIsFull();
    KernelSpelled();
    hide Startable, VolumeOn, RootOn, Names, Fits, Full, Joined, Spelled, Reached, WalkOk, WithoutSlash;
    PathAsSpelled(VolumeOn(disk), RootOn(disk), [BOOT, KERNEL], stack, chains, NO_POSITION);
  }

  lemma KernelSpelled()
    ensures Spelled([BOOT, KERNEL]) && WithoutSlash(KERNEL_PATH) == Joined([BOOT, KERNEL]) != []
  {
    assert [BOOT, KERNEL][1..] == [KERNEL];
    assert KERNEL_PATH[0] == SLASH && KERNEL_PATH[1..] == BOOT + [SLASH] + KERNEL;
  }

  lemma KernelIsFull()
    ensures Full(KERNEL)
  {
    var d := DotFrom(KERNEL, 0);
    assert KERNEL[6] == DOT && KERNEL[0] != DOT && KERNEL[1] != DOT && KERNEL[2] != DOT && KERNEL[3] != DOT
           && KERNEL[4] != DOT && KERNEL[5] != DOT;
    assert d == 6;
  }

  /** The names that are looked for. */
  lemma KernelNames()
    ensures ShortName(BOOT) == Ascii("BOOT    ") + Ascii("   ")
    ensures ShortName(KERNEL) == Ascii("KERNEL  ") + Ascii("ELF")
  {
    var base, ext := [0x6B, 0x65, 0x72, 0x6E, 0x65, 0x6C], [0x65, 0x6C, 0x66];
    hide Base, Extension, Upper, Pad, Ascii;
    PartsSpelled(BOOT, []);
    PartsSpelled(base, ext);
    BaseFields(base, ext);
    assert KERNEL == base + [DOT] + ext;
  }

  lemma BaseFields(base: seq<byte>, ext: seq<byte>)
    requires base == [0x6B, 0x65, 0x72, 0x6E, 0x65, 0x6C] && ext == [0x65, 0x6C, 0x66]
    ensures Pad(Upper(base), 8) == Ascii("KERNEL  ") && Pad(Upper(ext), 3) == Ascii("ELF")
    ensures Pad(Upper(BOOT), 8) == Ascii("BOOT    ") && Pad(Upper([]), 3) == Ascii("   ")
  {
  }

  // ----- loading a program

  /** The bytes of the first file in the root directory with that name, if there is one. */
  ghost function InRoot(disk: seq<seq<byte>>, name: seq<byte>, chain: seq<u32>): Reach
    requires Startable(disk)
  {
    Entered(VolumeOn(disk), RootOn(disk), name, chain)
  }

  /** What loading it demands: it can be opened with this chain, the loader can handle what is in
      it, and its lookups find the chain. */
  ghost predicate LoadOk(disk: seq<seq<byte>>, name: seq<byte>, chain: seq<u32>, memory: nat)
    requires Startable(disk)
  {
    match InRoot(disk, name, chain)
    case Nowhere => Search(Stream(RootOn(disk).data, 0), ShortName(name)).NotFound?
    case There(p) => Loadable(p.data, memory) && LoadSeen(VolumeOn(disk), p.extent, p.data, NO_POSITION)
  }

  /** What loading a file with these bytes does to memory. */
  ghost predicate Loaded(data: seq<byte>, m: seq<byte>, m': seq<byte>, ok: bool, entryPoint: u32)
    requires Loadable(data, |m|)
  {
    && ok == (HasTable(data) && AllInFile(data, Segments(data)))
    && (|data| >= ELF_HEADER_SIZE ==> entryPoint == Word(data, 24))
    && (if HasTable(data) then KeptElsewhere(m, m', Segments(data)) else OnlyHeaders(m, m'))
    && (ok ==> AllPlaced(m', data, Segments(data), |Segments(data)|))
  }

  /** The first entry in the root directory with that name, ready to be opened. */
  method Find(fat: Driver, name: seq<byte>, ghost root: Place, ghost chain: seq<u32>) returns (found: bool, e: DirEntry)
    requires fat.Valid() && At(fat, ROOT_DIRECTORY_HANDLE, root) && !AllInUse(fat.files)
    requires Entered(fat.vol, root, name, chain).Nowhere? ==> Search(Stream(root.data, 0), ShortName(name)).NotFound?
    modifies fat`root, fat`files, fat`cache, fat`cachePosition
    ensures fat.Valid() && fat.cachePosition == old(fat.cachePosition)
    ensures match Entered(fat.vol, root, name, chain)
            case Nowhere => !found
            case There(p) => found && CanOpen(fat, fat.Handles(), e, chain, p.extent, p.data)
  {
    hide ShortName, Search, SearchEnd, Driver.Valid, EntryOk, EntryData, EntryExtent, SectorLba, ParseEntry;
    fat.UsuallySees(ROOT_DIRECTORY_HANDLE, SearchedTo(root, name));
    found, e := FindFile(fat, ROOT_DIRECTORY_HANDLE, name);
  }

  /** FAT_Initialize, FAT_FindFile in the root directory, and ELF_Read of what is found: when it
      succeeds, memory holds the program that the disk has under that name. */
  method LoadProgram(disk: seq<seq<byte>>, name: seq<byte>, mem: array<byte>, ghost chain: seq<u32>)
      returns (ok: bool, entryPoint: u32)
    requires Startable(disk) && LoadOk(disk, name, chain, mem.Length)
    modifies mem
    ensures match InRoot(disk, name, chain)
            case Nowhere => !ok && mem[..] == old(mem[..])
            case There(p) => Loaded(p.data, old(mem[..]), mem[..], ok, entryPoint)
  {
    ghost var root, r := RootOn(disk), InRoot(disk, name, chain);
    hide Startable, VolumeOn, RootOn, ShortName, Search, Loadable, LoadSeen, Driver.Valid, CanOpen, At, Entered, Loaded,
      AllInUse;
    var fat := Start(disk);
    NoneInUse(fat.files);
    var found, e := Find(fat, name, root, chain);
    if !found { return false, 0; }
    ok, entryPoint := LoadFound(fat, mem, e, chain, r.place);
  }

  method LoadFound(fat: Driver, mem: array<byte>, e: DirEntry, ghost chain: seq<u32>, ghost p: Place)
      returns (ok: bool, entryPoint: u32)
    requires CanOpen(fat, fat.Handles(), e, chain, p.extent, p.data) && Loadable(p.data, mem.Length)
             && LoadSeen(fat.vol, p.extent, p.data, fat.cachePosition)
    modifies mem, fat`root, fat`files, fat`extents, fat`cache, fat`cachePosition
    ensures Loaded(p.data, old(mem[..]), mem[..], ok, entryPoint)
  {
    LoadableSize(p.data, mem.Length);
    hide CanOpen, Loadable, LoadSeen, HasTable, AllInFile, AllPlaced, KeptElsewhere, OnlyHeaders, Segments, Word,
      Driver.Valid;
    ok, entryPoint := Load(fat, mem, e, chain, p.extent, p.data);
  }
}
