/** Volumes on which the FAT16 driver goes beyond what its format promises: a file that never finishes reading,
    and a directory entry found past the declared end of the root directory (src/fs.rs). */
module Fat16Limits {
  import opened Basics
  import opened Fat16
  import Bits

  // ---------------------------------------------------------------- a file that never finishes reading

  /** Boot sector, FAT and root directory in the first three sectors, with no sectors per cluster. */
  function LoopByte(sector: nat, i: nat): byte {
    match sector
    case 0 => BootByte(i)
    case 1 => if i == 4 then 2 else 0
    case 2 => FileByte(i)
    case _ => 0
  }

  /** 512-byte sectors, one reserved sector, one FAT of one sector, sixteen directory entries. */
  function BootByte(i: nat): byte {
    match i
    case 0x0C => 2
    case 0x0E => 1
    case 0x10 => 1
    case 0x11 => 16
    case 0x16 => 1
    case _ => 0
  }

  /** The file "A": one byte long, first cluster 2. */
  function FileByte(i: nat): byte {
    if i == 0 then 0x41 else if i < 11 then 0x20 else if i == 0x1A then 2 else if i == 0x1C then 1 else 0
  }

  function LoopSector(n: nat): Sector {
    seq(SECTOR_SIZE, i requires 0 <= i => LoopByte(n, i))
  }

  function LoopDisk(): Disk {
    n => LoopSector(n)
  }

  const LOOP_VOLUME: Bpb := Bpb(1, 1, 16, 1, 0)

  lemma LoopParsed()
    ensures Parse(LoopDisk()(0)) == Some(LOOP_VOLUME)
  {
  }

  lemma LoopEntry()
    ensures Representable([0x41]) && FirstMatch(LoopDisk(), LOOP_VOLUME, FatName([0x41]), 0)
    ensures Decoded(EntryBytes(LoopDisk(), LOOP_VOLUME, 0)) == DirEntry(2, 1)
  {
  }

  lemma {:induction false} LoopChain()
    ensures ChainCluster(LoopDisk(), LOOP_VOLUME, 2, 0) == ChainCluster(LoopDisk(), LOOP_VOLUME, 2, 1) == Some(2)
  {
  }

  /** A well-formed volume and a file on it that `read_file` never finishes reading. */
  lemma ReadingCanLoop()
    ensures Parse(LoopDisk()(0)) == Some(LOOP_VOLUME) && IsNamed(LoopDisk(), LOOP_VOLUME, [0x41], 0)
    ensures var e := Decoded(EntryBytes(LoopDisk(), LOOP_VOLUME, 0));
            && !Ends(LoopDisk(), LOOP_VOLUME, e.firstCluster, e.fileSize)
            && forall r :: !ReadsAs(LoopDisk(), LOOP_VOLUME, e.firstCluster, e.fileSize, r)
  {
    LoopParsed();
    LoopEntry();
    LoopChain();
    hide Parse, FirstMatch, FatName, Representable, Decoded, LoopDisk, ReadsAs;
    assert ComesBack(LoopDisk(), LOOP_VOLUME, 2, 0, 1);
    ReadingEnds(LoopDisk(), LOOP_VOLUME, 2, 1);
  }

  // ---------------------------------------------------------------- an entry past the declared end

  /** A root directory whose entries are all deleted except entry `n`, a file named `name`. */
  function OneEntryDisk(b: Bpb, name: seq<byte>, n: nat): Disk {
    s => OneEntrySector(b, name, n, s)
  }

  function OneEntrySector(b: Bpb, name: seq<byte>, n: nat, s: nat): Sector {
    seq(SECTOR_SIZE, i requires 0 <= i =>
      if s == FirstRootSector(b) + n / ENTRIES_PER_SECTOR && i / DIR_ENTRY_SIZE == n % ENTRIES_PER_SECTOR
      then EntryByte(name, i % DIR_ENTRY_SIZE) else DIR_ENTRY_FREE)
  }

  function EntryByte(name: seq<byte>, i: nat): byte {
    if i < 11 && i < |name| then name[i] else 0
  }

  lemma OneEntryAt(b: Bpb, name: seq<byte>, n: nat, m: nat)
    ensures forall i :: 0 <= i < DIR_ENTRY_SIZE ==>
              EntryBytes(OneEntryDisk(b, name, n), b, m)[i] == if m == n then EntryByte(name, i) else DIR_ENTRY_FREE
  {
    var q, r := m / ENTRIES_PER_SECTOR, m % ENTRIES_PER_SECTOR;
    forall i | 0 <= i < DIR_ENTRY_SIZE
      ensures EntryBytes(OneEntryDisk(b, name, n), b, m)[i] == if m == n then EntryByte(name, i) else DIR_ENTRY_FREE
    {
      Bits.RemainderUnique(r * DIR_ENTRY_SIZE + i, DIR_ENTRY_SIZE, r, i);
    }
  }

  lemma OneEntryMatches(b: Bpb, name: seq<byte>, n: nat)
    requires |name| == 11 && name[0] != DIR_ENTRY_FREE && name[0] != DIR_ENTRY_END
    requires n < RootSectors(b) * ENTRIES_PER_SECTOR
    ensures FirstMatch(OneEntryDisk(b, name, n), b, name, n)
  {
    var disk := OneEntryDisk(b, name, n);
    OneEntryAt(b, name, n, n);
    assert EntryBytes(disk, b, n)[0..11] == name;
    forall m: nat | m < n
      ensures !IsEnd(EntryBytes(disk, b, m)) && !IsFile(EntryBytes(disk, b, m), name)
    {
      OneEntryAt(b, name, n, m);
    }
  }

  /** The directory scan can return an entry beyond the declared ones on exactly the volumes whose declared
      entries do not fill whole sectors. */
  lemma EntryBeyondDeclared(b: Bpb)
    ensures (exists disk: Disk, name, n: nat :: FirstMatch(disk, b, name, n) && n >= b.rootEntries) <==>
            b.rootEntries % 16 != 0
  {
    if b.rootEntries % ENTRIES_PER_SECTOR != 0 {
      var name: seq<byte> := seq(11, _ => 0x41);
      OneEntryMatches(b, name, b.rootEntries);
    }
  }
}
