/** The read-only FAT16 driver of src/fs.rs over an arbitrary disk image. */
module Fat16 {
  import opened Basics
  import Bits

  const SECTOR_SIZE: nat := 512
  const DIR_ENTRY_SIZE: nat := 32
  const ENTRIES_PER_SECTOR: nat := 16
  const DIR_ENTRY_END: byte := 0x00
  const DIR_ENTRY_FREE: byte := 0xE5
  const ATTR_LONG_NAME: byte := 0x0F
  const ATTR_VOLUME_ID: byte := 0x08
  const ATTR_DIRECTORY: byte := 0x10
  const U32_LIMIT: nat := 0x1_0000_0000

  type Sector = s: seq<byte> | |s| == 512 witness seq(512, _ => 0)

  type Disk = nat -> Sector

  function U16(s: seq<byte>, o: nat): (r: nat)
    requires o + 2 <= |s|
    ensures r < 0x1_0000
  {
    s[o] as int + 256 * (s[o + 1] as int)
  }

  function U32(s: seq<byte>, o: nat): (r: nat)
    requires o + 4 <= |s|
    ensures r < U32_LIMIT
  {
    U16(s, o) + 0x1_0000 * U16(s, o + 2)
  }

  // ---------------------------------------------------------------- geometry

  datatype Bpb = Bpb(reserved: nat, fats: nat, rootEntries: nat, fatSize: nat, sectorsPerCluster: nat)

  /** The fields have the widths of the boot sector's. */
  predicate Sized(b: Bpb) {
    b.reserved < 0x1_0000 && b.fats < 0x100 && b.rootEntries < 0x1_0000 && b.fatSize < 0x1_0000
        && b.sectorsPerCluster < 0x100
  }

  function Parse(boot: Sector): (r: Option<Bpb>)
    ensures r.Some? ==> Sized(r.value)
  {
    if U16(boot, 0x0B) != SECTOR_SIZE then None
    else Some(Bpb(U16(boot, 0x0E), boot[0x10], U16(boot, 0x11), U16(boot, 0x16), boot[0x0D]))
  }

  function RootSectors(b: Bpb): nat {
    (b.rootEntries * DIR_ENTRY_SIZE + SECTOR_SIZE - 1) / SECTOR_SIZE
  }

  function FirstRootSector(b: Bpb): nat {
    b.reserved + b.fats * b.fatSize
  }

  function FirstDataSector(b: Bpb): nat {
    FirstRootSector(b) + RootSectors(b)
  }

  function ClusterToLba(b: Bpb, cluster: nat): nat
    requires cluster >= 2
  {
    FirstDataSector(b) + (cluster - 2) * b.sectorsPerCluster
  }

  function FatSector(b: Bpb, cluster: nat): nat {
    b.reserved + cluster * 2 / SECTOR_SIZE
  }

  function FatOffset(cluster: nat): (r: nat)
    ensures r + 2 <= SECTOR_SIZE
  {
    cluster * 2 % SECTOR_SIZE
  }

  lemma ProductBound(x: nat, y: nat, a: nat, b: nat)
    requires x <= a && y <= b
    ensures x * y <= a * b
  {
    assert x * y <= a * y;
    assert a * y <= a * b;
  }

  /** No 32-bit operation of the geometry overflows, and every sector the driver reads is addressable. */
  lemma GeometryFits(b: Bpb, cluster: nat, i: nat)
    requires Sized(b) && 2 <= cluster < 0x1_0000 && i < b.sectorsPerCluster
    ensures b.rootEntries * DIR_ENTRY_SIZE + SECTOR_SIZE - 1 < U32_LIMIT
    ensures b.fats * b.fatSize < U32_LIMIT && (cluster - 2) * b.sectorsPerCluster < U32_LIMIT
    ensures ClusterToLba(b, cluster) + i < 0x1000_0000
  {
    ProductBound(b.fats, b.fatSize, 0xFF, 0xFFFF);
    ProductBound(cluster - 2, b.sectorsPerCluster, 0xFFFD, 0xFF);
  }

  lemma DirectoryFits(b: Bpb, i: nat)
    requires Sized(b) && i < RootSectors(b)
    ensures FirstRootSector(b) + i < FirstDataSector(b) < 0x1000_0000
  {
    ProductBound(b.fats, b.fatSize, 0xFF, 0xFFFF);
  }

  /** A FAT entry never straddles two sectors, and it lies inside the first FAT exactly when that FAT is
      large enough for the cluster, which the driver does not check. */
  lemma FatEntryFits(b: Bpb, cluster: nat)
    requires Sized(b) && cluster < 0x1_0000
    ensures FatOffset(cluster) + 2 <= SECTOR_SIZE
    ensures FatSector(b, cluster) * SECTOR_SIZE + FatOffset(cluster) == b.reserved * SECTOR_SIZE + cluster * 2
    ensures FatSector(b, cluster) < 0x1000_0000
    ensures FatSector(b, cluster) < b.reserved + b.fatSize <==> cluster < b.fatSize * 256
  {
  }

  /** Different clusters occupy disjoint runs of sectors, all beyond the FATs and the root directory. */
  lemma ClustersDisjoint(b: Bpb, c: nat, d: nat, i: nat, j: nat)
    requires 2 <= c < d && i < b.sectorsPerCluster && j < b.sectorsPerCluster
    ensures b.reserved + b.fats * b.fatSize + RootSectors(b) <= ClusterToLba(b, c) + i < ClusterToLba(b, d) + j
  {
    var n := b.sectorsPerCluster;
    ProductBound(c - 1, n, d - 2, n);
    assert (c - 1) * n == (c - 2) * n + n;
  }

  /** The volume is laid out without gaps: reserved sectors, FATs, just enough sectors for the root
      directory, then cluster 2 and every following cluster directly after the one before. */
  lemma VolumeLayout(b: Bpb, cluster: nat)
    requires cluster >= 2
    ensures ClusterToLba(b, 2) == b.reserved + b.fats * b.fatSize + RootSectors(b)
    ensures ClusterToLba(b, cluster + 1) == ClusterToLba(b, cluster) + b.sectorsPerCluster
    ensures var listed, room := b.rootEntries * DIR_ENTRY_SIZE, RootSectors(b) * SECTOR_SIZE;
            listed <= room < listed + SECTOR_SIZE
  {
    assert (cluster + 1 - 2) * b.sectorsPerCluster == (cluster - 2) * b.sectorsPerCluster + b.sectorsPerCluster;
  }

  // ---------------------------------------------------------------- the directory

  datatype DirEntry = DirEntry(firstCluster: nat, fileSize: nat)

  /** Entry `n` of the root directory, counted across its sectors. */
  function EntryBytes(disk: Disk, b: Bpb, n: nat): (e: seq<byte>)
    ensures |e| == DIR_ENTRY_SIZE
  {
    ChunkOf(disk(FirstRootSector(b) + n / ENTRIES_PER_SECTOR), n % ENTRIES_PER_SECTOR)
  }

  function ChunkOf(s: Sector, j: nat): (e: seq<byte>)
    requires j < ENTRIES_PER_SECTOR
    ensures |e| == DIR_ENTRY_SIZE
  {
    s[DIR_ENTRY_SIZE * j..DIR_ENTRY_SIZE * j + DIR_ENTRY_SIZE]
  }

  predicate IsEnd(e: seq<byte>)
    requires |e| == DIR_ENTRY_SIZE
  {
    e[0] == DIR_ENTRY_END
  }

  /** A live file entry with this name: not deleted, no long-name part, volume label or directory. */
  predicate IsFile(e: seq<byte>, name: seq<byte>)
    requires |e| == DIR_ENTRY_SIZE
  {
    && e[0] != DIR_ENTRY_FREE && e[0] != DIR_ENTRY_END
    && e[0x0B] != ATTR_LONG_NAME && Bits.And(e[0x0B], ATTR_VOLUME_ID) == 0 && Bits.And(e[0x0B], ATTR_DIRECTORY) == 0
    && e[0..11] == name
  }

  function Decoded(e: seq<byte>): (d: DirEntry)
    requires |e| == DIR_ENTRY_SIZE
    ensures d.firstCluster < 0x1_0000 && d.fileSize < U32_LIMIT
  {
    DirEntry(U16(e, 0x1A), U32(e, 0x1C))
  }

  /** Nothing up to entry `n` ends the scan. */
  ghost predicate Passed(disk: Disk, b: Bpb, name: seq<byte>, n: nat) {
    forall m: nat :: m < n ==> !IsEnd(EntryBytes(disk, b, m)) && !IsFile(EntryBytes(disk, b, m), name)
  }

  /** Entry `n` is the first live match, before any end marker. */
  ghost predicate FirstMatch(disk: Disk, b: Bpb, name: seq<byte>, n: nat) {
    && n < RootSectors(b) * ENTRIES_PER_SECTOR
    && Passed(disk, b, name, n) && IsFile(EntryBytes(disk, b, n), name)
  }

  /** There is at most one first match. */
  lemma FirstMatchUnique(disk: Disk, b: Bpb, name: seq<byte>, n: nat, m: nat)
    requires FirstMatch(disk, b, name, n) && FirstMatch(disk, b, name, m)
    ensures n == m
  {
  }

  datatype Scan = Found(index: nat) | Ended(at: nat) | Further

  /** The inner loop of the scan: the entries of sector `i`. */
  method ScanSector(disk: Disk, b: Bpb, name: seq<byte>, i: nat) returns (r: Scan)
    requires i < RootSectors(b) && Passed(disk, b, name, i * ENTRIES_PER_SECTOR)
    ensures match r
      case Found(n) => FirstMatch(disk, b, name, n)
      case Ended(n) => Passed(disk, b, name, n) && IsEnd(EntryBytes(disk, b, n))
      case Further => Passed(disk, b, name, (i + 1) * ENTRIES_PER_SECTOR)
  {
    var sector := disk(FirstRootSector(b) + i);
    var j := 0;
    while j < ENTRIES_PER_SECTOR
      invariant j <= ENTRIES_PER_SECTOR && Passed(disk, b, name, i * ENTRIES_PER_SECTOR + j)
    {
      var e := ChunkOf(sector, j);
      EntryIndex(disk, b, i, j);
      if e[0] == DIR_ENTRY_END {
        return Ended(i * ENTRIES_PER_SECTOR + j);
      }
      if IsFile(e, name) {
        return Found(i * ENTRIES_PER_SECTOR + j);
      }
      j := j + 1;
    }
    r := Further;
  }

  lemma EntryIndex(disk: Disk, b: Bpb, i: nat, j: nat)
    requires j < ENTRIES_PER_SECTOR
    ensures EntryBytes(disk, b, i * ENTRIES_PER_SECTOR + j) == ChunkOf(disk(FirstRootSector(b) + i), j)
  {
    Bits.RemainderUnique(i * ENTRIES_PER_SECTOR + j, ENTRIES_PER_SECTOR, i, j);
  }

  /** `find_in_root_dir`: the first live match before the end marker, if there is one. */
  method FindInRootDir(disk: Disk, b: Bpb, name: seq<byte>) returns (r: Option<DirEntry>)
    ensures r.Some? ==> exists n :: FirstMatch(disk, b, name, n) && r.value == Decoded(EntryBytes(disk, b, n))
    ensures r.None? ==> forall n :: !FirstMatch(disk, b, name, n)
  {
    var i := 0;
    while i < RootSectors(b)
      invariant i <= RootSectors(b) && Passed(disk, b, name, i * ENTRIES_PER_SECTOR)
    {
      var scan := ScanSector(disk, b, name, i);
      match scan {
        case Found(n) =>
          return Some(Decoded(EntryBytes(disk, b, n)));
        case Ended(n) =>
          EndedScan(disk, b, name, n);
          return None;
        case Further =>
          i := i + 1;
      }
    }
    r := None;
  }

  lemma EndedScan(disk: Disk, b: Bpb, name: seq<byte>, n: nat)
    requires Passed(disk, b, name, n) && IsEnd(EntryBytes(disk, b, n))
    ensures forall m :: !FirstMatch(disk, b, name, m)
  {
    forall m: nat
      ensures !FirstMatch(disk, b, name, m)
    {
      assert m < n ==> !IsFile(EntryBytes(disk, b, m), name);
    }
  }

  // ---------------------------------------------------------------- cluster chains

  /** `next_cluster`: None at an end-of-chain or bad-cluster marker. */
  function NextCluster(disk: Disk, b: Bpb, cluster: nat): (r: Option<nat>)
    ensures r.Some? ==> r.value < 0xFFF7
  {
    var entry := U16(disk(FatSector(b, cluster)), FatOffset(cluster));
    if entry >= 0xFFF8 || entry == 0xFFF7 then None else Some(entry)
  }

  /** The cluster holding piece `k` of a file; clusters 0 and 1 hold no data. */
  function ChainCluster(disk: Disk, b: Bpb, first: nat, k: nat): Option<nat> {
    if k == 0 then Some(first)
    else
      match ChainCluster(disk, b, first, k - 1)
      case None => None
      case Some(c) => NextCluster(disk, b, c)
  }

  /** The chain reaches piece `k` through data clusters only. */
  ghost predicate ChainTo(disk: Disk, b: Bpb, first: nat, k: nat) {
    forall j: nat :: j < k ==> DataPiece(disk, b, first, j)
  }

  predicate DataPiece(disk: Disk, b: Bpb, first: nat, j: nat) {
    ChainCluster(disk, b, first, j).Some? && ChainCluster(disk, b, first, j).value >= 2
  }

  /** The first `n` sectors from `lba`, concatenated. */
  function SectorRun(disk: Disk, lba: nat, n: nat): (r: seq<byte>)
    ensures |r| == n * SECTOR_SIZE
  {
    if n == 0 then [] else SectorRun(disk, lba, n - 1) + disk(lba + n - 1)
  }

  /** The first `k` clusters of the chain, concatenated. */
  ghost function ChainBytes(disk: Disk, b: Bpb, first: nat, k: nat): (r: seq<byte>)
    requires ChainTo(disk, b, first, k)
  {
    if k == 0 then []
    else
      assert DataPiece(disk, b, first, k - 1);
      ChainBytes(disk, b, first, k - 1)
        + SectorRun(disk, ClusterToLba(b, ChainCluster(disk, b, first, k - 1).value), b.sectorsPerCluster)
  }

  datatype Contents = Data(bytes: seq<byte>) | Panicked

  /** Reading stops inside piece `k`: at the file size, at the end of the chain before it, or at a piece
      that is no data cluster. */
  ghost predicate StopsAt(disk: Disk, b: Bpb, first: nat, size: nat, k: nat, r: Contents) {
    && ChainTo(disk, b, first, k)
    && var before := ChainBytes(disk, b, first, k);
    && |before| < size
    && match r
       case Panicked => ChainCluster(disk, b, first, k).Some? && ChainCluster(disk, b, first, k).value < 2
       case Data(bytes) =>
         || (bytes == before && ChainCluster(disk, b, first, k).None?)
         || (&& ChainTo(disk, b, first, k + 1)
             && size <= |ChainBytes(disk, b, first, k + 1)| && bytes == ChainBytes(disk, b, first, k + 1)[..size])
  }

  /** What the file's contents are: the first `size` bytes of its cluster chain, or the whole chain when it
      ends short. */
  ghost predicate ReadsAs(disk: Disk, b: Bpb, first: nat, size: nat, r: Contents) {
    if size == 0 then r == Data([]) else exists k :: StopsAt(disk, b, first, size, k, r)
  }

  lemma {:induction false} ChainBytesLength(disk: Disk, b: Bpb, first: nat, k: nat)
    requires ChainTo(disk, b, first, k)
    ensures |ChainBytes(disk, b, first, k)| == k * (b.sectorsPerCluster * SECTOR_SIZE)
  {
    hide ChainCluster, SectorRun;
    if k > 0 {
      ChainBytesLength(disk, b, first, k - 1);
      assert DataPiece(disk, b, first, k - 1);
      assert k * (b.sectorsPerCluster * SECTOR_SIZE)
             == (k - 1) * (b.sectorsPerCluster * SECTOR_SIZE) + b.sectorsPerCluster * SECTOR_SIZE;
    }
  }

  /** The sectors of one cluster: append what is still wanted of them. */
  method ReadCluster(disk: Disk, lba: nat, n: nat, size: nat, data: seq<byte>) returns (out: seq<byte>)
    requires |data| < size
    ensures out == if |data| + n * SECTOR_SIZE >= size then (data + SectorRun(disk, lba, n))[..size]
            else data + SectorRun(disk, lba, n)
  {
    out := data;
    var i := 0;
    while i < n
      invariant i <= n && |data| + i * SECTOR_SIZE < size && out == data + SectorRun(disk, lba, i)
    {
      var sector := disk(lba + i);
      var remaining := size - |out|;
      var take := if remaining < SECTOR_SIZE then remaining else SECTOR_SIZE;
      out := out + sector[..take];
      LastSector(disk, lba, i, n, data, size, take);
      if |out| >= size {
        return;
      }
      i := i + 1;
    }
  }

  lemma LastSector(disk: Disk, lba: nat, i: nat, n: nat, data: seq<byte>, size: nat, take: nat)
    requires i < n && |data| + i * SECTOR_SIZE < size
    requires take == if size - |data| - i * SECTOR_SIZE < SECTOR_SIZE then size - |data| - i * SECTOR_SIZE
             else SECTOR_SIZE
    ensures var out := data + SectorRun(disk, lba, i) + disk(lba + i)[..take];
            && (|out| >= size ==> |data| + n * SECTOR_SIZE >= size && out == (data + SectorRun(disk, lba, n))[..size])
            && (|out| < size ==> |data| + (i + 1) * SECTOR_SIZE < size && out == data + SectorRun(disk, lba, i + 1))
  {
    var out := data + SectorRun(disk, lba, i) + disk(lba + i)[..take];
    assert SectorRun(disk, lba, i + 1) == SectorRun(disk, lba, i) + disk(lba + i);
    RunPrefix(disk, lba, i + 1, n);
    hide SectorRun;
    if |out| >= size {
      var whole := data + SectorRun(disk, lba, n);
      assert out <= data + SectorRun(disk, lba, i + 1);
      assert data + SectorRun(disk, lba, i + 1) <= whole;
    }
  }

  lemma {:induction false} RunPrefix(disk: Disk, lba: nat, i: nat, n: nat)
    requires i <= n
    ensures SectorRun(disk, lba, i) <= SectorRun(disk, lba, n)
    decreases n
  {
    if i < n {
      RunPrefix(disk, lba, i, n - 1);
    }
  }

  /** No chain visits more clusters than its first one and then those from 2 to 0xFFF6. */
  const LONGEST_CHAIN: nat := 0xFFF6

  /** Within that many links the chain comes back, from piece `j` to the cluster of piece `i`. */
  ghost predicate ComesBack(disk: Disk, b: Bpb, first: nat, i: nat, j: nat) {
    && i < j <= LONGEST_CHAIN && ChainTo(disk, b, first, j)
    && ChainCluster(disk, b, first, i) == ChainCluster(disk, b, first, j)
  }

  ghost predicate Cyclic(disk: Disk, b: Bpb, first: nat) {
    exists i: nat, j: nat :: ComesBack(disk, b, first, i, j)
  }

  /** The walk of `read_file` comes to an end: the file is empty, or each cluster brings the data closer to the
      file size, or the chain does not come back to a cluster it has visited. */
  ghost predicate Ends(disk: Disk, b: Bpb, first: nat, size: nat) {
    size == 0 || b.sectorsPerCluster > 0 || !Cyclic(disk, b, first)
  }

  lemma {:induction false} Period(disk: Disk, b: Bpb, first: nat, i: nat, j: nat, m: nat)
    requires i < j <= m && ChainCluster(disk, b, first, i) == ChainCluster(disk, b, first, j)
    ensures ChainCluster(disk, b, first, m) == ChainCluster(disk, b, first, m - (j - i))
    decreases m
  {
    if m > j {
      Period(disk, b, first, i, j, m - 1);
    }
  }

  lemma {:induction false} CycleStays(disk: Disk, b: Bpb, first: nat, i: nat, j: nat, m: nat)
    requires ComesBack(disk, b, first, i, j)
    ensures DataPiece(disk, b, first, m)
    decreases m
  {
    if m >= j {
      CycleStays(disk, b, first, i, j, m - (j - i));
      Period(disk, b, first, i, j, m);
    }
  }

  /** A chain that never leaves the data clusters comes back: there are too few of them. */
  lemma {:induction false} EndlessComesBack(disk: Disk, b: Bpb, first: nat)
    requires forall m: nat :: DataPiece(disk, b, first, m)
    ensures Cyclic(disk, b, first)
  {
    hide ChainCluster;
    forall k: nat | k > 0
      ensures DataPiece(disk, b, first, k) && ChainCluster(disk, b, first, k).value < 0xFFF7
    {
      LinkBelow(disk, b, first, k);
    }
    var q: seq<nat> := seq(LONGEST_CHAIN, k requires 0 <= k && DataPiece(disk, b, first, k + 1) =>
                                            ChainCluster(disk, b, first, k + 1).value - 2);
    if NoDup(q) {
      Pigeonhole(q, LONGEST_CHAIN - 1);
      assert false;
    }
    var i, j :| 0 <= i < j < |q| && q[i] == q[j];
    assert ComesBack(disk, b, first, i + 1, j + 1);
  }

  lemma {:induction false} LinkBelow(disk: Disk, b: Bpb, first: nat, k: nat)
    requires k > 0 && DataPiece(disk, b, first, k)
    ensures ChainCluster(disk, b, first, k).value < 0xFFF7
  {
  }

  /** A chain stays among the data clusters for ever exactly when it comes back. */
  lemma CyclicWhen(disk: Disk, b: Bpb, first: nat)
    ensures Cyclic(disk, b, first) <==> forall m: nat :: DataPiece(disk, b, first, m)
  {
    if i: nat, j: nat :| ComesBack(disk, b, first, i, j) {
      forall m: nat
        ensures DataPiece(disk, b, first, m)
      {
        CycleStays(disk, b, first, i, j, m);
      }
    } else if forall m: nat :: DataPiece(disk, b, first, m) {
      EndlessComesBack(disk, b, first);
    }
  }

  /** The cluster walk of `read_file`, on exactly the chains where it terminates. */
  method ReadChain(disk: Disk, b: Bpb, first: nat, size: nat) returns (r: Contents)
    requires Ends(disk, b, first, size)
    ensures ReadsAs(disk, b, first, size, r)
  {
    if size == 0 {
      return Data([]);
    }
    var data: seq<byte> := [];
    var cluster := first;
    ghost var k := 0;
    CyclicWhen(disk, b, first);
    ghost var last: nat := if b.sectorsPerCluster > 0 then 0 else var m: nat :| !DataPiece(disk, b, first, m); m;
    while true
      invariant ChainTo(disk, b, first, k) && data == ChainBytes(disk, b, first, k) && |data| < size
      invariant ChainCluster(disk, b, first, k) == Some(cluster)
      invariant b.sectorsPerCluster > 0 || (k <= last && !DataPiece(disk, b, first, last))
      decreases if b.sectorsPerCluster > 0 then size - |data| else last - k
    {
      if cluster < 2 {
        assert StopsAt(disk, b, first, size, k, Panicked);
        return Panicked;
      }
      var out := ReadCluster(disk, ClusterToLba(b, cluster), b.sectorsPerCluster, size, data);
      PieceAdded(disk, b, first, k, cluster);
      if |out| >= size {
        assert StopsAt(disk, b, first, size, k, Data(out));
        return Data(out);
      }
      data := out;
      k := k + 1;
      var next := NextCluster(disk, b, cluster);
      if next.None? {
        assert StopsAt(disk, b, first, size, k, Data(data));
        return Data(data);
      }
      cluster := next.value;
    }
  }

  lemma PieceAdded(disk: Disk, b: Bpb, first: nat, k: nat, cluster: nat)
    requires ChainTo(disk, b, first, k) && ChainCluster(disk, b, first, k) == Some(cluster) && cluster >= 2
    ensures ChainTo(disk, b, first, k + 1)
    ensures ChainBytes(disk, b, first, k + 1)
         == ChainBytes(disk, b, first, k) + SectorRun(disk, ClusterToLba(b, cluster), b.sectorsPerCluster)
    ensures ChainCluster(disk, b, first, k + 1) == NextCluster(disk, b, cluster)
  {
    forall j: nat | j < k + 1
      ensures DataPiece(disk, b, first, j)
    {
    }
  }

  /** A file has one contents. */
  lemma ReadsAsOneThing(disk: Disk, b: Bpb, first: nat, size: nat, r: Contents, q: Contents)
    requires ReadsAs(disk, b, first, size, r) && ReadsAs(disk, b, first, size, q)
    ensures r == q
  {
    if size > 0 {
      var k: nat :| StopsAt(disk, b, first, size, k, r);
      var l: nat :| StopsAt(disk, b, first, size, l, q);
      hide StopsAt, ChainCluster, ChainBytes;
      StopsOnce(disk, b, first, size, k, r, l, q);
      StopsOnce(disk, b, first, size, l, q, k, r);
      StopsAlike(disk, b, first, size, k, r, q);
    }
  }

  lemma StopsAlike(disk: Disk, b: Bpb, first: nat, size: nat, k: nat, r: Contents, q: Contents)
    requires StopsAt(disk, b, first, size, k, r) && StopsAt(disk, b, first, size, k, q)
    ensures r == q
  {
    hide ChainCluster, ChainBytes;
    if ChainTo(disk, b, first, k + 1) {
      assert DataPiece(disk, b, first, k);
    }
  }

  lemma StopsOnce(disk: Disk, b: Bpb, first: nat, size: nat, k: nat, r: Contents, l: nat, q: Contents)
    requires StopsAt(disk, b, first, size, k, r) && StopsAt(disk, b, first, size, l, q)
    ensures l <= k
  {
    hide ChainCluster, ChainBytes;
    if k < l {
      assert DataPiece(disk, b, first, k);
      ChainBytesLength(disk, b, first, k + 1);
      ChainBytesLength(disk, b, first, l);
      ProductBound(k + 1, b.sectorsPerCluster * SECTOR_SIZE, l, b.sectorsPerCluster * SECTOR_SIZE);
    }
  }

  lemma {:induction false} FindStop(disk: Disk, b: Bpb, first: nat, size: nat, k: nat, m: nat)
    returns (l: nat, r: Contents)
    requires ChainTo(disk, b, first, k) && |ChainBytes(disk, b, first, k)| < size
    requires b.sectorsPerCluster > 0 || (k <= m && !DataPiece(disk, b, first, m))
    ensures StopsAt(disk, b, first, size, l, r)
    decreases if b.sectorsPerCluster > 0 then size - |ChainBytes(disk, b, first, k)| else m - k
  {
    if !DataPiece(disk, b, first, k) {
      l := k;
      r := if ChainCluster(disk, b, first, k).None? then Data(ChainBytes(disk, b, first, k)) else Panicked;
    } else {
      PieceAdded(disk, b, first, k, ChainCluster(disk, b, first, k).value);
      hide ChainCluster;
      var bytes := ChainBytes(disk, b, first, k + 1);
      if size <= |bytes| {
        l, r := k, Data(bytes[..size]);
      } else {
        l, r := FindStop(disk, b, first, size, k + 1, m);
      }
    }
  }

  /** A file has contents exactly when it is empty, or clusters hold sectors, or its chain does not come back. */
  lemma ReadingEnds(disk: Disk, b: Bpb, first: nat, size: nat)
    ensures (exists r :: ReadsAs(disk, b, first, size, r)) <==> Ends(disk, b, first, size)
    ensures !Ends(disk, b, first, size) <==> size > 0 && b.sectorsPerCluster == 0 && Cyclic(disk, b, first)
  {
    CyclicWhen(disk, b, first);
    hide ChainCluster, Cyclic;
    if size == 0 {
      assert ReadsAs(disk, b, first, size, Data([]));
    } else if b.sectorsPerCluster > 0 {
      var l, r := FindStop(disk, b, first, size, 0, 0);
      assert ReadsAs(disk, b, first, size, r);
    } else if m: nat :| !DataPiece(disk, b, first, m) {
      var l, r := FindStop(disk, b, first, size, 0, m);
      assert ReadsAs(disk, b, first, size, r);
    } else {
      forall k: nat, r: Contents
        ensures !StopsAt(disk, b, first, size, k, r)
      {
        assert DataPiece(disk, b, first, k);
        if ChainTo(disk, b, first, k + 1) {
          ChainBytesLength(disk, b, first, k + 1);
        }
      }
    }
  }

  lemma {:induction false} RunByte(disk: Disk, lba: nat, n: nat, q: nat, o: nat)
    requires q < n && o < SECTOR_SIZE
    ensures q * SECTOR_SIZE + o < n * SECTOR_SIZE && SectorRun(disk, lba, n)[q * SECTOR_SIZE + o] == disk(lba + q)[o]
  {
    if q < n - 1 {
      RunByte(disk, lba, n - 1, q, o);
    }
  }

  /** Where each byte of a file comes from: byte `o` of sector `q` of piece `j`. */
  lemma {:induction false} ChainByte(disk: Disk, b: Bpb, first: nat, k: nat, j: nat, q: nat, o: nat)
    requires ChainTo(disk, b, first, k) && j < k && q < b.sectorsPerCluster && o < SECTOR_SIZE
    ensures DataPiece(disk, b, first, j)
    ensures var p := j * (b.sectorsPerCluster * SECTOR_SIZE) + (q * SECTOR_SIZE + o);
            && p < |ChainBytes(disk, b, first, k)|
            && ChainBytes(disk, b, first, k)[p] == disk(ClusterToLba(b, ChainCluster(disk, b, first, j).value) + q)[o]
  {
    hide ChainCluster;
    assert DataPiece(disk, b, first, j) && DataPiece(disk, b, first, k - 1);
    ChainBytesLength(disk, b, first, k - 1);
    if j < k - 1 {
      ChainByte(disk, b, first, k - 1, j, q, o);
    } else {
      RunByte(disk, ClusterToLba(b, ChainCluster(disk, b, first, j).value), b.sectorsPerCluster, q, o);
    }
  }

  /** What was read of a file: at most its size; less only if the chain ended, and then all of the chain; and each
      byte is where the chain has it. */
  lemma FileBytes(disk: Disk, b: Bpb, first: nat, size: nat, bytes: seq<byte>) returns (k: nat)
    requires ReadsAs(disk, b, first, size, Data(bytes))
    ensures |bytes| <= size && |bytes| <= k * (b.sectorsPerCluster * 512)
    ensures |bytes| < size ==> ChainCluster(disk, b, first, k).None? && |bytes| == k * (b.sectorsPerCluster * 512)
    ensures forall j: nat :: j < k ==>
              ChainCluster(disk, b, first, j).Some? && ChainCluster(disk, b, first, j).value >= 2
    ensures forall j: nat, q: nat, o: nat :: j < k && q < b.sectorsPerCluster && o < 512 ==>
              SectorByte(disk, b, first, bytes, j, q, o)
  {
    if size == 0 {
      k := 0;
    } else {
      var l: nat :| StopsAt(disk, b, first, size, l, Data(bytes));
      k := PiecesRead(disk, b, first, size, l, bytes);
      hide ChainCluster, StopsAt, SectorByte, ChainBytes, ReadsAs;
      ChainBytesLength(disk, b, first, k);
      forall j: nat | j < k
        ensures ChainCluster(disk, b, first, j).Some? && ChainCluster(disk, b, first, j).value >= 2
      {
        assert DataPiece(disk, b, first, j);
      }
      forall j: nat, q: nat, o: nat | j < k && q < b.sectorsPerCluster && o < 512
        ensures SectorByte(disk, b, first, bytes, j, q, o)
      {
        ByteRead(disk, b, first, k, bytes, j, q, o);
      }
    }
  }

  lemma {:induction false} ByteRead(disk: Disk, b: Bpb, first: nat, k: nat, bytes: seq<byte>, j: nat, q: nat, o: nat)
    requires ChainTo(disk, b, first, k) && bytes <= ChainBytes(disk, b, first, k)
    requires j < k && q < b.sectorsPerCluster && o < 512
    ensures SectorByte(disk, b, first, bytes, j, q, o)
  {
    hide ChainCluster, ChainBytes;
    ChainByte(disk, b, first, k, j, q, o);
  }

  /** Byte `o` of sector `q` of piece `j`, if it was read at all. */
  ghost predicate SectorByte(disk: Disk, b: Bpb, first: nat, bytes: seq<byte>, j: nat, q: nat, o: nat) {
    var p := j * (b.sectorsPerCluster * 512) + (q * 512 + o);
    p < |bytes| && o < 512 && DataPiece(disk, b, first, j) ==>
      bytes[p] == disk(ClusterToLba(b, ChainCluster(disk, b, first, j).value) + q)[o]
  }

  lemma PiecesRead(disk: Disk, b: Bpb, first: nat, size: nat, l: nat, bytes: seq<byte>) returns (k: nat)
    requires StopsAt(disk, b, first, size, l, Data(bytes))
    ensures ChainTo(disk, b, first, k) && bytes <= ChainBytes(disk, b, first, k) && |bytes| <= size
    ensures |bytes| < size ==> ChainCluster(disk, b, first, k).None? && bytes == ChainBytes(disk, b, first, k)
  {
    hide ChainCluster, ChainBytes;
    if bytes == ChainBytes(disk, b, first, l) && ChainCluster(disk, b, first, l).None? {
      k := l;
    } else {
      k := l + 1;
    }
  }

  // ---------------------------------------------------------------- names

  const DOT: byte := 46
  const SPACE: byte := 32

  function Uppercase(c: byte): byte {
    if 97 <= c <= 122 then c - 32 else c
  }

  /** The position of the first dot at or after `i`, or the length. */
  function DotFrom(name: seq<byte>, i: nat): (r: nat)
    requires i <= |name|
    ensures i <= r <= |name| && (r < |name| ==> name[r] == DOT) && DOT !in name[i..r]
    decreases |name| - i
  {
    if i == |name| || name[i] == DOT then i else DotFrom(name, i + 1)
  }

  function Base(name: seq<byte>): seq<byte> {
    name[..DotFrom(name, 0)]
  }

  function Extension(name: seq<byte>): seq<byte> {
    if DotFrom(name, 0) == |name| then [] else name[DotFrom(name, 0) + 1..]
  }

  predicate Representable(name: seq<byte>) {
    0 < |Base(name)| <= 8 && |Extension(name)| <= 3
  }

  /** Uppercased and padded with spaces to `n` bytes. */
  function Padded(s: seq<byte>, n: nat): (r: seq<byte>)
    requires |s| <= n
    ensures |r| == n
  {
    seq(n, i requires 0 <= i < n => if i < |s| then Uppercase(s[i]) else SPACE)
  }

  /** The 11 bytes a directory entry would hold. */
  function FatName(name: seq<byte>): (r: seq<byte>)
    requires Representable(name)
    ensures |r| == 11
  {
    Padded(Base(name), 8) + Padded(Extension(name), 3)
  }

  /** A name is its part before the first dot, the dot, and the rest. */
  lemma NameParts(name: seq<byte>)
    ensures 46 !in Base(name)
    ensures name == if 46 in name then Base(name) + [46] + Extension(name) else Base(name)
    ensures 46 !in name ==> Extension(name) == []
  {
    var n := DotFrom(name, 0);
    hide DotFrom;
    assert name[0..n] == name[..n];
    if n < |name| {
      assert name == name[..n] + [name[n]] + name[n + 1..];
    } else {
      assert name[..n] == name;
    }
  }

  /** The bytes of a directory entry's name: the base in eight, the extension in three, lower-case letters raised,
      and spaces where there is nothing. */
  lemma FatNameBytes(name: seq<byte>, i: nat)
    requires Representable(name) && i < 11
    ensures var part, at := if i < 8 then Base(name) else Extension(name), if i < 8 then i else i - 8;
            FatName(name)[i] ==
              if at >= |part| then 32 else if 97 <= part[at] <= 122 then part[at] - 32 else part[at]
  {
    hide Base, Extension;
  }

  /** "Echo.elf" is looked up as "ECHO    ELF". */
  lemma {:induction false} EchoName()
    ensures var name := [0x45, 0x63, 0x68, 0x6F, 0x2E, 0x65, 0x6C, 0x66];
            && Representable(name)
            && FatName(name) == [0x45, 0x43, 0x48, 0x4F, 0x20, 0x20, 0x20, 0x20, 0x45, 0x4C, 0x46]
  {
    var name: seq<byte> := [0x45, 0x63, 0x68, 0x6F, 0x2E, 0x65, 0x6C, 0x66];
    DotAtFour(name);
    hide DotFrom;
    assert Base(name) == [0x45, 0x63, 0x68, 0x6F] && Extension(name) == [0x65, 0x6C, 0x66];
  }

  lemma {:induction false} DotAtFour(name: seq<byte>)
    requires |name| > 4 && name[4] == 46 && name[0] != 46 && name[1] != 46 && name[2] != 46 && name[3] != 46
    ensures DotFrom(name, 0) == 4
  {
  }

  /** `to_fat_83`. */
  method ToFat83(name: seq<byte>) returns (r: Option<seq<byte>>)
    ensures r == if Representable(name) then Some(FatName(name)) else None
  {
    var base, ext := Base(name), Extension(name);
    if |base| == 0 || |base| > 8 || |ext| > 3 {
      return None;
    }
    assert Representable(name);
    hide Representable, Base, Extension, Uppercase;
    var fatName := new byte[11](_ => SPACE);
    var i := 0;
    while i < |base|
      invariant i <= |base|
      invariant forall j: nat :: j < 11 ==> fatName[j] == if j < i then Uppercase(base[j]) else SPACE
    {
      fatName[i] := Uppercase(base[i]);
      i := i + 1;
    }
    i := 0;
    while i < |ext|
      invariant i <= |ext|
      invariant forall j: nat :: j < 8 ==> fatName[j] == if j < |base| then Uppercase(base[j]) else SPACE
      invariant forall j: nat :: j < 3 ==> fatName[8 + j] == if j < i then Uppercase(ext[j]) else SPACE
    {
      fatName[8 + i] := Uppercase(ext[i]);
      i := i + 1;
    }
    assert fatName[..8] == Padded(base, 8);
    assert fatName[8..] == Padded(ext, 3);
    assert fatName[..] == fatName[..8] + fatName[8..];
    r := Some(fatName[..]);
  }

  /** Without trailing spaces. */
  function Trimmed(s: seq<byte>): (r: seq<byte>) {
    if s != [] && s[|s| - 1] == SPACE then Trimmed(s[..|s| - 1]) else s
  }

  function Upper(s: seq<byte>): (r: seq<byte>)
    ensures |r| == |s|
  {
    seq(|s|, i requires 0 <= i < |s| => Uppercase(s[i]))
  }

  lemma {:induction false} TrimmedPadded(s: seq<byte>, n: nat)
    requires |s| <= n
    ensures Trimmed(Padded(s, n)) == Trimmed(Upper(s))
  {
    if |s| < n {
      TrimmedPadded(s, n - 1);
      assert Padded(s, n)[..n - 1] == Padded(s, n - 1);
    } else {
      assert Padded(s, n) == Upper(s);
    }
  }

  /** Trimming a padded field loses nothing: the field is the trimmed text and then spaces. */
  lemma {:induction false} TrimmedThenSpaces(s: seq<byte>)
    ensures |Trimmed(s)| <= |s|
    ensures forall i: nat :: i < |s| ==> s[i] == if i < |Trimmed(s)| then Trimmed(s)[i] else SPACE
  {
    if s != [] && s[|s| - 1] == SPACE {
      TrimmedThenSpaces(s[..|s| - 1]);
    }
  }

  lemma FieldsEqual(a: seq<byte>, b: seq<byte>, n: nat)
    requires |a| <= n && |b| <= n
    ensures Padded(a, n) == Padded(b, n) <==> Trimmed(Upper(a)) == Trimmed(Upper(b))
  {
    TrimmedPadded(a, n);
    TrimmedPadded(b, n);
    TrimmedThenSpaces(Padded(a, n));
    TrimmedThenSpaces(Padded(b, n));
    hide Trimmed, Padded, Upper;
    if Trimmed(Upper(a)) == Trimmed(Upper(b)) {
      assert Padded(a, n) == Padded(b, n);
    }
  }

  /** Two names denote the same directory entry exactly when base and extension agree up to letter case
      and trailing spaces. */
  lemma SameFatName(a: seq<byte>, b: seq<byte>)
    requires Representable(a) && Representable(b)
    ensures FatName(a) == FatName(b) <==>
            && Trimmed(Upper(Base(a))) == Trimmed(Upper(Base(b)))
            && Trimmed(Upper(Extension(a))) == Trimmed(Upper(Extension(b)))
  {
    FieldsEqual(Base(a), Base(b), 8);
    FieldsEqual(Extension(a), Extension(b), 3);
    hide Trimmed, Padded, Upper, Base, Extension;
    assert FatName(a)[..8] == Padded(Base(a), 8) && FatName(a)[8..] == Padded(Extension(a), 3);
    assert FatName(b)[..8] == Padded(Base(b), 8) && FatName(b)[8..] == Padded(Extension(b), 3);
  }

  // ---------------------------------------------------------------- whole files

  /** `name` is the directory entry `n` of the volume described by `b`. */
  ghost predicate IsNamed(disk: Disk, b: Bpb, name: seq<byte>, n: nat) {
    Representable(name) && FirstMatch(disk, b, FatName(name), n)
  }

  /** `read_file`: nothing for a name or volume it does not know, else the contents of the first live match. */
  method ReadFile(disk: Disk, name: seq<byte>) returns (r: Option<Contents>)
    requires forall n :: Parse(disk(0)).Some? && IsNamed(disk, Parse(disk(0)).value, name, n) ==>
               var e := Decoded(EntryBytes(disk, Parse(disk(0)).value, n));
               Ends(disk, Parse(disk(0)).value, e.firstCluster, e.fileSize)
    ensures r.None? <==> Parse(disk(0)).None? || forall n :: !IsNamed(disk, Parse(disk(0)).value, name, n)
    ensures forall n :: Parse(disk(0)).Some? && IsNamed(disk, Parse(disk(0)).value, name, n) ==>
              && r.Some?
              && var e := Decoded(EntryBytes(disk, Parse(disk(0)).value, n));
                 ReadsAs(disk, Parse(disk(0)).value, e.firstCluster, e.fileSize, r.value)
  {
    var fatName := ToFat83(name);
    if fatName.None? {
      return None;
    }
    var boot := disk(0);
    var bpb := Parse(boot);
    if bpb.None? {
      return None;
    }
    hide FirstMatch, ReadsAs, FatName, Representable, Decoded, Ends;
    var entry := FindInRootDir(disk, bpb.value, fatName.value);
    if entry.None? {
      return None;
    }
    ghost var m :| FirstMatch(disk, bpb.value, fatName.value, m)
        && entry.value == Decoded(EntryBytes(disk, bpb.value, m));
    assert IsNamed(disk, bpb.value, name, m);
    var c := ReadChain(disk, bpb.value, entry.value.firstCluster, entry.value.fileSize);
    r := Some(c);
    forall n | IsNamed(disk, bpb.value, name, n)
      ensures entry.value == Decoded(EntryBytes(disk, bpb.value, n))
    {
      FirstMatchUnique(disk, bpb.value, fatName.value, n, m);
    }
  }
}
