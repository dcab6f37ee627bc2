/** On-disk layouts written out field by field, and the proof that the kernel's readers take each field from
    its place: ELF headers (gABI chapters 4 and 5), the FAT boot sector and FAT directory entries (Microsoft
    FAT32 File System Specification 1.03). */
module Format {
  import opened Basics
  import Bits
  import Elf
  import Fat16

  /** `n` in `width` bytes, least significant first. */
  function Uint(n: nat, width: nat): (r: seq<byte>)
    ensures |r| == width
  {
    if width == 0 then [] else [n % 256] + Uint(n / 256, width - 1)
  }

  lemma {:induction false} UintRead(n: nat, width: nat)
    requires n < Bits.Pow2(8 * width)
    ensures Elf.LittleEndian(Uint(n, width)) == n
  {
    if width > 0 {
      Bits.Pow2Add(8, 8 * (width - 1));
      Bits.Pow2Values();
      hide Bits.Pow2;
      assert 8 * width == 8 + 8 * (width - 1);
      UintRead(n / 256, width - 1);
      assert Uint(n, width)[1..] == Uint(n / 256, width - 1);
    }
  }

  /** Fields laid out one after the other. */
  function Concat(fields: seq<seq<byte>>): seq<byte> {
    if fields == [] then [] else fields[0] + Concat(fields[1..])
  }

  /** Where field `i` begins. */
  function Offset(fields: seq<seq<byte>>, i: nat): nat
    requires i <= |fields|
  {
    if i == 0 then 0 else |fields[0]| + Offset(fields[1..], i - 1)
  }

  lemma {:induction false} FieldAt(fields: seq<seq<byte>>, i: nat)
    requires i < |fields|
    ensures Offset(fields, i) + |fields[i]| <= |Concat(fields)|
    ensures Concat(fields)[Offset(fields, i)..Offset(fields, i) + |fields[i]|] == fields[i]
  {
    if i > 0 {
      FieldAt(fields[1..], i - 1);
      var o := Offset(fields[1..], i - 1);
      var rest := Concat(fields[1..]);
      assert Concat(fields)[|fields[0]| + o..|fields[0]| + o + |fields[i]|] == rest[o..o + |fields[i]|];
    }
  }

  lemma {:induction false} OffsetNext(fields: seq<seq<byte>>, i: nat)
    requires i < |fields|
    ensures Offset(fields, i + 1) == Offset(fields, i) + |fields[i]|
  {
    if i > 0 {
      OffsetNext(fields[1..], i - 1);
    }
  }

  lemma Widths()
    ensures Bits.Pow2(16) == 0x1_0000 && Bits.Pow2(32) == 0x1_0000_0000 && Bits.Pow2(64) == U64_LIMIT
  {
    Bits.Pow2Values();
    Bits.Pow2Add(8, 8);
    Bits.Pow2Add(16, 16);
  }

  /** `bytes` holds the fields from `base` on. */
  predicate Holds(bytes: seq<byte>, base: nat, fields: seq<seq<byte>>) {
    base + |Concat(fields)| <= |bytes| < U64_LIMIT && bytes[base..base + |Concat(fields)|] == Concat(fields)
  }

  lemma Slice(s: seq<byte>, base: nat, len: nat, o: nat, n: nat)
    requires base + len <= |s| && o + n <= len
    ensures s[base + o..base + o + n] == s[base..base + len][o..o + n]
  {
    var a, b := s[base + o..base + o + n], s[base..base + len][o..o + n];
    forall i | 0 <= i < n
      ensures a[i] == b[i]
    {
    }
  }

  /** A checked read at a field's offset gives the field. */
  lemma {:induction false} ReadField(bytes: seq<byte>, base: nat, fields: seq<seq<byte>>, i: nat, n: nat, value: nat)
    requires Holds(bytes, base, fields) && i < |fields| && fields[i] == Uint(value, n) && value < Bits.Pow2(8 * n)
    ensures Elf.ReadUint(bytes, base, Offset(fields, i), n) == Some(value)
  {
    hide Uint, Concat, Offset, Bits.Pow2, Elf.LittleEndian;
    FieldAt(fields, i);
    UintRead(value, n);
    var o := Offset(fields, i);
    Slice(bytes, base, |Concat(fields)|, o, n);
  }

  // ---------------------------------------------------------------- ELF

  /** A program header in file order. */
  datatype ProgramHeader = ProgramHeader(kind: nat, flags: nat, offset: nat, vaddr: nat, paddr: nat,
                                         fileSize: nat, memSize: nat, align: nat)

  predicate HeaderFits(h: ProgramHeader) {
    && h.kind < 0x1_0000_0000 && h.flags < 0x1_0000_0000
    && h.offset < U64_LIMIT && h.vaddr < U64_LIMIT && h.fileSize < U64_LIMIT && h.memSize < U64_LIMIT
  }

  function HeaderFields(h: ProgramHeader): (f: seq<seq<byte>>)
    ensures |f| == 8
  {
    [Uint(h.kind, 4), Uint(h.flags, 4), Uint(h.offset, 8), Uint(h.vaddr, 8), Uint(h.paddr, 8),
     Uint(h.fileSize, 8), Uint(h.memSize, 8), Uint(h.align, 8)]
  }

  lemma HeaderOffsets(h: ProgramHeader)
    ensures var f := HeaderFields(h);
            && Offset(f, 0) == 0 && Offset(f, 1) == 4 && Offset(f, 2) == 8 && Offset(f, 3) == 16
            && Offset(f, 5) == 32 && Offset(f, 6) == 40
  {
    var f := HeaderFields(h);
    assert Offset(f, 0) == 0;
    hide Offset, Uint;
    OffsetNext(f, 0);
    OffsetNext(f, 1);
    OffsetNext(f, 2);
    OffsetNext(f, 3);
    OffsetNext(f, 4);
    OffsetNext(f, 5);
  }

  /** The loader reads a program header's fields: a loadable segment is its file bytes, address, memory size
      and write permission, and the loader gives up if those bytes are not all in the file; any other header
      is skipped. */
  lemma ProgramHeaderRead(bytes: seq<byte>, phoff: nat, phentsize: nat, i: nat, h: ProgramHeader)
    requires HeaderFits(h) && Holds(bytes, phoff + i * phentsize, HeaderFields(h))
    ensures Elf.HeaderAt(bytes, phoff, phentsize, i) ==
              if h.kind != 1 then Some(Elf.Skip)
              else if h.offset + h.fileSize > |bytes| then None
              else Some(Elf.Load(bytes[h.offset..h.offset + h.fileSize], h.vaddr, h.memSize, h.flags / 2 % 2 == 1))
  {
    Widths();
    HeaderOffsets(h);
    hide Bits.Pow2, Offset, Concat, Uint, Elf.ReadUint;
    var ph, f := phoff + i * phentsize, HeaderFields(h);
    ReadField(bytes, ph, f, 0, 4, h.kind);
    ReadField(bytes, ph, f, 1, 4, h.flags);
    ReadField(bytes, ph, f, 2, 8, h.offset);
    ReadField(bytes, ph, f, 3, 8, h.vaddr);
    ReadField(bytes, ph, f, 5, 8, h.fileSize);
    ReadField(bytes, ph, f, 6, 8, h.memSize);
  }

  /** The loader gives up at a program header that does not lie in the file, and at a loadable one of which only
      the beginning does. */
  lemma ProgramHeaderMissing(bytes: seq<byte>, phoff: nat, phentsize: nat, i: nat)
    requires |bytes| < U64_LIMIT
    ensures phoff + i * phentsize + 4 > |bytes| ==> Elf.HeaderAt(bytes, phoff, phentsize, i) == None
    ensures Elf.ReadUint(bytes, phoff + i * phentsize, 0, 4) == Some(1) && phoff + i * phentsize + 48 > |bytes| ==>
              Elf.HeaderAt(bytes, phoff, phentsize, i) == None
  {
    hide Elf.LittleEndian;
  }

  /** The file header in file order. */
  datatype FileHeader = FileHeader(ident: seq<byte>, kind: nat, machine: nat, version: nat, entry: nat, phoff: nat,
                                   shoff: nat, flags: nat, ehsize: nat, phentsize: nat, phnum: nat, rest: seq<byte>)

  predicate FileFits(h: FileHeader) {
    && |h.ident| == 16 && |h.rest| == 6
    && h.kind < 0x1_0000 && h.machine < 0x1_0000 && h.entry < U64_LIMIT && h.phoff < U64_LIMIT
    && h.phentsize < 0x1_0000 && h.phnum < 0x1_0000
  }

  function FileFields(h: FileHeader): (f: seq<seq<byte>>)
    ensures |f| == 12
  {
    [h.ident, Uint(h.kind, 2), Uint(h.machine, 2), Uint(h.version, 4), Uint(h.entry, 8), Uint(h.phoff, 8),
     Uint(h.shoff, 8), Uint(h.flags, 4), Uint(h.ehsize, 2), Uint(h.phentsize, 2), Uint(h.phnum, 2), h.rest]
  }

  lemma FileParts(h: FileHeader)
    requires FileFits(h)
    ensures var f := FileFields(h);
            && f[0] == h.ident && f[1] == Uint(h.kind, 2) && f[2] == Uint(h.machine, 2) && |f[3]| == 4
            && f[4] == Uint(h.entry, 8) && f[5] == Uint(h.phoff, 8) && |f[6]| == 8 && |f[7]| == 4 && |f[8]| == 2
            && f[9] == Uint(h.phentsize, 2) && f[10] == Uint(h.phnum, 2) && |f[11]| == 6
  {
    hide Uint;
  }

  lemma {:induction false} FileOffsets(f: seq<seq<byte>>)
    requires |f| == 12 && |f[0]| == 16 && |f[1]| == 2 && |f[2]| == 2 && |f[3]| == 4 && |f[4]| == 8 && |f[5]| == 8
    requires |f[6]| == 8 && |f[7]| == 4 && |f[8]| == 2 && |f[9]| == 2 && |f[10]| == 2 && |f[11]| == 6
    ensures Offset(f, 1) == 16 && Offset(f, 2) == 18 && Offset(f, 4) == 24
    ensures Offset(f, 5) == 32 && Offset(f, 9) == 54 && Offset(f, 10) == 56 && Offset(f, 12) == 64
  {
    assert Offset(f, 0) == 0;
    hide Offset;
    OffsetNext(f, 0);
    OffsetNext(f, 1);
    OffsetNext(f, 2);
    OffsetNext(f, 3);
    OffsetNext(f, 4);
    OffsetNext(f, 5);
    OffsetNext(f, 6);
    OffsetNext(f, 7);
    OffsetNext(f, 8);
    OffsetNext(f, 9);
    OffsetNext(f, 10);
    OffsetNext(f, 11);
  }

  lemma {:induction false} ConcatLength(fields: seq<seq<byte>>)
    ensures |Concat(fields)| == Offset(fields, |fields|)
  {
    if fields != [] {
      ConcatLength(fields[1..]);
    }
  }

  lemma FileLength(h: FileHeader)
    requires FileFits(h)
    ensures |Concat(FileFields(h))| == 64
  {
    hide Offset, Concat, Uint, FileFields;
    FileParts(h);
    FileOffsets(FileFields(h));
    ConcatLength(FileFields(h));
  }

  lemma HeaderLength(h: ProgramHeader)
    ensures |Concat(HeaderFields(h))| == 56
  {
    var f := HeaderFields(h);
    ConcatLength(f);
    HeaderOffsets(h);
    hide Offset, Concat, Uint;
    OffsetNext(f, 6);
    OffsetNext(f, 7);
  }

  /** The loader accepts a file header exactly when it is a 64-bit little-endian x86-64 executable, and reads
      its entry point and program header table from their places. */
  lemma FileHeaderRead(bytes: seq<byte>, h: FileHeader)
    requires FileFits(h) && Holds(bytes, 0, FileFields(h))
    ensures Elf.HeaderOk(bytes) <==>
            h.ident[0..4] == [0x7f, 0x45, 0x4c, 0x46] && h.ident[4] == 2 && h.ident[5] == 1 && h.kind == 2
              && h.machine == 62
    ensures Elf.ReadUint(bytes, 0, 24, 8) == Some(h.entry) && Elf.ReadUint(bytes, 0, 32, 8) == Some(h.phoff)
    ensures Elf.ReadUint(bytes, 0, 54, 2) == Some(h.phentsize) && Elf.ReadUint(bytes, 0, 56, 2) == Some(h.phnum)
  {
    Widths();
    IdentRead(bytes, h);
    hide Bits.Pow2, Offset, Concat, Uint, Elf.ReadUint, Holds, FileFields;
    var f := FileFields(h);
    FileParts(h);
    FileOffsets(f);
    ReadField(bytes, 0, f, 1, 2, h.kind);
    ReadField(bytes, 0, f, 2, 2, h.machine);
    ReadField(bytes, 0, f, 4, 8, h.entry);
    ReadField(bytes, 0, f, 5, 8, h.phoff);
    ReadField(bytes, 0, f, 9, 2, h.phentsize);
    ReadField(bytes, 0, f, 10, 2, h.phnum);
  }

  lemma IdentRead(bytes: seq<byte>, h: FileHeader)
    requires FileFits(h) && Holds(bytes, 0, FileFields(h))
    ensures |bytes| >= 64 && bytes[0..4] == h.ident[0..4] && bytes[4] == h.ident[4] && bytes[5] == h.ident[5]
  {
    var f := FileFields(h);
    assert Offset(f, 0) == 0;
    hide Offset, Concat, Uint, FileFields;
    FileParts(h);
    FileOffsets(f);
    ConcatLength(f);
    FieldAt(f, 0);
    Slice(bytes, 0, |Concat(f)|, 0, 16);
    assert bytes[0..16] == h.ident;
    assert bytes[0..4] == bytes[0..16][0..4] && bytes[4] == bytes[0..16][4] && bytes[5] == bytes[0..16][5];
  }

  // ---------------------------------------------------------------- FAT

  /** A 16-bit field of a sector. */
  lemma {:induction false} Field16(bytes: seq<byte>, fields: seq<seq<byte>>, i: nat, value: nat)
    requires Holds(bytes, 0, fields) && i < |fields| && fields[i] == Uint(value, 2) && value < 0x1_0000
    ensures Offset(fields, i) + 2 <= |bytes| && Fat16.U16(bytes, Offset(fields, i)) == value
  {
    FieldAt(fields, i);
    var o := Offset(fields, i);
    hide Concat, Offset;
    Slice(bytes, 0, |Concat(fields)|, o, 2);
    assert bytes[o..o + 2] == Uint(value, 2);
    assert Uint(value, 2) == [value % 256] + Uint(value / 256, 1) && Uint(value / 256, 1) == [value / 256 % 256];
    assert bytes[o] == bytes[o..o + 2][0] && bytes[o + 1] == bytes[o..o + 2][1];
  }

  /** The boot sector in disk order: jump, OEM name, then the parameter block. */
  function BootFields(jump: seq<byte>, oem: seq<byte>, bytesPerSector: nat, b: Fat16.Bpb, total: nat, media: byte,
                      rest: seq<byte>): (f: seq<seq<byte>>)
    requires b.sectorsPerCluster < 256 && b.fats < 256
    ensures |f| == 11
  {
    [jump, oem, Uint(bytesPerSector, 2), [b.sectorsPerCluster], Uint(b.reserved, 2), [b.fats], Uint(b.rootEntries, 2),
     Uint(total, 2), [media], Uint(b.fatSize, 2), rest]
  }

  lemma {:induction false} BootOffsets(f: seq<seq<byte>>)
    requires |f| == 11 && |f[0]| == 3 && |f[1]| == 8 && |f[2]| == 2 && |f[3]| == 1 && |f[4]| == 2 && |f[5]| == 1
    requires |f[6]| == 2 && |f[7]| == 2 && |f[8]| == 1 && |f[9]| == 2
    ensures Offset(f, 2) == 0x0B && Offset(f, 3) == 0x0D && Offset(f, 4) == 0x0E && Offset(f, 5) == 0x10
    ensures Offset(f, 6) == 0x11 && Offset(f, 9) == 0x16
  {
    OffsetNext(f, 0);
    OffsetNext(f, 1);
    OffsetNext(f, 2);
    OffsetNext(f, 3);
    OffsetNext(f, 4);
    OffsetNext(f, 5);
    OffsetNext(f, 6);
    OffsetNext(f, 7);
    OffsetNext(f, 8);
  }

  lemma {:induction false} ByteField(bytes: seq<byte>, fields: seq<seq<byte>>, i: nat, value: byte)
    requires Holds(bytes, 0, fields) && i < |fields| && fields[i] == [value]
    ensures Offset(fields, i) < |bytes| && bytes[Offset(fields, i)] == value
  {
    FieldAt(fields, i);
    var o := Offset(fields, i);
    hide Concat, Offset;
    Slice(bytes, 0, |Concat(fields)|, o, 1);
    assert bytes[o] == bytes[o..o + 1][0];
  }

  /** Parsing a boot sector gives back the parameter block it was written with, for 512-byte sectors only. */
  lemma BootSectorRead(boot: Fat16.Sector, jump: seq<byte>, oem: seq<byte>, bytesPerSector: nat, b: Fat16.Bpb,
                       total: nat,
                       media: byte, rest: seq<byte>)
    requires Fat16.Sized(b) && bytesPerSector < 0x1_0000 && |jump| == 3 && |oem| == 8
    requires Holds(boot, 0, BootFields(jump, oem, bytesPerSector, b, total, media, rest))
    ensures Fat16.Parse(boot) == if bytesPerSector == 512 then Some(b) else None
  {
    var f := BootFields(jump, oem, bytesPerSector, b, total, media, rest);
    BootOffsets(f);
    hide Offset, Concat, Uint, Fat16.U16;
    Field16(boot, f, 2, bytesPerSector);
    ByteField(boot, f, 3, b.sectorsPerCluster);
    Field16(boot, f, 4, b.reserved);
    ByteField(boot, f, 5, b.fats);
    Field16(boot, f, 6, b.rootEntries);
    Field16(boot, f, 9, b.fatSize);
  }

  /** The volume's first FAT holds the entries, two bytes each. */
  ghost predicate HoldsFat(disk: Fat16.Disk, b: Fat16.Bpb, entries: seq<nat>) {
    && 2 * |entries| <= b.fatSize * 512
    && forall c: nat :: c < |entries| ==>
         && entries[c] < 0x1_0000
         && Fat16.SectorRun(disk, b.reserved, b.fatSize)[2 * c..2 * c + 2] == Uint(entries[c], 2)
  }

  /** Following a chain reads the entry of the cluster, wherever in the FAT's sectors it lies, and ends at the
      bad-cluster marker and the end-of-chain markers only. */
  lemma FatEntryRead(disk: Fat16.Disk, b: Fat16.Bpb, entries: seq<nat>, c: nat)
    requires HoldsFat(disk, b, entries) && c < |entries|
    ensures Fat16.NextCluster(disk, b, c) == if entries[c] >= 0xFFF7 then None else Some(entries[c])
  {
    var run := Fat16.SectorRun(disk, b.reserved, b.fatSize);
    var q, o := 2 * c / Fat16.SECTOR_SIZE, 2 * c % Fat16.SECTOR_SIZE;
    assert 2 * c == q * Fat16.SECTOR_SIZE + o;
    Fat16.RunByte(disk, b.reserved, b.fatSize, q, o);
    Fat16.RunByte(disk, b.reserved, b.fatSize, q, o + 1);
    var value := entries[c];
    assert Uint(value, 2) == [value % 256] + Uint(value / 256, 1) && Uint(value / 256, 1) == [value / 256 % 256];
    assert run[2 * c] == run[2 * c..2 * c + 2][0] && run[2 * c + 1] == run[2 * c..2 * c + 2][1];
  }

  /** A directory entry in disk order: name, attributes, fourteen bytes of times, dates and reserved fields,
      then the low cluster number and the size. */
  function EntryFields(name: seq<byte>, attributes: byte, between: seq<byte>, cluster: nat,
                       size: nat): (f: seq<seq<byte>>)
    ensures |f| == 6
  {
    [name, [attributes], between, Uint(cluster, 2), Uint(size % 0x1_0000, 2), Uint(size / 0x1_0000, 2)]
  }

  /** Decoding a directory entry gives back its first cluster and its size. */
  lemma DirectoryEntryRead(e: seq<byte>, name: seq<byte>, attributes: byte, between: seq<byte>, cluster: nat, size: nat)
    requires |e| == 32 && |name| == 11 && |between| == 14 && cluster < 0x1_0000
    requires size < 0x1_0000_0000
    requires Holds(e, 0, EntryFields(name, attributes, between, cluster, size))
    ensures Fat16.Decoded(e) == Fat16.DirEntry(cluster, size) && e[0x0B] == attributes && e[0..11] == name
  {
    var f := EntryFields(name, attributes, between, cluster, size);
    assert Offset(f, 0) == 0;
    FieldAt(f, 0);
    Slice(e, 0, |Concat(f)|, 0, 11);
    hide Offset, Concat, Uint, Fat16.U16;
    OffsetNext(f, 0);
    OffsetNext(f, 1);
    OffsetNext(f, 2);
    OffsetNext(f, 3);
    OffsetNext(f, 4);
    ByteField(e, f, 1, attributes);
    Field16(e, f, 3, cluster);
    Field16(e, f, 4, size % 0x1_0000);
    Field16(e, f, 5, size / 0x1_0000);
  }

  /** A written directory entry ends the directory exactly when its first byte is 0, and is a file of that name
      exactly when it is neither that nor deleted, and its attributes say neither volume label, directory
      nor part of a long name. */
  lemma DirectoryEntryIs(e: seq<byte>, name: seq<byte>, attributes: byte, between: seq<byte>, cluster: nat, size: nat)
    requires |e| == 32 && |name| == 11 && |between| == 14 && cluster < 0x1_0000
    requires size < 0x1_0000_0000 && Holds(e, 0, EntryFields(name, attributes, between, cluster, size))
    ensures Fat16.IsEnd(e) <==> name[0] == 0
    ensures forall wanted :: Fat16.IsFile(e, wanted) <==>
              && wanted == name && name[0] != 0 && name[0] != 0xE5
              && attributes != 0x0F && attributes / 8 % 2 == 0 && attributes / 16 % 2 == 0
  {
    DirectoryEntryRead(e, name, attributes, between, cluster, size);
    Bits.AndBit(attributes);
    hide Holds, EntryFields, Bits.And;
    assert e[0] == e[0..11][0];
  }
}
