/** The SYSTEM.CNF editor of a partition's APA header: byte ranges of the header area are read and
    written through whole sectors, and the attribute table at the start of the area is kept in step. */
module HddHeader {
  import opened Common
  import opened Options

  const SECTOR_SIZE := 512
  const HEADER_SECTORS := 4096
  const HEADER_SIZE := HEADER_SECTORS * SECTOR_SIZE
  const AREA_OFFSET := 0x1000
  const AREA_SIZE := HEADER_SIZE - AREA_OFFSET
  const CNF_MAX_SIZE := 0x200
  const TABLE_SIZE := 64
  const MAGIC: seq<int> := [0x50, 0x53, 0x32, 0x49, 0x43, 0x4F, 0x4E, 0x33, 0x44]  // "PS2ICON3D"

  const ENOENT := 2
  const EIO := 5
  const EINVAL := 22
  const EFBIG := 27

  type U32 = x: int | 0 <= x < 0x1_0000_0000

  // ----- the attribute table and its 64 stored bytes -----

  datatype AttributeFile = AttributeFile(offset: U32, size: U32)

  /** files[0] is SYSTEM.CNF, then icon, list icon, delete icon, ELF and IOPRP. */
  datatype RawTable = Table(magic: seq<Byte>, unused: seq<Byte>, version: U32, files: seq<AttributeFile>)

  predicate WellSized(t: RawTable) {
    |t.magic| == 9 && |t.unused| == 3 && |t.files| == 6
  }

  const EMPTY_FILE := AttributeFile(0, 0)

  type Table = t: RawTable | WellSized(t)
    witness Table([0, 0, 0, 0, 0, 0, 0, 0, 0], [0, 0, 0], 0, [EMPTY_FILE, EMPTY_FILE, EMPTY_FILE, EMPTY_FILE, EMPTY_FILE, EMPTY_FILE])

  /** A 32-bit word, least significant byte first. */
  function Word(x: U32): (b: seq<Byte>)
    ensures |b| == 4
  {
    var x1 := x / 0x100;
    var x2 := x1 / 0x100;
    [x % 0x100, x1 % 0x100, x2 % 0x100, x2 / 0x100]
  }

  function ReadWord(b: seq<Byte>): U32
    requires |b| == 4
  {
    var (b0: int, b1: int, b2: int, b3: int) := (b[0], b[1], b[2], b[3]);
    b0 + 0x100 * (b1 + 0x100 * (b2 + 0x100 * b3))
  }

  lemma WordRoundTrip(x: U32)
    ensures ReadWord(Word(x)) == x
  {
  }

  lemma LowByte(low: int, high: int)
    requires 0 <= low < 0x100
    ensures (low + 0x100 * high) % 0x100 == low && (low + 0x100 * high) / 0x100 == high
  {
  }

  lemma ReadWordRoundTrip(b: seq<Byte>)
    requires |b| == 4
    ensures Word(ReadWord(b)) == b
  {
    var (b0: int, b1: int, b2: int, b3: int) := (b[0], b[1], b[2], b[3]);
    LowByte(b0, b1 + 0x100 * (b2 + 0x100 * b3));
    LowByte(b1, b2 + 0x100 * b3);
    LowByte(b2, b3);
  }

  function EncodeFile(f: AttributeFile): (b: seq<Byte>)
    ensures |b| == 8
  {
    Word(f.offset) + Word(f.size)
  }

  function DecodeFile(b: seq<Byte>): AttributeFile
    requires |b| == 8
  {
    AttributeFile(ReadWord(b[..4]), ReadWord(b[4..]))
  }

  lemma FileRoundTrip(f: AttributeFile)
    ensures DecodeFile(EncodeFile(f)) == f
  {
    WordRoundTrip(f.offset);
    WordRoundTrip(f.size);
    assert EncodeFile(f)[..4] == Word(f.offset) && EncodeFile(f)[4..] == Word(f.size);
  }

  lemma DecodeFileRoundTrip(b: seq<Byte>)
    requires |b| == 8
    ensures EncodeFile(DecodeFile(b)) == b
  {
    ReadWordRoundTrip(b[..4]);
    ReadWordRoundTrip(b[4..]);
  }

  function EncodeFiles(fs: seq<AttributeFile>): (b: seq<Byte>)
    ensures |b| == 8 * |fs|
  {
    if fs == [] then [] else EncodeFile(fs[0]) + EncodeFiles(fs[1..])
  }

  function DecodeFiles(b: seq<Byte>): (fs: seq<AttributeFile>)
    requires |b| % 8 == 0
    ensures |fs| == |b| / 8
  {
    if b == [] then [] else [DecodeFile(b[..8])] + DecodeFiles(b[8..])
  }

  lemma {:induction false} FilesRoundTrip(fs: seq<AttributeFile>)
    ensures DecodeFiles(EncodeFiles(fs)) == fs
  {
    if fs != [] {
      var b := EncodeFiles(fs);
      assert b[..8] == EncodeFile(fs[0]) && b[8..] == EncodeFiles(fs[1..]);
      FileRoundTrip(fs[0]);
      FilesRoundTrip(fs[1..]);
    }
  }

  lemma {:induction false} DecodeFilesRoundTrip(b: seq<Byte>)
    requires |b| % 8 == 0
    ensures EncodeFiles(DecodeFiles(b)) == b
  {
    if b != [] {
      DecodeFileRoundTrip(b[..8]);
      DecodeFilesRoundTrip(b[8..]);
    }
  }

  function Encode(t: Table): (b: seq<Byte>)
    ensures |b| == TABLE_SIZE
  {
    t.magic + t.unused + Word(t.version) + EncodeFiles(t.files)
  }

  function Decode(b: seq<Byte>): Table
    requires |b| == TABLE_SIZE
  {
    Table(b[..9], b[9..12], ReadWord(b[12..16]), DecodeFiles(b[16..]))
  }

  lemma TableRoundTrip(t: Table)
    ensures Decode(Encode(t)) == t
  {
    var b := Encode(t);
    assert b[..9] == t.magic && b[9..12] == t.unused && b[12..16] == Word(t.version) && b[16..] == EncodeFiles(t.files);
    WordRoundTrip(t.version);
    FilesRoundTrip(t.files);
  }

  lemma DecodeRoundTrip(b: seq<Byte>)
    requires |b| == TABLE_SIZE
    ensures Encode(Decode(b)) == b
  {
    ReadWordRoundTrip(b[12..16]);
    DecodeFilesRoundTrip(b[16..]);
    assert b == b[..9] + b[9..12] + b[12..16] + b[16..];
  }

  function WithCnfSize(t: Table, size: U32): Table {
    t.(files := t.files[0 := t.files[0].(size := size)])
  }

  /** Changing the size of SYSTEM.CNF changes the four bytes at 0x14 of the stored table and no others. */
  lemma SizeFieldOnly(t: Table, size: U32)
    ensures Encode(WithCnfSize(t, size)) == Encode(t)[..20] + Word(size) + Encode(t)[24..]
  {
    var f, g := t.files, WithCnfSize(t, size).files;
    assert EncodeFiles(f) == EncodeFile(f[0]) + EncodeFiles(f[1..]);
    assert EncodeFiles(g) == EncodeFile(g[0]) + EncodeFiles(f[1..]);
    assert Encode(t) == (t.magic + t.unused + Word(t.version) + Word(f[0].offset)) + Word(f[0].size) + EncodeFiles(f[1..]);
  }

  lemma OtherFieldBytes(t: Table, size: U32, j: nat)
    requires j < TABLE_SIZE && !(20 <= j < 24)
    ensures Encode(WithCnfSize(t, size))[j] == Encode(t)[j]
  {
    SizeFieldOnly(t, size);
  }

  // ----- how much room SYSTEM.CNF has -----

  predicate Blocks(t: Table, i: int)
    requires 0 <= i < 6
  {
    i != 0 && t.files[i].offset != 0 && t.files[i].size != 0 && t.files[i].offset > t.files[0].offset
  }

  /** A byte count fits when it ends inside the area, inside the largest allowed file,
      and before the start of every later non-empty file. */
  ghost predicate Fits(t: Table, count: int) {
    && count <= AREA_SIZE - t.files[0].offset
    && count <= CNF_MAX_SIZE
    && forall i :: 0 <= i < 6 && Blocks(t, i) ==> count <= t.files[i].offset - t.files[0].offset
  }

  /** The capacity is the largest count that fits. */
  ghost predicate IsCapacity(t: Table, capacity: int) {
    Fits(t, capacity) && !Fits(t, capacity + 1)
  }

  /** The area ends 0x1FF000 bytes behind its start, SYSTEM.CNF has 512 bytes at most, and it ends before every
      later file that is not empty. */
  ghost predicate RoomFor(t: Table, count: int) {
    && count <= 0x200 && t.files[0].offset + count <= 0x1F_F000
    && forall i :: 1 <= i < 6 && t.files[i].size > 0 && t.files[i].offset > t.files[0].offset ==>
         t.files[0].offset + count <= t.files[i].offset
  }

  lemma FitsMeans(t: Table, count: int)
    ensures Fits(t, count) <==> RoomFor(t, count)
  {
    forall i | 1 <= i < 6 && t.files[i].size > 0 && t.files[i].offset > t.files[0].offset ensures Blocks(t, i) {
    }
  }

  lemma CapacityUnique(t: Table, a: int, b: int)
    requires IsCapacity(t, a) && IsCapacity(t, b)
    ensures a == b
  {
  }

  method CnfCapacity(t: Table) returns (capacity: U32)
    ensures t.files[0].offset >= AREA_SIZE ==> capacity == 0
    ensures t.files[0].offset < AREA_SIZE ==> capacity > 0 && IsCapacity(t, capacity)
    ensures t.files[0].offset < 0x1F_F000 ==> RoomFor(t, capacity) && !RoomFor(t, capacity + 1)
  {
    if t.files[0].offset >= AREA_SIZE {
      return 0;
    }
    var left: int := AREA_SIZE - t.files[0].offset;
    for i := 0 to 6
      invariant 0 < left <= AREA_SIZE - t.files[0].offset
      invariant forall k :: 0 <= k < i && Blocks(t, k) ==> left <= t.files[k].offset - t.files[0].offset
      invariant left == AREA_SIZE - t.files[0].offset
        || exists k :: 0 <= k < i && Blocks(t, k) && left == t.files[k].offset - t.files[0].offset
    {
      if i == 0 || t.files[i].offset == 0 || t.files[i].size == 0 {
        continue;
      }
      if t.files[i].offset > t.files[0].offset && t.files[i].offset - t.files[0].offset < left {
        assert Blocks(t, i);
        left := t.files[i].offset - t.files[0].offset;
      }
    }
    if left > CNF_MAX_SIZE {
      left := CNF_MAX_SIZE;
    }
    capacity := left;
    FitsMeans(t, capacity);
    FitsMeans(t, capacity + 1);
  }

  /** The stored table describes a SYSTEM.CNF that can be edited. */
  ghost predicate Editable(t: Table) {
    && t.magic == MAGIC
    && SECTOR_SIZE <= t.files[0].offset < AREA_SIZE
    && 0 < t.files[0].size
    && Fits(t, t.files[0].size)
  }

  /** Resizing within the capacity keeps the entry editable: the capacity ignores SYSTEM.CNF's own size. */
  lemma ResizedStaysEditable(t: Table, capacity: int, size: U32)
    requires Editable(t) && IsCapacity(t, capacity) && 0 < size <= capacity
    ensures Editable(WithCnfSize(t, size)) && IsCapacity(WithCnfSize(t, size), capacity)
  {
    var u := WithCnfSize(t, size);
    assert forall i :: 0 <= i < 6 ==> Blocks(u, i) == Blocks(t, i) && u.files[i].offset == t.files[i].offset;
    assert forall c :: Fits(u, c) <==> Fits(t, c);
  }

  /** There is no SYSTEM.CNF, or it would lie in the header sector. */
  predicate NoEntry(t: Table) {
    t.magic != MAGIC || t.files[0].offset < SECTOR_SIZE || t.files[0].size == 0
  }

  /** "PS2ICON3D", a start behind the first 512 bytes and inside the area, and a size that there is room for. */
  lemma EditableMeans(t: Table)
    ensures Editable(t) <==>
              && t.magic == [0x50, 0x53, 0x32, 0x49, 0x43, 0x4F, 0x4E, 0x33, 0x44]
              && 0x200 <= t.files[0].offset < 0x1F_F000 && t.files[0].size > 0 && RoomFor(t, t.files[0].size)
    ensures NoEntry(t) <==>
              || t.magic != [0x50, 0x53, 0x32, 0x49, 0x43, 0x4F, 0x4E, 0x33, 0x44]
              || t.files[0].offset < 0x200 || t.files[0].size == 0
  {
    FitsMeans(t, t.files[0].size);
  }

  method ValidateSystemCnfEntry(t: Table) returns (ret: int)
    ensures ret == 0 <==> Editable(t)
    ensures ret == -ENOENT <==> NoEntry(t)
    ensures ret == -EINVAL <==> !NoEntry(t) && t.files[0].offset >= AREA_SIZE
    ensures ret == -EFBIG <==> !NoEntry(t) && t.files[0].offset < AREA_SIZE && !Fits(t, t.files[0].size)
    ensures ret in {0, -ENOENT, -EINVAL, -EFBIG}
  {
    if t.magic != MAGIC {
      return -ENOENT;
    }
    if t.files[0].offset < SECTOR_SIZE || t.files[0].size == 0 {
      return -ENOENT;
    }
    var capacity := CnfCapacity(t);
    if capacity == 0 {
      return -EINVAL;
    }
    if t.files[0].size > capacity {
      assert !Fits(t, t.files[0].size);
      return -EFBIG;
    }
    return 0;
  }

  // ----- bytes on the disk -----

  ghost function Splice(s: seq<Byte>, at: nat, d: seq<Byte>): (r: seq<Byte>)
    requires at + |d| <= |s|
    ensures |r| == |s|
  {
    s[..at] + d + s[at + |d|..]
  }

  /** The disk holds these bytes from this address on. */
  ghost predicate HoldsAt(bytes: seq<Byte>, at: nat, d: seq<Byte>) {
    d == [] || (at + |d| <= |bytes| && bytes[at..at + |d|] == d)
  }

  ghost predicate SameOutside(a: seq<Byte>, b: seq<Byte>, lo: int, hi: int) {
    |a| == |b| && forall k :: 0 <= k < |a| && !(lo <= k < hi) ==> a[k] == b[k]
  }

  /** The hard disk behind the sector commands; any command may fail. */
  class Disk {
    var bytes: seq<Byte>
    /** A disk that carries out every command it can. */
    const reliable: bool

    constructor (bytes: seq<Byte>, reliable: bool)
      ensures this.bytes == bytes && this.reliable == reliable
    {
      this.bytes, this.reliable := bytes, reliable;
    }

    method ReadSector(lba: nat) returns (ret: int, sector: seq<Byte>)
      ensures |sector| == SECTOR_SIZE
      ensures reliable && (lba + 1) * SECTOR_SIZE <= |bytes| ==> ret >= 0
      ensures ret >= 0 ==> (lba + 1) * SECTOR_SIZE <= |bytes| && sector == bytes[lba * SECTOR_SIZE..(lba + 1) * SECTOR_SIZE]
    {
      ret, sector := -EIO, seq(SECTOR_SIZE, _ => 0);
      var answered: bool := *;
      if (answered || reliable) && (lba + 1) * SECTOR_SIZE <= |bytes| {
        ret, sector := 0, bytes[lba * SECTOR_SIZE..(lba + 1) * SECTOR_SIZE];
      }
    }

    /** A failed write may leave anything in the sector it was aimed at. */
    method WriteSector(lba: nat, sector: seq<Byte>) returns (ret: int)
      requires |sector| == SECTOR_SIZE
      modifies this
      ensures reliable && (lba + 1) * SECTOR_SIZE <= |old(bytes)| ==> ret >= 0
      ensures ret >= 0 ==> (lba + 1) * SECTOR_SIZE <= |old(bytes)| && bytes == Splice(old(bytes), lba * SECTOR_SIZE, sector)
      ensures SameOutside(old(bytes), bytes, lba * SECTOR_SIZE, (lba + 1) * SECTOR_SIZE)
    {
      ret := -EIO;
      if (lba + 1) * SECTOR_SIZE <= |bytes| {
        var at := lba * SECTOR_SIZE;
        var answered: bool := *;
        if answered || reliable {
          bytes := bytes[..at] + sector + bytes[at + SECTOR_SIZE..];
          ret := 0;
        } else {
          var left: seq<Byte> :| |left| == SECTOR_SIZE;
          bytes := bytes[..at] + left + bytes[at + SECTOR_SIZE..];
        }
      }
    }
  }

  // ----- byte ranges through whole sectors -----

  /** The part of a byte range that the sector holding its next byte can take. */
  function Chunk(pos: nat, left: nat): (n: nat)
    ensures n <= left && pos % SECTOR_SIZE + n <= SECTOR_SIZE
    ensures left > 0 ==> n > 0
  {
    if SECTOR_SIZE - pos % SECTOR_SIZE > left then left else SECTOR_SIZE - pos % SECTOR_SIZE
  }

  predicate RangeRefused(rawOffset: U32, size: U32) {
    rawOffset >= HEADER_SIZE || size > HEADER_SIZE - rawOffset
  }

  /** Refused are the ranges that do not lie in the 2 MB of a header. */
  lemma RangeMeans(rawOffset: U32, size: U32)
    ensures !RangeRefused(rawOffset, size) <==> rawOffset < 0x20_0000 && rawOffset + size <= 0x20_0000
  {
  }

  /** Where a raw offset of a partition lies on the disk. */
  function Address(partition: nat, raw: nat): nat {
    partition * SECTOR_SIZE + raw
  }

  /** The disk reaches to the end of the partition's header. */
  predicate Present(bytes: seq<Byte>, partition: nat) {
    Address(partition, HEADER_SIZE) <= |bytes|
  }

  lemma SectorPresent(bytes: seq<Byte>, partition: nat, pos: nat)
    requires Present(bytes, partition) && pos < HEADER_SIZE
    ensures (partition + pos / SECTOR_SIZE + 1) * SECTOR_SIZE <= |bytes|
  {
  }

  function SectorFloor(x: nat): nat { x / SECTOR_SIZE * SECTOR_SIZE }

  function SectorCeiling(x: nat): nat { (x + SECTOR_SIZE - 1) / SECTOR_SIZE * SECTOR_SIZE }

  /** Sector number and offset in the sector address the same byte. */
  lemma SectorAddress(partition: nat, pos: nat)
    ensures (partition + pos / SECTOR_SIZE) * SECTOR_SIZE + pos % SECTOR_SIZE == Address(partition, pos)
  {
  }

  lemma SliceOfSector(bytes: seq<Byte>, base: nat, off: nat, n: nat)
    requires base + SECTOR_SIZE <= |bytes| && off + n <= SECTOR_SIZE
    ensures bytes[base..base + SECTOR_SIZE][off..off + n] == bytes[base + off..base + off + n]
  {
    var s := bytes[base..base + SECTOR_SIZE];
    var a, b := s[off..off + n], bytes[base + off..base + off + n];
    forall i | 0 <= i < n ensures a[i] == b[i] {
      assert a[i] == s[off + i] == bytes[base + (off + i)] == b[i];
    }
  }

  lemma HoldsAppend(bytes: seq<Byte>, at: nat, d: seq<Byte>, e: seq<Byte>)
    requires HoldsAt(bytes, at, d) && HoldsAt(bytes, at + |d|, e)
    ensures HoldsAt(bytes, at, d + e)
  {
    if d != [] && e != [] {
      assert bytes[at..at + |d + e|] == bytes[at..at + |d|] + bytes[at + |d|..at + |d| + |e|];
    } else {
      assert d + e == if d == [] then e else d;
    }
  }

  /** What has been read grows by the next part of a sector. */
  lemma HoldsMore(bytes: seq<Byte>, partition: nat, rawOffset: nat, data: seq<Byte>, sector: seq<Byte>, chunk: nat)
    requires HoldsAt(bytes, Address(partition, rawOffset), data)
    requires var pos := rawOffset + |data|;
      && pos % SECTOR_SIZE + chunk <= SECTOR_SIZE == |sector| && (partition + pos / SECTOR_SIZE + 1) * SECTOR_SIZE <= |bytes|
      && sector == bytes[(partition + pos / SECTOR_SIZE) * SECTOR_SIZE..(partition + pos / SECTOR_SIZE + 1) * SECTOR_SIZE]
    ensures var off := (rawOffset + |data|) % SECTOR_SIZE;
      HoldsAt(bytes, Address(partition, rawOffset), data + sector[off..off + chunk])
  {
    var pos := rawOffset + |data|;
    SectorAddress(partition, pos);
    SliceOfSector(bytes, (partition + pos / SECTOR_SIZE) * SECTOR_SIZE, pos % SECTOR_SIZE, chunk);
    HoldsAppend(bytes, Address(partition, rawOffset), data, sector[pos % SECTOR_SIZE..pos % SECTOR_SIZE + chunk]);
  }

  /** d has been written over the first |d| bytes of the range; the sectors after it are as before. */
  lemma SpliceAppend(s: seq<Byte>, at: nat, d: seq<Byte>, e: seq<Byte>)
    requires at + |d| + |e| <= |s|
    ensures Splice(Splice(s, at, d), at + |d|, e) == Splice(s, at, d + e)
  {
  }

  /** Writing a sector back with part of it replaced replaces just that part. */
  lemma SpliceInSector(s: seq<Byte>, base: nat, off: nat, d: seq<Byte>)
    requires base + SECTOR_SIZE <= |s| && off + |d| <= SECTOR_SIZE
    ensures Splice(s, base, Splice(s[base..base + SECTOR_SIZE], off, d)) == Splice(s, base + off, d)
  {
  }

  /** Writing a sector back with a new head replaces just the head. */
  lemma HeadOfSector(s: seq<Byte>, base: nat, d: seq<Byte>)
    requires base + SECTOR_SIZE <= |s| && |d| <= SECTOR_SIZE
    ensures Splice(s, base, d + s[base..base + SECTOR_SIZE][|d|..]) == Splice(s, base, d)
  {
    SpliceInSector(s, base, 0, d);
    var sector := s[base..base + SECTOR_SIZE];
    assert d + sector[|d|..] == Splice(sector, 0, d);
  }

  // ----- what the disk says about SYSTEM.CNF -----

  function TableAddress(partition: nat): nat { Address(partition, AREA_OFFSET) }

  function CnfAddress(partition: nat, t: Table): nat { Address(partition, AREA_OFFSET + t.files[0].offset) }

  predicate HasTable(bytes: seq<Byte>, partition: nat) {
    TableAddress(partition) + SECTOR_SIZE <= |bytes|
  }

  function TableAt(bytes: seq<Byte>, partition: nat): Table
    requires HasTable(bytes, partition)
  {
    Decode(bytes[TableAddress(partition)..TableAddress(partition) + TABLE_SIZE])
  }

  /** The text of SYSTEM.CNF as stored, if the partition has an editable one. */
  ghost function CnfOf(bytes: seq<Byte>, partition: nat): Option<seq<Byte>> {
    if !HasTable(bytes, partition) then None
    else
      var t := TableAt(bytes, partition);
      var at := CnfAddress(partition, t);
      if Editable(t) && at + t.files[0].size <= |bytes| then Some(bytes[at..at + t.files[0].size]) else None
  }

  ghost function Padded(data: seq<Byte>, capacity: int): seq<Byte>
    requires |data| <= capacity
  {
    data + seq(capacity - |data|, _ => 0)
  }

  /** The bytes d have replaced the ones at this address, and nothing else has changed. */
  ghost predicate Written(was: seq<Byte>, now: seq<Byte>, at: nat, d: seq<Byte>) {
    if d == [] then now == was else at + |d| <= |was| && now == Splice(was, at, d)
  }

  /** A completed write: the padded text at SYSTEM.CNF's place, then the resized table at the start of the area. */
  ghost predicate CnfWrittenAs(before: seq<Byte>, after: seq<Byte>, partition: nat, t: Table, data: seq<Byte>, capacity: int) {
    && Editable(t) && IsCapacity(t, capacity) && 0 < |data| <= capacity
    && CnfAddress(partition, t) + capacity <= |before|
    && after == Splice(Splice(before, CnfAddress(partition, t), Padded(data, capacity)),
                       TableAddress(partition), Encode(WithCnfSize(t, |data|)))
  }

  ghost predicate CnfWritten(before: seq<Byte>, after: seq<Byte>, partition: nat, t: Table, data: seq<Byte>) {
    exists capacity :: CnfWrittenAs(before, after, partition, t, data, capacity)
  }

  /** Whatever a write comes to, it stays within the sectors of SYSTEM.CNF's capacity and the table's sector. */
  ghost predicate TouchedAtMost(before: seq<Byte>, after: seq<Byte>, partition: nat, t: Table, capacity: nat) {
    |after| == |before| && forall k :: 0 <= k < |before| && !InTouched(partition, t, capacity, k) ==> after[k] == before[k]
  }

  predicate InTouched(partition: nat, t: Table, capacity: nat, k: nat) {
    || TableAddress(partition) <= k < TableAddress(partition) + SECTOR_SIZE
    || SectorFloor(CnfAddress(partition, t)) <= k < SectorCeiling(CnfAddress(partition, t) + capacity)
  }

  lemma TableSector(partition: nat)
    ensures (partition + AREA_OFFSET / SECTOR_SIZE) * SECTOR_SIZE == TableAddress(partition)
    ensures (partition + AREA_OFFSET / SECTOR_SIZE + 1) * SECTOR_SIZE == TableAddress(partition) + SECTOR_SIZE
  {
  }

  lemma BothWritten(before: seq<Byte>, now: seq<Byte>, after: seq<Byte>, partition: nat, t: Table, data: seq<Byte>, capacity: nat)
    requires Editable(t) && IsCapacity(t, capacity) && 0 < |data| <= capacity
    requires Written(before, now, CnfAddress(partition, t), Padded(data, capacity))
    requires Written(now, after, TableAddress(partition), Encode(WithCnfSize(t, |data|)))
    ensures CnfWrittenAs(before, after, partition, t, data, capacity)
  {
    assert Encode(WithCnfSize(t, |data|)) != [] && Padded(data, capacity) != [];
  }

  lemma TouchedByBoth(before: seq<Byte>, now: seq<Byte>, after: seq<Byte>, partition: nat, t: Table, capacity: nat)
    requires SameOutside(before, now, SectorFloor(CnfAddress(partition, t)), SectorCeiling(CnfAddress(partition, t) + capacity))
    requires SameOutside(now, after, TableAddress(partition), TableAddress(partition) + SECTOR_SIZE)
    ensures TouchedAtMost(before, after, partition, t, capacity)
  {
  }

  lemma FitsDownward(t: Table, capacity: int, count: int)
    requires IsCapacity(t, capacity)
    ensures Fits(t, count) <==> count <= capacity
  {
  }

  ghost predicate SectorInside(partition: nat, pos: nat, lo: int, hi: int) {
    lo <= (partition + pos / SECTOR_SIZE) * SECTOR_SIZE && (partition + pos / SECTOR_SIZE + 1) * SECTOR_SIZE <= hi
  }

  /** How far a write of data at this address has got. */
  ghost predicate Progress(was: seq<Byte>, now: seq<Byte>, at: nat, data: seq<Byte>, copied: nat, lo: int, hi: int) {
    copied <= |data| && Written(was, now, at, data[..copied]) && SameOutside(was, now, lo, hi)
  }

  lemma SameOutsideWider(was: seq<Byte>, now: seq<Byte>, next: seq<Byte>, pos: nat, partition: nat, lo: int, hi: int)
    requires SameOutside(was, now, lo, hi)
    requires SameOutside(now, next, (partition + pos / SECTOR_SIZE) * SECTOR_SIZE, (partition + pos / SECTOR_SIZE + 1) * SECTOR_SIZE)
    requires SectorInside(partition, pos, lo, hi)
    ensures SameOutside(was, next, lo, hi)
  {
  }

  lemma WithinRange(partition: nat, rawOffset: nat, size: nat, pos: nat)
    requires rawOffset <= pos < rawOffset + size
    ensures SectorInside(partition, pos, SectorFloor(Address(partition, rawOffset)),
                         SectorCeiling(Address(partition, rawOffset + size)))
  {
  }

  lemma WrittenMore(was: seq<Byte>, now: seq<Byte>, next: seq<Byte>, at: nat, data: seq<Byte>, copied: nat, chunk: nat)
    requires copied + chunk <= |data|
    requires Written(was, now, at, data[..copied]) && Written(now, next, at + copied, data[copied..copied + chunk])
    ensures Written(was, next, at, data[..copied + chunk])
  {
    assert data[..copied + chunk] == data[..copied] + data[copied..copied + chunk];
    if copied > 0 && chunk > 0 {
      SpliceAppend(was, at, data[..copied], data[copied..copied + chunk]);
    }
  }

  class Injector {
    const disk: Disk
    /** The shared sector buffer. */
    var buffer: seq<Byte>

    constructor (d: Disk)
      ensures disk == d
    {
      disk := d;
      buffer := seq(SECTOR_SIZE, _ => 0);
    }

    method ReadIntoBuffer(lba: nat) returns (ret: int)
      modifies this
      ensures |buffer| == SECTOR_SIZE
      ensures disk.reliable && (lba + 1) * SECTOR_SIZE <= |disk.bytes| ==> ret >= 0
      ensures ret >= 0 ==> (lba + 1) * SECTOR_SIZE <= |disk.bytes|
      ensures ret >= 0 ==> buffer == disk.bytes[lba * SECTOR_SIZE..(lba + 1) * SECTOR_SIZE]
    {
      ret, buffer := disk.ReadSector(lba);
    }

    method ReadRawRange(partition: nat, rawOffset: U32, size: U32) returns (ret: int, data: seq<Byte>)
      modifies this
      ensures ret in {0, -EINVAL, -EIO} && (ret == -EINVAL <==> RangeRefused(rawOffset, size))
      ensures ret == 0 ==> |data| == size && HoldsAt(disk.bytes, Address(partition, rawOffset), data)
      ensures disk.reliable && Present(disk.bytes, partition) && !RangeRefused(rawOffset, size) ==> ret == 0
    {
      data := [];
      if RangeRefused(rawOffset, size) {
        return -EINVAL, data;
      }
      var copied: nat := 0;
      while copied < size
        invariant copied <= size && |data| == copied
        invariant HoldsAt(disk.bytes, Address(partition, rawOffset), data)
      {
        var pos := rawOffset + copied;
        var sectorOffset := pos % SECTOR_SIZE;
        var chunk := Chunk(pos, size - copied);
        if Present(disk.bytes, partition) {
          SectorPresent(disk.bytes, partition, pos);
        }
        ret := ReadIntoBuffer(partition + pos / SECTOR_SIZE);
        if ret < 0 {
          return -EIO, data;
        }
        HoldsMore(disk.bytes, partition, rawOffset, data, buffer, chunk);
        data := data + buffer[sectorOffset..sectorOffset + chunk];
        copied := copied + chunk;
      }
      ret := 0;
    }

    method WriteRawRange(partition: nat, rawOffset: U32, data: seq<Byte>) returns (ret: int)
      requires |data| < 0x1_0000_0000
      modifies this, disk
      ensures ret in {0, -EINVAL, -EIO} && (ret == -EINVAL <==> RangeRefused(rawOffset, |data|))
      ensures ret == -EINVAL ==> disk.bytes == old(disk.bytes)
      ensures ret == 0 ==> Written(old(disk.bytes), disk.bytes, Address(partition, rawOffset), data)
      ensures disk.reliable && Present(old(disk.bytes), partition) && !RangeRefused(rawOffset, |data|) ==> ret == 0
      ensures SameOutside(old(disk.bytes), disk.bytes,
                SectorFloor(Address(partition, rawOffset)), SectorCeiling(Address(partition, rawOffset + |data|)))
    {
      if RangeRefused(rawOffset, |data|) {
        return -EINVAL;
      }
      ghost var lo := SectorFloor(Address(partition, rawOffset));
      ghost var hi := SectorCeiling(Address(partition, rawOffset + |data|));
      forall pos: nat | rawOffset <= pos < rawOffset + |data| ensures SectorInside(partition, pos, lo, hi) {
        WithinRange(partition, rawOffset, |data|, pos);
      }
      ret := WriteChunks(partition, rawOffset, data, lo, hi);
    }

    method WriteChunks(partition: nat, rawOffset: nat, data: seq<Byte>, ghost lo: int, ghost hi: int) returns (ret: int)
      requires forall pos: nat :: rawOffset <= pos < rawOffset + |data| ==> SectorInside(partition, pos, lo, hi)
      modifies this, disk
      ensures ret in {0, -EIO}
      ensures ret == 0 ==> Written(old(disk.bytes), disk.bytes, Address(partition, rawOffset), data)
      ensures disk.reliable && Present(old(disk.bytes), partition) && rawOffset + |data| <= HEADER_SIZE ==> ret == 0
      ensures SameOutside(old(disk.bytes), disk.bytes, lo, hi)
    {
      ghost var was, at := disk.bytes, Address(partition, rawOffset);
      var copied: nat := 0;
      while copied < |data|
        invariant Progress(was, disk.bytes, at, data, copied, lo, hi)
      {
        var chunk;
        ret, chunk := WriteNextChunk(partition, rawOffset, data, copied, was, lo, hi);
        if ret < 0 {
          return;
        }
        copied := copied + chunk;
      }
      assert data[..|data|] == data;
      ret := 0;
    }

    method WriteNextChunk(partition: nat, rawOffset: nat, data: seq<Byte>, copied: nat,
                          ghost was: seq<Byte>, ghost lo: int, ghost hi: int)
      returns (ret: int, chunk: nat)
      requires copied < |data| && SectorInside(partition, rawOffset + copied, lo, hi)
      requires Progress(was, disk.bytes, Address(partition, rawOffset), data, copied, lo, hi)
      modifies this, disk
      ensures ret in {0, -EIO} && 0 < chunk
      ensures SameOutside(was, disk.bytes, lo, hi)
      ensures ret == 0 ==> Progress(was, disk.bytes, Address(partition, rawOffset), data, copied + chunk, lo, hi)
      ensures disk.reliable && Present(was, partition) && rawOffset + copied < HEADER_SIZE ==> ret == 0
    {
      var pos := rawOffset + copied;
      chunk := Chunk(pos, |data| - copied);
      ghost var now := disk.bytes;
      if Present(now, partition) && pos < HEADER_SIZE {
        SectorPresent(now, partition, pos);
      }
      ret := WriteChunk(partition, pos, data[copied..copied + chunk]);
      ghost var next := disk.bytes;
      SameOutsideWider(was, now, next, pos, partition, lo, hi);
      if ret == 0 {
        WrittenMore(was, now, next, Address(partition, rawOffset), data, copied, chunk);
      }
    }

    /** Read-modify-write of the one sector that holds pos. */
    method WriteChunk(partition: nat, pos: nat, d: seq<Byte>) returns (ret: int)
      requires 0 < |d| && pos % SECTOR_SIZE + |d| <= SECTOR_SIZE
      modifies this, disk
      ensures ret in {0, -EIO}
      ensures ret == 0 ==> Written(old(disk.bytes), disk.bytes, Address(partition, pos), d)
      ensures disk.reliable && (partition + pos / SECTOR_SIZE + 1) * SECTOR_SIZE <= |old(disk.bytes)| ==> ret == 0
      ensures SameOutside(old(disk.bytes), disk.bytes,
                (partition + pos / SECTOR_SIZE) * SECTOR_SIZE, (partition + pos / SECTOR_SIZE + 1) * SECTOR_SIZE)
    {
      var sectorOffset := pos % SECTOR_SIZE;
      ghost var now, base := disk.bytes, (partition + pos / SECTOR_SIZE) * SECTOR_SIZE;
      SectorAddress(partition, pos);
      ret := ReadIntoBuffer(partition + pos / SECTOR_SIZE);
      if ret < 0 {
        return -EIO;
      }
      buffer := buffer[..sectorOffset] + d + buffer[sectorOffset + |d|..];
      ret := disk.WriteSector(partition + pos / SECTOR_SIZE, buffer);
      if ret < 0 {
        return -EIO;
      }
      SpliceInSector(now, base, sectorOffset, d);
      ret := 0;
    }

    method ReadAttributeHeader(partition: nat) returns (ret: int, table: Table)
      modifies this
      ensures ret in {0, -EIO}
      ensures ret == 0 ==> HasTable(disk.bytes, partition) && table == TableAt(disk.bytes, partition)
      ensures disk.reliable && HasTable(disk.bytes, partition) ==> ret == 0
    {
      table := Table([0, 0, 0, 0, 0, 0, 0, 0, 0], [0, 0, 0], 0, seq(6, _ => EMPTY_FILE));
      ret := ReadIntoBuffer(partition + AREA_OFFSET / SECTOR_SIZE);
      if ret < 0 {
        return -EIO, table;
      }
      ret, table := 0, Decode(buffer[..TABLE_SIZE]);
      assert buffer[..TABLE_SIZE] == disk.bytes[TableAddress(partition)..TableAddress(partition) + TABLE_SIZE];
    }

    /** Reads SYSTEM.CNF into a buffer of the given size. */
    method ReadSystemCnf(partition: nat, bufferSize: U32) returns (ret: int, table: Table, data: seq<Byte>)
      modifies this
      ensures ret == 0 ==> CnfOf(disk.bytes, partition) == Some(data) && |data| <= bufferSize
      ensures ret == 0 ==> table == TableAt(disk.bytes, partition)
      ensures ret in {0, -EIO, -ENOENT, -EINVAL, -EFBIG}
      ensures ret in {-ENOENT, -EINVAL, -EFBIG} ==> HasTable(disk.bytes, partition) && table == TableAt(disk.bytes, partition)
      ensures ret == -ENOENT ==> NoEntry(table)
      ensures ret == -EINVAL ==> !NoEntry(table) && table.files[0].offset >= AREA_SIZE
      ensures ret == -EFBIG ==> !NoEntry(table) && (!Fits(table, table.files[0].size) || table.files[0].size > bufferSize)
      ensures disk.reliable && Present(disk.bytes, partition) ==> ret != -EIO
      ensures disk.reliable && Present(disk.bytes, partition) ==>
        HasTable(disk.bytes, partition)
        && (ret == 0 <==> Editable(TableAt(disk.bytes, partition)) && TableAt(disk.bytes, partition).files[0].size <= bufferSize)
    {
      data := [];
      ret, table := ReadAttributeHeader(partition);
      if ret < 0 { return; }
      ret := ValidateSystemCnfEntry(table);
      if ret < 0 { return; }
      if table.files[0].size > bufferSize {
        return -EFBIG, table, data;
      }
      ret, data := ReadRawRange(partition, AREA_OFFSET + table.files[0].offset, table.files[0].size);
    }

    /** Replaces SYSTEM.CNF: the text padded with zeros to its capacity, then the table with the new size. */
    method WriteSystemCnf(partition: nat, table: Table, data: seq<Byte>) returns (ret: int, newTable: Table)
      requires |data| < 0x1_0000_0000
      modifies this, disk
      ensures data == [] || !Editable(table) || !Fits(table, |data|) ==> ret < 0 && disk.bytes == old(disk.bytes)
      ensures Editable(table) && data != [] ==> (ret == -EFBIG <==> !Fits(table, |data|))
      ensures ret >= 0 ==> CnfWritten(old(disk.bytes), disk.bytes, partition, table, data)
      ensures ret >= 0 ==> newTable == WithCnfSize(table, |data|)
      ensures forall capacity: nat :: IsCapacity(table, capacity) ==>
                TouchedAtMost(old(disk.bytes), disk.bytes, partition, table, capacity)
      ensures disk.reliable && Present(old(disk.bytes), partition) && Editable(table) && data != [] && Fits(table, |data|) ==>
                ret >= 0
    {
      newTable := table;
      if data == [] {
        return -EINVAL, newTable;
      }
      ret := ValidateSystemCnfEntry(table);
      if ret < 0 { return; }
      var capacity := CnfCapacity(table);
      FitsDownward(table, capacity, |data|);
      if |data| > capacity {
        return -EFBIG, newTable;
      }
      ret, newTable := WriteTextAndTable(partition, table, data, capacity);
      forall other: nat | IsCapacity(table, other)
        ensures TouchedAtMost(old(disk.bytes), disk.bytes, partition, table, other)
      {
        CapacityUnique(table, capacity, other);
      }
    }

    method WriteTextAndTable(partition: nat, table: Table, data: seq<Byte>, capacity: nat) returns (ret: int, newTable: Table)
      requires Editable(table) && IsCapacity(table, capacity) && 0 < |data| <= capacity
      modifies this, disk
      ensures ret in {0, -EIO}
      ensures ret >= 0 ==> CnfWrittenAs(old(disk.bytes), disk.bytes, partition, table, data, capacity)
      ensures ret >= 0 ==> newTable == WithCnfSize(table, |data|)
      ensures TouchedAtMost(old(disk.bytes), disk.bytes, partition, table, capacity)
      ensures disk.reliable && Present(old(disk.bytes), partition) ==> ret >= 0
    {
      newTable := table;
      ghost var was := disk.bytes;
      var padded := data + seq(capacity - |data|, _ => 0);
      ret := WriteText(partition, table, padded, capacity);
      ghost var now := disk.bytes;
      if ret < 0 {
        TouchedByBoth(was, now, now, partition, table, capacity);
        return;
      }
      newTable := WithCnfSize(table, |data|);
      ret := WriteTable(partition, newTable);
      TouchedByBoth(was, now, disk.bytes, partition, table, capacity);
      if ret >= 0 {
        BothWritten(was, now, disk.bytes, partition, table, data, capacity);
      }
    }

    /** Overwrites SYSTEM.CNF up to its capacity. */
    method WriteText(partition: nat, table: Table, padded: seq<Byte>, ghost capacity: nat) returns (ret: int)
      requires Editable(table) && IsCapacity(table, capacity) && |padded| == capacity
      modifies this, disk
      ensures ret in {0, -EIO}
      ensures ret == 0 ==> Written(old(disk.bytes), disk.bytes, CnfAddress(partition, table), padded)
      ensures SameOutside(old(disk.bytes), disk.bytes,
                SectorFloor(CnfAddress(partition, table)), SectorCeiling(CnfAddress(partition, table) + capacity))
      ensures disk.reliable && Present(old(disk.bytes), partition) ==> ret == 0
    {
      var raw := AREA_OFFSET + table.files[0].offset;
      assert Address(partition, raw + capacity) == CnfAddress(partition, table) + capacity;
      ret := WriteRawRange(partition, raw, padded);
    }

    /** Overwrites the table at the start of the area, keeping the rest of its sector. */
    method WriteTable(partition: nat, table: Table) returns (ret: int)
      modifies this, disk
      ensures ret in {0, -EIO}
      ensures ret >= 0 ==> Written(old(disk.bytes), disk.bytes, TableAddress(partition), Encode(table))
      ensures SameOutside(old(disk.bytes), disk.bytes, TableAddress(partition), TableAddress(partition) + SECTOR_SIZE)
      ensures disk.reliable && HasTable(old(disk.bytes), partition) ==> ret == 0
    {
      TableSector(partition);
      ret := ReadIntoBuffer(partition + AREA_OFFSET / SECTOR_SIZE);
      if ret < 0 {
        return -EIO;
      }
      ret := WriteTableSector(partition, table, TableAddress(partition));
    }

    /** Writes the buffer back with the table in front. */
    method WriteTableSector(partition: nat, table: Table, ghost base: nat) returns (ret: int)
      requires base == (partition + AREA_OFFSET / SECTOR_SIZE) * SECTOR_SIZE && base + SECTOR_SIZE <= |disk.bytes|
      requires buffer == disk.bytes[base..base + SECTOR_SIZE]
      modifies this, disk
      ensures ret in {0, -EIO}
      ensures ret >= 0 ==> Written(old(disk.bytes), disk.bytes, base, Encode(table))
      ensures SameOutside(old(disk.bytes), disk.bytes, base, base + SECTOR_SIZE)
      ensures disk.reliable ==> ret == 0
    {
      ghost var now := disk.bytes;
      buffer := Encode(table) + buffer[TABLE_SIZE..];
      ret := disk.WriteSector(partition + AREA_OFFSET / SECTOR_SIZE, buffer);
      if ret < 0 {
        return -EIO;
      }
      HeadOfSector(now, base, Encode(table));
      ret := 0;
    }
  }

  // ----- what an edit keeps -----

  /** A byte of the result of a completed write. */
  lemma ByteAfterWrite(before: seq<Byte>, after: seq<Byte>, partition: nat, t: Table, data: seq<Byte>, capacity: int, k: nat)
    requires CnfWrittenAs(before, after, partition, t, data, capacity) && k < |before|
    ensures |after| == |before|
    ensures var table, cnf := TableAddress(partition), CnfAddress(partition, t);
      after[k] == if table <= k < table + TABLE_SIZE then Encode(WithCnfSize(t, |data|))[k - table]
                  else if cnf <= k < cnf + capacity then Padded(data, capacity)[k - cnf]
                  else before[k]
  {
  }

  lemma TableAfterWrite(before: seq<Byte>, after: seq<Byte>, partition: nat, t: Table, data: seq<Byte>, capacity: int)
    requires CnfWrittenAs(before, after, partition, t, data, capacity)
    ensures HasTable(after, partition) && TableAt(after, partition) == WithCnfSize(t, |data|)
  {
    var table, u := TableAddress(partition), WithCnfSize(t, |data|);
    assert after[table..table + TABLE_SIZE] == Encode(u);
    TableRoundTrip(u);
  }

  lemma TextAfterWrite(before: seq<Byte>, after: seq<Byte>, partition: nat, t: Table, data: seq<Byte>, capacity: int)
    requires CnfWrittenAs(before, after, partition, t, data, capacity)
    ensures CnfAddress(partition, t) + |data| <= |after|
    ensures after[CnfAddress(partition, t)..CnfAddress(partition, t) + |data|] == data
  {
    var cnf := CnfAddress(partition, t);
    forall k: nat | k < |data| ensures cnf + k < |after| && after[cnf + k] == data[k] {
      ByteAfterWrite(before, after, partition, t, data, capacity, cnf + k);
    }
  }

  /** After a successful write, the disk holds exactly the written text as SYSTEM.CNF. */
  lemma WriteThenRead(before: seq<Byte>, after: seq<Byte>, partition: nat, t: Table, data: seq<Byte>)
    requires CnfWritten(before, after, partition, t, data)
    ensures CnfOf(after, partition) == Some(data)
    ensures TableAt(after, partition) == WithCnfSize(t, |data|)
  {
    var capacity :| CnfWrittenAs(before, after, partition, t, data, capacity);
    TableAfterWrite(before, after, partition, t, data, capacity);
    TextAfterWrite(before, after, partition, t, data, capacity);
    ResizedStaysEditable(t, capacity, |data|);
  }

  /** Behind the text there are zeros as far as there is room. */
  lemma ZerosBehindText(before: seq<Byte>, after: seq<Byte>, partition: nat, t: Table, data: seq<Byte>, k: nat)
    requires CnfWritten(before, after, partition, t, data)
    requires CnfAddress(partition, t) + |data| <= k && RoomFor(t, k + 1 - CnfAddress(partition, t))
    ensures k < |after| && after[k] == 0
  {
    var capacity :| CnfWrittenAs(before, after, partition, t, data, capacity);
    var cnf := CnfAddress(partition, t);
    FitsMeans(t, k + 1 - cnf);
    FitsDownward(t, capacity, k + 1 - cnf);
    ByteAfterWrite(before, after, partition, t, data, capacity, k);
  }

  lemma StoredTableByte(bytes: seq<Byte>, partition: nat, size: U32, j: nat)
    requires HasTable(bytes, partition) && j < TABLE_SIZE && !(20 <= j < 24)
    ensures Encode(WithCnfSize(TableAt(bytes, partition), size))[j] == bytes[TableAddress(partition) + j]
  {
    var table := TableAddress(partition);
    DecodeRoundTrip(bytes[table..table + TABLE_SIZE]);
    OtherFieldBytes(TableAt(bytes, partition), size, j);
  }

  /** When the caller passes the table it read, the header sector changes only in SYSTEM.CNF's size field. */
  lemma OnlySizeFieldChanges(before: seq<Byte>, after: seq<Byte>, partition: nat, t: Table, data: seq<Byte>, k: nat)
    requires CnfWritten(before, after, partition, t, data)
    requires HasTable(before, partition) && t == TableAt(before, partition)
    requires TableAddress(partition) <= k < TableAddress(partition) + SECTOR_SIZE
    requires !(TableAddress(partition) + 20 <= k < TableAddress(partition) + 24)
    ensures |after| == |before| && after[k] == before[k]
  {
    var capacity :| CnfWrittenAs(before, after, partition, t, data, capacity);
    var table := TableAddress(partition);
    ByteAfterWrite(before, after, partition, t, data, capacity, k);
    if k < table + TABLE_SIZE {
      StoredTableByte(before, partition, |data|, k - table);
    }
  }

  /** The file's bytes are not those of the stored size of SYSTEM.CNF. Below the table's end that takes a table
      that is the one on the disk. */
  predicate ClearOfSizeField(bytes: seq<Byte>, partition: nat, t: Table, f: AttributeFile) {
    || TABLE_SIZE <= f.offset
    || (HasTable(bytes, partition) && t == TableAt(bytes, partition) && (f.offset + f.size <= 20 || 24 <= f.offset))
  }

  /** Attribute files that start after SYSTEM.CNF, or end at or before it, keep their bytes. */
  lemma NeighboursKept(before: seq<Byte>, after: seq<Byte>, partition: nat, t: Table, data: seq<Byte>, i: nat)
    requires CnfWritten(before, after, partition, t, data)
    requires 1 <= i < 6 && t.files[i].size > 0 && t.files[i].offset > 0 && ClearOfSizeField(before, partition, t, t.files[i])
    requires t.files[i].offset > t.files[0].offset || t.files[i].offset + t.files[i].size <= t.files[0].offset
    requires Address(partition, AREA_OFFSET + t.files[i].offset) + t.files[i].size <= |before|
    ensures |after| == |before|
    ensures var at := Address(partition, AREA_OFFSET + t.files[i].offset);
      after[at..at + t.files[i].size] == before[at..at + t.files[i].size]
  {
    var capacity :| CnfWrittenAs(before, after, partition, t, data, capacity);
    var at := Address(partition, AREA_OFFSET + t.files[i].offset);
    assert t.files[i].offset > t.files[0].offset ==> Blocks(t, i);
    forall k | at <= k < at + t.files[i].size ensures after[k] == before[k] {
      ByteAfterWrite(before, after, partition, t, data, capacity, k);
      if k < TableAddress(partition) + TABLE_SIZE {
        OnlySizeFieldChanges(before, after, partition, t, data, k);
      }
    }
  }

  /** Nothing outside SYSTEM.CNF's capacity and the table changes anywhere on the disk. */
  lemma RestOfDiskKept(before: seq<Byte>, after: seq<Byte>, partition: nat, t: Table, data: seq<Byte>, k: nat)
    requires CnfWritten(before, after, partition, t, data) && k < |before|
    requires !(TableAddress(partition) <= k < TableAddress(partition) + TABLE_SIZE)
    requires k < CnfAddress(partition, t) || !Fits(t, k - CnfAddress(partition, t) + 1)
    ensures |after| == |before| && after[k] == before[k]
  {
    var capacity :| CnfWrittenAs(before, after, partition, t, data, capacity);
    ByteAfterWrite(before, after, partition, t, data, capacity, k);
    if k >= CnfAddress(partition, t) {
      FitsDownward(t, capacity, k - CnfAddress(partition, t) + 1);
    }
  }
}
