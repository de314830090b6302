/** `format`: superblock, descriptors, bitmaps, inode tables and the root directory are written to the disk, and
    the result is a volume in order with an empty root directory. */
module Ext2Format {
  import opened Bytes
  import opened Ext2Tree
  import opened Ext2Meta
  import opened Ext2Steps
  import opened Ext2Frames
  import opened Ext2Volume
  import opened Ext2Records
  import opened Ext2State
  import opened Ext2Data
  import opened Ext2DirFacts
  import opened Ext2Layout
  import opened Ext2Fresh
  import opened Ext2Paths
  import opened Ext2Api

  const EXT2_MAGIC: nat := 0xEF53
  const MAP_BYTES: nat := 4096

  // ---------------------------------------------------------------- packed structures

  /** One field of a packed structure. */
  datatype Field = Field(off: nat, width: nat, v: nat)

  predicate InOrder(fs: seq<Field>, size: nat) {
    (forall i :: 0 <= i < |fs| ==> fs[i].off + fs[i].width <= size) &&
    forall i :: 0 <= i < |fs| - 1 ==> fs[i].off + fs[i].width <= fs[i + 1].off
  }

  /** The structure with all fields stored, one after the other. */
  function PutFields(b: seq<byte>, fs: seq<Field>): (c: seq<byte>)
    requires forall i :: 0 <= i < |fs| ==> fs[i].off + fs[i].width <= |b|
    ensures |c| == |b|
    decreases |fs|
  {
    if fs == [] then b else PutFields(Patch(b, fs[0].off, LittleEndian(fs[0].v, fs[0].width)), fs[1..])
  }

  lemma {:induction false} FieldsBehind(b: seq<byte>, fs: seq<Field>, o: nat)
    requires InOrder(fs, |b|) && o <= |b| && (fs != [] ==> o <= fs[0].off)
    ensures PutFields(b, fs)[..o] == b[..o]
    decreases |fs|
  {
    hide LittleEndian;
    if fs != [] {
      var c := Patch(b, fs[0].off, LittleEndian(fs[0].v, fs[0].width));
      FieldsBehind(c, fs[1..], o);
      assert c[..o] == b[..o];
    }
  }

  /** A stored field is read back. */
  lemma {:induction false} FieldRead(b: seq<byte>, fs: seq<Field>, k: nat)
    requires InOrder(fs, |b|) && k < |fs|
    ensures PutFields(b, fs)[fs[k].off..fs[k].off + fs[k].width] == LittleEndian(fs[k].v, fs[k].width)
    decreases |fs|
  {
    hide LittleEndian;
    var f := fs[0];
    var c := Patch(b, f.off, LittleEndian(f.v, f.width));
    if k > 0 {
      FieldRead(c, fs[1..], k - 1);
    } else {
      FieldsBehind(c, fs[1..], f.off + f.width);
      var r := PutFields(b, fs);
      assert r[f.off..f.off + f.width] == r[..f.off + f.width][f.off..] == c[..f.off + f.width][f.off..];
    }
  }

  lemma Word32(b: seq<byte>, fs: seq<Field>, k: nat)
    requires InOrder(fs, |b|) && k < |fs| && fs[k].width == 4 && fs[k].v < TWO_32
    ensures GetU32(PutFields(b, fs), fs[k].off) == fs[k].v
  {
    hide PutFields;
    FieldRead(b, fs, k);
    WordSizes();
    NumberOfLittleEndian(fs[k].v, 4);
  }

  lemma Word16(b: seq<byte>, fs: seq<Field>, k: nat)
    requires InOrder(fs, |b|) && k < |fs| && fs[k].width == 2 && fs[k].v < TWO_16
    ensures GetU16(PutFields(b, fs), fs[k].off) == fs[k].v
  {
    hide PutFields;
    FieldRead(b, fs, k);
    WordSizes();
    NumberOfLittleEndian(fs[k].v, 2);
  }

  // ---------------------------------------------------------------- superblock and mount

  function LogSize(bs: nat): nat { if bs == 1024 then 0 else if bs == 2048 then 1 else 2 }

  function SuperFields(geo: Geo, freeBlocks: nat, freeInodes: nat): seq<Field> {
    [Field(0, 4, geo.groups * geo.inodesPerGroup), Field(4, 4, geo.totalBlocks), Field(8, 4, geo.totalBlocks / 20),
     Field(12, 4, freeBlocks), Field(16, 4, freeInodes), Field(20, 4, geo.firstDataBlock),
       Field(24, 4, LogSize(geo.blockSize)),
     Field(28, 4, LogSize(geo.blockSize)), Field(32, 4, BlocksPerGroup(geo)), Field(36, 4, BlocksPerGroup(geo)),
     Field(40, 4, geo.inodesPerGroup), Field(56, 2, EXT2_MAGIC), Field(58, 2, 1), Field(60, 2, 1), Field(72, 4, 0),
       Field(76, 4, 1),
     Field(84, 4, geo.firstIno), Field(88, 2, geo.inodeSize), Field(96, 4, 2)]
  }

  lemma SuperInOrder(geo: Geo, freeBlocks: nat, freeInodes: nat)
    ensures InOrder(SuperFields(geo, freeBlocks, freeInodes), SB_SIZE) &&
      |SuperFields(geo, freeBlocks, freeInodes)| == 19
  {}

  function SuperBytes(geo: Geo, freeBlocks: nat, freeInodes: nat): (sb: seq<byte>)
    ensures |sb| == SB_SIZE
  {
    SuperInOrder(geo, freeBlocks, freeInodes);
    PutFields(Zeros(SB_SIZE), SuperFields(geo, freeBlocks, freeInodes))
  }

  /** What the superblock of a fresh volume says. */
  lemma SuperBytesSay(geo: Geo, freeBlocks: nat, freeInodes: nat)
    requires GeoOk(geo) && freeBlocks < TWO_32 && freeInodes < TWO_32
    ensures var sb := SuperBytes(geo, freeBlocks, freeInodes);
            InodesCount(sb) == geo.groups * geo.inodesPerGroup && FreeBlocksCount(sb) == freeBlocks &&
            FreeInodesCount(sb) == freeInodes && FirstIno(sb) == geo.firstIno
  {
    hide Sized, PutFields, GetU32, InOrder;
    VolumeBounds(geo);
    SuperInOrder(geo, freeBlocks, freeInodes);
    var z, fs := Zeros(SB_SIZE), SuperFields(geo, freeBlocks, freeInodes);
    Word32(z, fs, 0);
    Word32(z, fs, 3);
    Word32(z, fs, 4);
    Word32(z, fs, 16);
  }

  datatype Mount = NotExt2 | Mounted(geo: Geo, blocksPerGroup: nat)

  /** `mount`: the geometry as the superblock gives it. */
  function MountOf(sb: seq<byte>): Mount
    requires |sb| == SB_SIZE
  {
    var log := GetU32(sb, 24);
    if GetU16(sb, 56) != EXT2_MAGIC || log > 2 then NotExt2
    else
      var bs := if log == 0 then 1024 else if log == 1 then 2048 else 4096;
      var given := GetU16(sb, 88);
      var size := if GetU32(sb, 76) >= 1 && 128 <= given <= 1024 then given else 128;
      var total, first, perGroup := GetU32(sb, 4), GetU32(sb, 20), GetU32(sb, 32);
      if total < first || perGroup == 0 then NotExt2
      else Mounted(Geo(bs, (total - first + perGroup - 1) / perGroup, GetU32(sb, 40), size, first, total, FirstIno(sb)),
        perGroup)
  }

  /** A formatted volume is mounted with the geometry it was formatted with. */
  lemma MountFresh(geo: Geo, freeBlocks: nat, freeInodes: nat)
    requires Formattable(geo) && freeBlocks < TWO_32 && freeInodes < TWO_32
    ensures MountOf(SuperBytes(geo, freeBlocks, freeInodes)) == Mounted(geo, BlocksPerGroup(geo))
  {
    hide PutFields, GetU32, GetU16, InOrder, LastGroupFits, Sized;
    SuperInOrder(geo, freeBlocks, freeInodes);
    SuperBytesSay(geo, freeBlocks, freeInodes);
    BlockNumbersFit(geo);
    var z, fs := Zeros(SB_SIZE), SuperFields(geo, freeBlocks, freeInodes);
    Word32(z, fs, 1);
    Word32(z, fs, 5);
    Word32(z, fs, 6);
    Word32(z, fs, 8);
    Word32(z, fs, 10);
    Word16(z, fs, 11);
    Word32(z, fs, 15);
    Word16(z, fs, 17);
    GroupsAre(geo);
  }

  lemma GroupsAre(geo: Geo)
    requires GeoOk(geo)
    ensures geo.totalBlocks > geo.firstDataBlock
    ensures (geo.totalBlocks - geo.firstDataBlock + BlocksPerGroup(geo) - 1) / BlocksPerGroup(geo) == geo.groups
  {
    var b := BlocksPerGroup(geo);
    OneMore(geo.groups - 1, b);
    assert (geo.groups - 1) * b >= 0;
    CeilUnique(geo.totalBlocks - geo.firstDataBlock, b, geo.groups);
  }

  // ---------------------------------------------------------------- descriptors

  function DescFields(geo: Geo, g: nat, free: nat): seq<Field>
    requires geo.blockSize > 0
  {
    var l := LayOf(geo, g);
    [Field(0, 4, l.bb), Field(4, 4, l.ib), Field(8, 4, l.it), Field(12, 2, free), Field(14, 2, FreeInodesIn(geo, g)),
     Field(16, 2, if g == 0 then 1 else 0)]
  }

  lemma DescInOrder(geo: Geo, g: nat, free: nat)
    requires geo.blockSize > 0
    ensures InOrder(DescFields(geo, g, free), BGD_SIZE) && |DescFields(geo, g, free)| == 6
  {
    hide LayOf;
  }

  function DescBytes(geo: Geo, g: nat, free: nat): (d: seq<byte>)
    requires geo.blockSize > 0
    ensures |d| == BGD_SIZE
  {
    DescInOrder(geo, g, free);
    PutFields(Zeros(BGD_SIZE), DescFields(geo, g, free))
  }

  lemma DescBytesSay(geo: Geo, g: nat)
    requires Formattable(geo) && g < geo.groups
    ensures 0 <= FreeIn(geo, g) < TWO_16 && DescIs(DescBytes(geo, g, FreeIn(geo, g)), geo, g)
  {
    hide Sized, PutFields, GetU32, GetU16, InOrder, LastGroupFits, Reserved;
    ReservedFits(geo, g);
    DescInOrder(geo, g, FreeIn(geo, g));
    LayFits(geo, g);
    var z, fs := Zeros(BGD_SIZE), DescFields(geo, g, FreeIn(geo, g));
    Word32(z, fs, 0);
    Word32(z, fs, 1);
    Word32(z, fs, 2);
    Word16(z, fs, 3);
    Word16(z, fs, 4);
  }

  lemma LayFits(geo: Geo, g: nat)
    requires Formattable(geo) && g < geo.groups
    ensures var l := LayOf(geo, g); l.bb < TWO_32 && l.ib < TWO_32 && l.it < TWO_32
  {
    hide Sized, LastGroupFits;
    ReservedFits(geo, g);
    BlockNumbersFit(geo);
    RoleAt(geo, g, Base(geo, g));
    RoleAt(geo, g, Base(geo, g) + 1);
    RoleAt(geo, g, Base(geo, g) + 2);
  }

  // ---------------------------------------------------------------- bitmaps

  /** `for (i = lo; i < hi; i++) bm[i / 8] |= 1u << (i % 8)` */
  method MarkRange(bm: array<byte>, lo: nat, hi: nat)
    requires hi <= 8 * bm.Length
    modifies bm
    ensures forall j: nat :: j < 8 * bm.Length ==> (Bit(bm[..], j) <==> old(Bit(bm[..], j)) || lo <= j < hi)
  {
    hide Bit, WithBit;
    var i := lo;
    while i < hi
      invariant lo <= i && (i <= hi || i == lo)
      invariant forall j: nat :: j < 8 * bm.Length ==>
        (Bit(bm[..], j) <==> old(Bit(bm[..], j)) || (lo <= j < i && j < hi))
    {
      ghost var before := bm[..];
      SetBit(bm, i);
      forall j: nat | j < 8 * bm.Length ensures Bit(bm[..], j) <==> j == i || Bit(before, j) {
        WithBitBits(before, i, j);
      }
      i := i + 1;
    }
  }

  method SetBit(bm: array<byte>, i: nat)
    requires i < 8 * bm.Length
    modifies bm
    ensures bm[..] == WithBit(old(bm[..]), i)
  {
    ByteOps(bm[i / 8], i % 8);
    bm[i / 8] := OrBit(bm[i / 8], i % 8);
  }

  lemma NoBits(bm: seq<byte>, j: nat)
    requires j / 8 < |bm| && bm[j / 8] == 0
    ensures !Bit(bm, j)
  {
    ZeroBits(j % 8);
  }

  lemma {:induction false} ZeroBits(k: nat)
    ensures !TestBit(0, k)
  {
    if k > 0 { ZeroBits(k - 1); }
  }

  lemma BitOfPrefix(bm: seq<byte>, n: nat, j: nat)
    requires n <= |bm| && j < 8 * n
    ensures Bit(bm[..n], j) <==> Bit(bm, j)
  {}

  /** The block bitmap of a group: its overhead, in the first group the root directory's block, and in the last
      one everything past the end of the volume. */
  method BlockBitmapFor(geo: Geo, g: nat) returns (b: Block)
    requires Formattable(geo) && g < geo.groups
    ensures |b| == geo.blockSize && BlockBits(b, geo, g)
  {
    hide Sized, Bit, LastGroupFits, Overhead, BlocksIn;
    var bbm := new byte[MAP_BYTES](_ => 0);
    forall j: nat | j < 8 * MAP_BYTES ensures !Bit(bbm[..], j) { NoBits(bbm[..], j); }
    ReservedFits(geo, g);
    var ov, tb := Overhead(geo, g), BlocksIn(geo, g);
    MarkRange(bbm, 0, ov);
    if g == geo.groups - 1 && tb < BlocksPerGroup(geo) {
      MarkRange(bbm, tb, BlocksPerGroup(geo));
    }
    if g == 0 { MarkRange(bbm, ov, ov + 1); }
    b := bbm[..geo.blockSize];
    forall j: nat | j < BlocksPerGroup(geo) ensures Bit(b, j) <==> j < Reserved(geo, g) || j >= tb {
      BitOfPrefix(bbm[..], geo.blockSize, j);
      assert bbm[..][..geo.blockSize] == b;
    }
  }

  method InodeBitmapFor(geo: Geo, g: nat) returns (b: Block)
    requires Formattable(geo) && g < geo.groups
    ensures |b| == geo.blockSize && InodeBits(b, geo, g)
  {
    hide Sized, Bit, LastGroupFits;
    var ibm := new byte[MAP_BYTES](_ => 0);
    forall j: nat | j < 8 * MAP_BYTES ensures !Bit(ibm[..], j) { NoBits(ibm[..], j); }
    if g == 0 { MarkRange(ibm, 0, 10); }
    b := ibm[..geo.blockSize];
    forall j: nat | j < geo.inodesPerGroup ensures Bit(b, j) <==> g == 0 && j < FIRST_INO - 1 {
      BitOfPrefix(ibm[..], geo.blockSize, j);
      assert ibm[..][..geo.blockSize] == b;
    }
  }

  // ---------------------------------------------------------------- writing the volume

  /** The sum `format` puts into the superblock. */
  method CountFree(geo: Geo) returns (free: nat)
    requires Formattable(geo)
    ensures geo.firstDataBlock <= geo.totalBlocks && free == FreeSum(geo, geo.groups) < TWO_32
  {
    hide Sized, LastGroupFits, Overhead, BlocksIn, FreeSum;
    SuperInVolume(geo);
    FreeSumSteps(geo, 0);
    var count, g := 0, 0;
    while g < geo.groups
      invariant g <= geo.groups && count == FreeSum(geo, g) + (if g > 0 then 1 else 0)
    {
      ReservedFits(geo, g);
      FreeSumSteps(geo, g);
      var tb, ov := BlocksIn(geo, g), Overhead(geo, g);
      if tb > ov { count := count + (tb - ov); }
      g := g + 1;
    }
    FreeSumBounds(geo, geo.groups);
    VolumeBounds(geo);
    if count > 0 { count := count - 1; }
    free := count;
  }

  lemma FreeSumSteps(geo: Geo, g: nat)
    requires geo.blockSize > 0 && geo.firstDataBlock <= geo.totalBlocks
    ensures FreeSum(geo, 0) == 0 && FreeSum(geo, g + 1) == FreeSum(geo, g) + FreeIn(geo, g)
  {}

  lemma {:induction false} FreeSumBounds(geo: Geo, n: nat)
    requires Formattable(geo) && n <= geo.groups
    ensures geo.firstDataBlock <= geo.totalBlocks && 0 <= FreeSum(geo, n) <= n * BlocksPerGroup(geo)
  {
    hide Sized, LastGroupFits, Reserved, BlocksIn;
    SuperInVolume(geo);
    if n > 0 {
      FreeSumBounds(geo, n - 1);
      ReservedFits(geo, n - 1);
      OneMore(n - 1, BlocksPerGroup(geo));
    }
  }

  /** The descriptors of all groups, back to back. */
  method BuildDescriptors(geo: Geo) returns (buf: array<byte>)
    requires Formattable(geo)
    ensures geo.firstDataBlock <= geo.totalBlocks && fresh(buf) && buf.Length == geo.groups * BGD_SIZE
    ensures forall g: nat :: g < geo.groups ==> DescIs(buf[g * BGD_SIZE..g * BGD_SIZE + BGD_SIZE], geo, g)
  {
    hide Sized, LastGroupFits, Overhead, BlocksIn, DescIs, FreeIn;
    SuperInVolume(geo);
    buf := new byte[geo.groups * BGD_SIZE](_ => 0);
    var g := 0;
    while g < geo.groups
      invariant g <= geo.groups
      invariant forall j: nat :: j < g ==> DescIs(buf[j * BGD_SIZE..j * BGD_SIZE + BGD_SIZE], geo, j)
    {
      DescBytesSay(geo, g);
      var free := FreeIn(geo, g);
      var d := DescBytes(geo, g, free);
      ghost var before := buf[..];
      forall i | 0 <= i < BGD_SIZE { buf[g * BGD_SIZE + i] := d[i]; }
      assert buf[g * BGD_SIZE..g * BGD_SIZE + BGD_SIZE] == d;
      forall j: nat | j < g ensures DescIs(buf[j * BGD_SIZE..j * BGD_SIZE + BGD_SIZE], geo, j) {
        assert buf[j * BGD_SIZE..j * BGD_SIZE + BGD_SIZE] == before[j * BGD_SIZE..j * BGD_SIZE + BGD_SIZE];
      }
      g := g + 1;
    }
  }

  /** The descriptors fit one block, since there are at most 32 groups. */
  lemma OneDescBlock(geo: Geo, g: nat)
    requires Formattable(geo) && g < geo.groups
    ensures DescBlocks(geo) == 1 && DescBlock(geo, g) == geo.firstDataBlock + 1
    ensures RecOff(geo.blockSize, BGD_SIZE, g) == g * BGD_SIZE &&
      g * BGD_SIZE + BGD_SIZE <= geo.groups * BGD_SIZE <= geo.blockSize
  {
    hide Sized, LastGroupFits;
  }

  /** Superblock and descriptors are as they should be. */
  ghost predicate HeadsWritten(img: seq<Block>, sb: seq<byte>, geo: Geo)
    requires Formattable(geo) && WfImage(img, geo) && Laid(img, geo, FreshLay(geo)) && geo.firstDataBlock < |img|
  {
    |sb| == SB_SIZE && img[geo.firstDataBlock][SuperOff(geo)..SuperOff(geo) + SB_SIZE] == sb &&
    forall g: nat :: g < geo.groups ==> DescWritten(img, geo, g)
  }

  ghost predicate DescWritten(img: seq<Block>, geo: Geo, g: nat)
    requires Formattable(geo) && WfImage(img, geo) && Laid(img, geo, FreshLay(geo)) && g < geo.groups
  {
    assert InVolume(geo, FreshLay(geo)[g], g);
    DescIs(Desc(img, geo, g), geo, g)
  }

  method WriteHeads(geo: Geo, disk: array<Block>, sb: seq<byte>)
    requires Formattable(geo) && WfImage(disk[..], geo) && |sb| == SB_SIZE
    modifies disk
    ensures WfImage(disk[..], geo) && Laid(disk[..], geo, FreshLay(geo)) && geo.firstDataBlock < disk.Length
    ensures HeadsWritten(disk[..], sb, geo)
  {
    hide Sized, LastGroupFits, DescIs, GetU16, GetU32, FreshRoles, LayoutOk;
    FreshIsLaid(disk[..], geo);
    var first := geo.firstDataBlock;
    assert |disk[..][first]| == geo.blockSize;
    disk[first] := Patch(disk[first], SuperOff(geo), sb);
    PatchWindow(old(disk[first]), SuperOff(geo), sb, SuperOff(geo), SB_SIZE);
    var buf := BuildDescriptors(geo);
    WriteDescriptors(geo, disk, buf);
    FreshIsLaid(disk[..], geo);
    forall g: nat | g < geo.groups ensures DescWritten(disk[..], geo, g) {
      DescInBuffer(disk[..], geo, g, buf[..]);
    }
  }

  method WriteDescriptors(geo: Geo, disk: array<Block>, buf: array<byte>)
    requires Formattable(geo) && WfImage(disk[..], geo) && buf.Length == geo.groups * BGD_SIZE
    modifies disk
    ensures WfImage(disk[..], geo) && geo.firstDataBlock + 1 < disk.Length
    ensures buf.Length <= geo.blockSize
    ensures disk[..] == old(disk[..])[geo.firstDataBlock + 1 := buf[..] + Zeros(geo.blockSize - buf.Length)]
  {
    hide Sized, LastGroupFits, FreshRoles;
    FreshIsLaid(disk[..], geo);
    OneDescBlock(geo, 0);
    assert HasRole(FreshRoles(geo), geo.firstDataBlock + 1 + 0, Descriptors(0));
    var b := 0;
    while b < DescBlocks(geo)
      invariant b <= 1 && WfImage(disk[..], geo)
      invariant disk[..] == if b == 0 then old(disk[..])
                            else old(disk[..])[geo.firstDataBlock + 1 := buf[..] + Zeros(geo.blockSize - buf.Length)]
    {
      var off := b * geo.blockSize;
      var chunk := if buf.Length - off > geo.blockSize then geo.blockSize else buf.Length - off;
      assert off == 0 && buf[off..off + chunk] == buf[..];
      disk[geo.firstDataBlock + 1 + b] := buf[off..off + chunk] + Zeros(geo.blockSize - chunk);
      b := b + 1;
    }
  }

  lemma DescInBuffer(img: seq<Block>, geo: Geo, g: nat, buf: seq<byte>)
    requires Formattable(geo) && WfImage(img, geo) && Laid(img, geo, FreshLay(geo)) && g < geo.groups
    requires |buf| == geo.groups * BGD_SIZE && geo.firstDataBlock + 1 < |img|
    requires buf <= img[geo.firstDataBlock + 1]
    requires DescIs(buf[g * BGD_SIZE..g * BGD_SIZE + BGD_SIZE], geo, g)
    ensures DescWritten(img, geo, g)
  {
    hide Sized, LastGroupFits, DescIs;
    OneDescBlock(geo, g);
    assert InVolume(geo, FreshLay(geo)[g], g);
    assert Desc(img, geo, g) == buf[g * BGD_SIZE..g * BGD_SIZE + BGD_SIZE];
  }

  // ---------------------------------------------------------------- groups

  predicate GroupRole(r: Role, g: nat) {
    (r.BlockBitmap? || r.InodeBitmap? || r.InodeTable?) && r.group == g
  }

  /** Only blocks of group `g`'s bitmaps and inode table differ. */
  ghost predicate OnlyGroup(img: seq<Block>, img': seq<Block>, roles: map<nat, Role>, g: nat) {
    |img'| == |img| && forall x :: 0 <= x < |img| && !(x in roles && GroupRole(roles[x], g)) ==> img'[x] == img[x]
  }

  ghost predicate MapsWritten(img: seq<Block>, geo: Geo, g: nat)
    requires Formattable(geo) && WfImage(img, geo) && Laid(img, geo, FreshLay(geo)) && g < geo.groups
  {
    var l := FreshLay(geo)[g];
    assert InVolume(geo, l, g);
    BlockBits(img[l.bb], geo, g) && InodeBits(img[l.ib], geo, g)
  }

  /** The bitmaps, and a cleared inode table. */
  method WriteGroup(geo: Geo, disk: array<Block>, g: nat)
    requires Formattable(geo) && WfImage(disk[..], geo) && g < geo.groups
    modifies disk
    ensures WfImage(disk[..], geo) && Laid(disk[..], geo, FreshLay(geo)) && MapsWritten(disk[..], geo, g)
    ensures OnlyGroup(old(disk[..]), disk[..], FreshRoles(geo), g)
    ensures forall j: nat :: j < TableBlocks(geo) ==> TableCleared(disk[..], geo, g, j)
  {
    hide Sized, LastGroupFits, FreshRoles, BlockBits, InodeBits;
    FreshIsLaid(disk[..], geo);
    var l := LayOf(geo, g);
    assert GroupPlaced(geo, FreshLay(geo)[g], g, FreshRoles(geo));
    assert InVolume(geo, FreshLay(geo)[g], g);
    var bb := BlockBitmapFor(geo, g);
    disk[l.bb] := bb;
    var ib := InodeBitmapFor(geo, g);
    disk[l.ib] := ib;
    ClearTable(geo, disk, l.it);
    forall x | l.it <= x < l.it + TableBlocks(geo) ensures x in FreshRoles(geo) && GroupRole(FreshRoles(geo)[x], g) {
      assert HasRole(FreshRoles(geo), l.it + (x - l.it), InodeTable(g, x - l.it));
    }
    BitmapsOutsideTable(geo, g);
    FreshIsLaid(disk[..], geo);
  }

  /** The bitmaps are not among the blocks of the inode table. */
  lemma BitmapsOutsideTable(geo: Geo, g: nat)
    requires geo.blockSize > 0
    ensures var l := LayOf(geo, g); l.bb < l.ib < l.it
  {}

  method ClearTable(geo: Geo, disk: array<Block>, it: nat)
    requires geo.blockSize > 0 && WfImage(disk[..], geo) && it + TableBlocks(geo) <= disk.Length
    modifies disk
    ensures WfImage(disk[..], geo)
    ensures forall x :: 0 <= x < disk.Length && !(it <= x < it + TableBlocks(geo)) ==> disk[..][x] == old(disk[..])[x]
    ensures forall x :: it <= x < it + TableBlocks(geo) ==> ZeroBlock(disk[..][x])
  {
    var n, j := TableBlocks(geo), 0;
    while j < n
      invariant j <= n && WfImage(disk[..], geo)
      invariant forall x :: 0 <= x < disk.Length && !(it <= x < it + n) ==> disk[..][x] == old(disk[..])[x]
      invariant forall x :: it <= x < it + j ==> ZeroBlock(disk[..][x])
    {
      ghost var before := disk[..];
      disk[it + j] := Zeros(geo.blockSize);
      assert disk[..] == before[it + j := Zeros(geo.blockSize)];
      j := j + 1;
    }
  }

  ghost predicate TableCleared(img: seq<Block>, geo: Geo, g: nat, j: nat)
    requires geo.blockSize > 0
  {
    LayOf(geo, g).it + j < |img| && ZeroBlock(img[LayOf(geo, g).it + j])
  }

  /** What was written for the volume's head and for other groups stays. */
  lemma OthersStay(img: seq<Block>, img': seq<Block>, sb: seq<byte>, geo: Geo, g: nat, n: nat)
    requires Formattable(geo) && WfImage(img, geo) && WfImage(img', geo) && OnlyGroup(img, img', FreshRoles(geo), g)
    requires Laid(img, geo, FreshLay(geo)) && geo.firstDataBlock < |img| && HeadsWritten(img, sb, geo)
    requires n <= g && forall j: nat :: j < n && j < geo.groups ==> MapsWritten(img, geo, j)
    ensures Laid(img', geo, FreshLay(geo)) && HeadsWritten(img', sb, geo)
    ensures forall j: nat :: j < n && j < geo.groups ==> MapsWritten(img', geo, j)
  {
    hide Sized, LastGroupFits, BlockBits, InodeBits, DescIs, FreshRoles;
    FreshIsLaid(img', geo);
    assert HasRole(FreshRoles(geo), geo.firstDataBlock, Super);
    forall j: nat | j < geo.groups ensures DescWritten(img', geo, j) {
      assert DescWritten(img, geo, j);
      DescPlace(geo, FreshLay(geo), FreshRoles(geo), j);
    }
    forall j: nat | j < n && j < geo.groups ensures MapsWritten(img', geo, j) {
      assert MapsWritten(img, geo, j);
      assert GroupPlaced(geo, FreshLay(geo)[j], j, FreshRoles(geo));
      assert InVolume(geo, FreshLay(geo)[j], j);
    }
  }

  // ---------------------------------------------------------------- the whole

  ghost predicate BookWritten(img: seq<Block>, sb: seq<byte>, geo: Geo) {
    Formattable(geo) && WfImage(img, geo) && Laid(img, geo, FreshLay(geo)) && geo.firstDataBlock < |img| &&
    HeadsWritten(img, sb, geo) && forall g: nat :: g < geo.groups ==> MapsWritten(img, geo, g)
  }

  /** Writing other blocks leaves superblock, descriptors and bitmaps. */
  lemma BookStays(img: seq<Block>, img': seq<Block>, sb: seq<byte>, geo: Geo)
    requires BookWritten(img, sb, geo) && WfImage(img', geo) && SameCounters(img, img', FreshRoles(geo))
    ensures BookWritten(img', sb, geo)
  {
    hide Sized, LastGroupFits, BlockBits, InodeBits, DescIs, FreshRoles;
    FreshIsLaid(img', geo);
    assert HasRole(FreshRoles(geo), geo.firstDataBlock, Super);
    forall g: nat | g < geo.groups ensures DescWritten(img', geo, g) && MapsWritten(img', geo, g) {
      assert DescWritten(img, geo, g) && MapsWritten(img, geo, g);
      DescPlace(geo, FreshLay(geo), FreshRoles(geo), g);
      assert GroupPlaced(geo, FreshLay(geo)[g], g, FreshRoles(geo));
      assert InVolume(geo, FreshLay(geo)[g], g);
    }
  }

  method WriteGroups(geo: Geo, disk: array<Block>, sb: seq<byte>)
    requires Formattable(geo) && WfImage(disk[..], geo) && Laid(disk[..], geo, FreshLay(geo)) &&
      geo.firstDataBlock < disk.Length
    requires HeadsWritten(disk[..], sb, geo)
    modifies disk
    ensures BookWritten(disk[..], sb, geo)
  {
    hide Sized, LastGroupFits, BlockBits, InodeBits, DescIs, FreshRoles, HeadsWritten, MapsWritten;
    var g := 0;
    while g < geo.groups
      invariant g <= geo.groups && WfImage(disk[..], geo) && Laid(disk[..], geo, FreshLay(geo))
      invariant HeadsWritten(disk[..], sb, geo)
      invariant forall j: nat :: j < g && j < geo.groups ==> MapsWritten(disk[..], geo, j)
    {
      ghost var img := disk[..];
      WriteGroup(geo, disk, g);
      OthersStay(img, disk[..], sb, geo, g, g);
      g := g + 1;
    }
  }

  /** The root directory's block and inode. */
  method WriteRoot(geo: Geo, disk: array<Block>, sb: seq<byte>)
    requires BookWritten(disk[..], sb, geo)
    modifies disk
    ensures BookWritten(disk[..], sb, geo) && RootWritten(disk[..], geo)
  {
    hide Sized, LastGroupFits, FreshRoles, HeadsWritten, MapsWritten, BlockBits, DotBytes, RootInode, Patch, RootBlock;
    ghost var lay, roles := FreshLay(geo), FreshRoles(geo);
    ghost var img := disk[..];
    FreshIsLaid(img, geo);
    RootPlace(geo);
    disk[RootBlock(geo)] := DotBytes(ROOT_INO, ROOT_INO, geo.blockSize) + Zeros(geo.blockSize - 22);
    ghost var img1 := disk[..];
    BookStays(img, img1, sb, geo);
    var byteOff := LayOf(geo, 0).it * geo.blockSize + 1 * INODE_SIZE;
    var blk, off := byteOff / geo.blockSize, byteOff % geo.blockSize;
    assert |img1[blk]| == geo.blockSize;
    disk[blk] := Patch(disk[blk], off, RootInode(geo));
    assert disk[..] == WithInode(img1, geo, lay, ROOT_INO, RootInode(geo));
    WithInodeSlots(img1, geo, lay, roles, ROOT_INO, RootInode(geo), ROOT_INO);
    BookStays(img1, disk[..], sb, geo);
  }

  ghost predicate RootWritten(img: seq<Block>, geo: Geo)
    requires Formattable(geo) && Laid(img, geo, FreshLay(geo))
  {
    IsInode(geo, ROOT_INO) && Slot(img, geo, FreshLay(geo), ROOT_INO) == RootInode(geo) &&
    RootBlock(geo) < |img| && img[RootBlock(geo)][..22] == DotBytes(ROOT_INO, ROOT_INO, geo.blockSize)
  }

  /** The root inode is the second of the first group's table, which is not the root directory's block. */
  lemma RootPlace(geo: Geo)
    requires Formattable(geo)
    ensures IsInode(geo, ROOT_INO) && GroupOfInode(geo, ROOT_INO) == 0 && IndexOfInode(geo, ROOT_INO) == 1
    ensures var byteOff := LayOf(geo, 0).it * geo.blockSize + INODE_SIZE;
            byteOff / geo.blockSize == LayOf(geo, 0).it == TableBlock(geo, FreshLay(geo), ROOT_INO) &&
            byteOff % geo.blockSize == INODE_SIZE == RecOff(geo.blockSize, geo.inodeSize, 1)
    ensures HasRole(FreshRoles(geo), LayOf(geo, 0).it, InodeTable(0, 0)) && LayOf(geo, 0).it < geo.totalBlocks
    ensures RootBlock(geo) != LayOf(geo, 0).it
  {
    hide Sized, LastGroupFits, FreshRoles;
    MulMonotone(1, geo.groups, geo.inodesPerGroup);
    ByteOffset(LayOf(geo, 0).it, geo.blockSize, INODE_SIZE);
    RecordInRun(geo.blockSize, geo.inodeSize, 0, geo.inodesPerGroup);
    RoleAt(geo, 0, Base(geo, 0) + 2);
  }

  lemma AllWritten(img: seq<Block>, sb: seq<byte>, geo: Geo, free: nat)
    requires BookWritten(img, sb, geo) && RootWritten(img, geo) && free == FreeSum(geo, geo.groups) < TWO_32
    requires sb == SuperBytes(geo, free, FreeInodesFor(geo))
    ensures Fresh(img, sb, geo)
  {
    hide Sized, LastGroupFits, FreshRoles, BlockBits, InodeBits, DescIs, RootInode, DotBytes, SuperBytes, GetU32, Slot,
      RootBlock;
    VolumeBounds(geo);
    SuperBytesSay(geo, free, FreeInodesFor(geo));
    forall g: nat | g < geo.groups ensures GroupFresh(img, geo, g) {
      assert DescWritten(img, geo, g) && MapsWritten(img, geo, g);
    }
  }

  /** All inodes but the ten reserved ones. */
  function FreeInodesFor(geo: Geo): nat {
    if geo.groups * geo.inodesPerGroup > 10 then geo.groups * geo.inodesPerGroup - 10 else 0
  }

  /** `format`: a partition of at least 4 MiB, below 4 GiB, whose last group holds its own overhead, becomes a
      fresh volume. */
  method Format(sectors: nat, disk: array<Block>) returns (ok: bool, sb: seq<byte>)
    requires sectors < 0x80_0000
    requires sectors >= 8192 ==> WfImage(disk[..], GeoFor(sectors)) && Splittable(GeoFor(sectors))
    modifies disk
    ensures ok == (sectors >= 8192)
    ensures ok ==> var geo := GeoFor(sectors);
                   Formattable(geo) && WfImage(disk[..], geo) && Laid(disk[..], geo, FreshLay(geo)) &&
                   geo.firstDataBlock < disk.Length && Fresh(disk[..], sb, geo) &&
                   |sb| == SB_SIZE && MountOf(sb) == Mounted(geo, BlocksPerGroup(geo))
    ensures !ok ==> disk[..] == old(disk[..])
  {
    hide Sized, LastGroupFits, FreshRoles, Fresh, BookWritten, RootWritten, SuperBytes, BlockSizeFor, GroupsFor, GeoFor,
      MountOf, HeadsWritten;
    if sectors < 8192 { return false, []; }
    GeoForIsOk(sectors);
    var geo := GeoFor(sectors);
    FreshIsLaid(disk[..], geo);
    var free := CountFree(geo);
    sb := SuperBytes(geo, free, FreeInodesFor(geo));
    WriteHeads(geo, disk, sb);
    WriteGroups(geo, disk, sb);
    WriteRoot(geo, disk, sb);
    assert WfImage(disk[..], geo) && Laid(disk[..], geo, FreshLay(geo)) by { BookIsLaid(disk[..], sb, geo); }
    FreshIsLaid(disk[..], geo);
    AllWritten(disk[..], sb, geo, free);
    VolumeBounds(geo);
    MountFresh(geo, free, FreeInodesFor(geo));
    ok := true;
  }

  lemma BookIsLaid(img: seq<Block>, sb: seq<byte>, geo: Geo)
    requires BookWritten(img, sb, geo)
    ensures Formattable(geo) && WfImage(img, geo) && Laid(img, geo, FreshLay(geo))
  {
    hide Sized, LastGroupFits, HeadsWritten, MapsWritten, Laid;
  }

  /** The last group is long enough to be formatted. */
  predicate Splittable(geo: Geo) {
    geo.blockSize > 0 && geo.groups > 0 && geo.firstDataBlock <= geo.totalBlocks && LastGroupFits(geo)
  }

  /** Where the inode table of group `g` ends. */
  function TableEnd(geo: Geo, g: nat): nat
    requires geo.blockSize > 0
  {
    LayOf(geo, g).it + TableBlocks(geo)
  }

  /** That is what `format` needs of a partition: otherwise, and only then, it writes an inode table past the end. */
  lemma FormatStaysInside(sectors: nat)
    requires 8192 <= sectors < 0x80_0000
    ensures Splittable(GeoFor(sectors)) <==>
            forall g: nat :: g < GeoFor(sectors).groups ==> TableEnd(GeoFor(sectors), g) <= GeoFor(sectors).totalBlocks
  {
    hide Sized, BlockSizeFor, GroupsFor, LastGroupFits, GeoFor, LayOf;
    GeoForIsOk(sectors);
    var geo := GeoFor(sectors);
    LastTable(geo);
    if Splittable(geo) {
      forall g: nat | g < geo.groups ensures TableEnd(geo, g) <= geo.totalBlocks { TableInside(geo, g); }
    }
  }

  lemma LastTable(geo: Geo)
    requires GeoOk(geo) && geo.inodesPerGroup == INODES_PER_GROUP && geo.inodeSize == INODE_SIZE &&
      geo.totalBlocks >= 4096
    requires geo.groups <= 32
    ensures LastGroupFits(geo) <==> TableEnd(geo, geo.groups - 1) <= geo.totalBlocks
  {
    if geo.groups > 1 { OverrunsUnlessFits(geo); }
  }

  lemma TableInside(geo: Geo, g: nat)
    requires GeoOk(geo) && geo.inodesPerGroup == INODES_PER_GROUP && geo.inodeSize == INODE_SIZE && geo.groups <= 32
    requires LastGroupFits(geo) && g < geo.groups
    ensures TableEnd(geo, g) <= geo.totalBlocks
  {
    hide LastGroupFits;
    ReservedFits(geo, g);
  }

  /** Such a partition: 16388 sectors make a second group of one block, whose table ends 257 blocks too late. */
  lemma FormatOverruns()
    ensures var geo := GeoFor(16388);
            geo.groups == 2 && geo.blockSize == 1024 && !Splittable(geo) && TableEnd(geo, 1) == geo.totalBlocks + 257
  {
    assert GroupsFor(1024, 8194) == 2;
  }

  /** `format`, then `mount`: the file system starts in order, with an empty root directory, and with exactly the
      formatted blocks in use. */
  method FormatAndMount(sectors: nat, disk: array<Block>) returns (fs: FileSystem)
    requires 8192 <= sectors < 0x80_0000 && WfImage(disk[..], GeoFor(sectors)) && Splittable(GeoFor(sectors))
    modifies disk
    ensures fs.Good() && fs.vol.disk == disk && fs.vol.geo == GeoFor(sectors) && fs.current == ROOT_INO
    ensures fs.Contents() == map[ROOT_INO := Dir(Dots(ROOT_INO, ROOT_INO))]
    ensures forall b: nat :: IsBlock(fs.vol.geo, b) ==>
              (Used(disk[..], fs.vol.geo, fs.vol.lay, b) <==> b in fs.vol.roles || b >= fs.vol.geo.totalBlocks)
  {
    hide Sized, LastGroupFits, FreshRoles, Fresh, BlockSizeFor, GroupsFor, GeoFor, MetaOk, LiveOk, TreeOf, Used,
      FreshLay;
    var ok, sb := Format(sectors, disk);
    var geo := MountOf(sb).geo;
    FreshMeta(disk[..], sb, geo);
    FreshTree(disk[..], sb, geo);
    var vol := new Volume(geo, disk, sb, FreshLay(geo), FreshRoles(geo));
    FreshTreeWf();
    fs := new FileSystem(vol, ROOT_INO, {ROOT_INO});
  }

  lemma FreshTreeWf()
    ensures TreeWf(map[ROOT_INO := Dir(Dots(ROOT_INO, ROOT_INO))])
  {
    var t: FsTree := map[ROOT_INO := Dir(Dots(ROOT_INO, ROOT_INO))];
    assert DirWf(t, ROOT_INO);
  }
}
