/** The bookkeeping of an ext2 volume: where descriptors and inodes lie, and how the bitmaps, the group
    descriptors and the superblock must agree. */
module Ext2Meta {
  import opened Bytes
  import opened Ext2Tree

  /** What `mount` computes from the superblock. */
  datatype Geo = Geo(blockSize: nat, groups: nat, inodesPerGroup: nat, inodeSize: nat,
                     firstDataBlock: nat, totalBlocks: nat, firstIno: nat)

  /** Where a group's bitmaps and inode table lie; the descriptor says so, and it never changes. */
  datatype GroupLay = GroupLay(bb: nat, ib: nat, it: nat)

  const BGD_SIZE: nat := 32
  const SB_SIZE: nat := 1024

  function BlocksPerGroup(geo: Geo): nat { 8 * geo.blockSize }
  function PtrsPerBlock(geo: Geo): nat { geo.blockSize / 4 }

  predicate GeoOk(geo: Geo) {
    (geo.blockSize == 1024 || geo.blockSize == 2048 || geo.blockSize == 4096) &&
    geo.firstDataBlock == (if geo.blockSize == 1024 then 1 else 0) &&
    0 < geo.groups && 0 < geo.inodesPerGroup <= 8 * geo.blockSize &&
    128 <= geo.inodeSize && geo.blockSize % geo.inodeSize == 0 &&
    0 < geo.firstIno <= geo.inodesPerGroup && Sized(geo)
  }

  /** The groups cover the volume, the last one maybe in part, and the volume is at most 4 GiB. */
  predicate Sized(geo: Geo) {
    geo.firstDataBlock + (geo.groups - 1) * BlocksPerGroup(geo) < geo.totalBlocks <=
      geo.firstDataBlock + geo.groups * BlocksPerGroup(geo) &&
    geo.totalBlocks * geo.blockSize <= TWO_32
  }

  lemma BlockNumbersFit(geo: Geo)
    requires GeoOk(geo)
    ensures geo.totalBlocks < TWO_32
  {
    MulMonotone(1024, geo.blockSize, geo.totalBlocks);
  }

  // ---------------------------------------------------------------- records in a run of blocks

  function RecBlock(start: nat, bs: nat, size: nat, k: nat): nat
    requires bs > 0
  {
    start + k * size / bs
  }

  function RecOff(bs: nat, size: nat, k: nat): nat
    requires bs > 0
  {
    k * size % bs
  }

  lemma DivModUnique(x: nat, q: nat, r: nat, d: nat)
    requires d > 0 && x == q * d + r && r < d
    ensures x / d == q && x % d == r
  {
    if x / d < q { MulMonotone(x / d + 1, q, d); } else if x / d > q { MulMonotone(q + 1, x / d, d); }
  }

  lemma Exact(x: nat, d: nat) returns (m: nat)
    requires d > 0 && x > 0 && x % d == 0
    ensures m > 0 && x == m * d
  {
    m := x / d;
  }

  /** With `m` records to a block, record `q * m + r` is record `r` of block `q`. */
  lemma RecordPlace(bs: nat, size: nat, m: nat, q: nat, r: nat)
    requires size > 0 && m > 0 && bs == m * size && r < m
    ensures bs > 0
    ensures RecBlock(0, bs, size, q * m + r) == q && RecOff(bs, size, q * m + r) == r * size
    ensures r * size + size <= bs
  {
    var k := q * m + r;
    MulMonotone(r + 1, m, size);
    assert (r + 1) * size == r * size + size;
    assert k * size == q * bs + r * size by { Regroup(q, m, r, size); }
    DivModUnique(k * size, q, r * size, bs);
  }

  lemma Regroup(q: nat, m: nat, r: nat, size: nat)
    ensures (q * m + r) * size == q * (m * size) + r * size
  {}

  lemma SplitIndex(k: nat, m: nat) returns (q: nat, r: nat)
    requires m > 0
    ensures k == q * m + r && r < m
  {
    q, r := k / m, k % m;
  }

  /** Every record lies inside its block, and different records never overlap. */
  lemma RecordsApart(bs: nat, size: nat, j: nat, k: nat)
    requires size > 0 && bs > 0 && bs % size == 0
    ensures RecOff(bs, size, j) + size <= bs && RecOff(bs, size, k) + size <= bs
    ensures j == k || RecBlock(0, bs, size, j) != RecBlock(0, bs, size, k) ||
            RecOff(bs, size, j) + size <= RecOff(bs, size, k) || RecOff(bs, size, k) + size <= RecOff(bs, size, j)
  {
    hide RecBlock, RecOff;
    var m := Exact(bs, size);
    var q, a := SplitIndex(j, m);
    var r, b := SplitIndex(k, m);
    RecordPlace(bs, size, m, q, a);
    RecordPlace(bs, size, m, r, b);
    if a < b { NextSlot(a, b, size); } else if b < a { NextSlot(b, a, size); }
  }

  lemma NextSlot(a: nat, b: nat, size: nat)
    requires a < b
    ensures a * size + size <= b * size
  {
    MulMonotone(a + 1, b, size);
    assert (a + 1) * size == a * size + size;
  }

  /** The number of blocks that `n` records take. */
  function RunLength(bs: nat, size: nat, n: nat): nat
    requires bs > 0
  {
    (n * size + bs - 1) / bs
  }

  lemma RecordInRun(bs: nat, size: nat, k: nat, n: nat)
    requires size > 0 && bs > 0 && bs % size == 0 && k < n
    ensures RecBlock(0, bs, size, k) < RunLength(bs, size, n)
  {
    NextSlot(k, n, size);
    BelowCeiling(k * size, n * size, bs);
  }

  lemma BelowCeiling(x: nat, y: nat, d: nat)
    requires d > 0 && x < y
    ensures x / d < (y + d - 1) / d
  {
    var q, c := x / d, (y + d - 1) / d;
    assert q * d <= x && y + d - 1 < c * d + d by { DivBounds(x, d); DivBounds(y + d - 1, d); }
    if c <= q { MulMonotone(c, q, d); }
  }

  lemma DivBounds(x: nat, d: nat)
    requires d > 0
    ensures x / d * d <= x < x / d * d + d
  {}

  function Record(img: seq<Block>, start: nat, bs: nat, size: nat, n: nat, k: nat): (r: seq<byte>)
    requires bs > 0 && RecBlock(start, bs, size, k) < |img| &&
             RecOff(bs, size, k) + n <= |img[RecBlock(start, bs, size, k)]|
    ensures |r| == n
  {
    var off := RecOff(bs, size, k);
    img[RecBlock(start, bs, size, k)][off..off + n]
  }

  function WithRecord(img: seq<Block>, start: nat, bs: nat, size: nat, k: nat, r: seq<byte>): (img': seq<Block>)
    requires bs > 0 && RecBlock(start, bs, size, k) < |img| &&
             RecOff(bs, size, k) + |r| <= |img[RecBlock(start, bs, size, k)]|
    ensures |img'| == |img|
  {
    var b := RecBlock(start, bs, size, k);
    img[b := Patch(img[b], RecOff(bs, size, k), r)]
  }

  /** A written record is read back, and the other records stay. */
  lemma WithRecordRecords(img: seq<Block>, start: nat, bs: nat, size: nat, k: nat, r: seq<byte>, j: nat)
    requires size > 0 && bs > 0 && bs % size == 0 && |r| <= size
    requires forall b :: 0 <= b < |img| ==> |img[b]| == bs
    requires RecBlock(start, bs, size, k) < |img| && RecBlock(start, bs, size, j) < |img|
    ensures RecOff(bs, size, k) + size <= bs && RecOff(bs, size, j) + size <= bs
    ensures Record(WithRecord(img, start, bs, size, k, r), start, bs, size, |r|, j) ==
            if j == k then r else Record(img, start, bs, size, |r|, j)
  {
    RecordsApart(bs, size, j, k);
    var b := RecBlock(start, bs, size, k);
    PatchWindow(img[b], RecOff(bs, size, k), r, RecOff(bs, size, j), |r|);
  }

  // ---------------------------------------------------------------- the metadata blocks

  function DescBlock(geo: Geo, g: nat): nat
    requires geo.blockSize > 0
  {
    RecBlock(geo.firstDataBlock + 1, geo.blockSize, BGD_SIZE, g)
  }

  function DescBlocks(geo: Geo): nat
    requires geo.blockSize > 0
  {
    RunLength(geo.blockSize, BGD_SIZE, geo.groups)
  }

  function TableBlocks(geo: Geo): nat
    requires geo.blockSize > 0
  {
    RunLength(geo.blockSize, geo.inodeSize, geo.inodesPerGroup)
  }

  /** The superblock is the second kilobyte of the partition. */
  function SuperOff(geo: Geo): nat { if geo.blockSize == 1024 then 0 else 1024 }

  ghost predicate HasRole(roles: map<nat, Role>, b: nat, r: Role) {
    b in roles && roles[b] == r
  }

  /** Superblock, descriptors, bitmaps and inode tables have their own blocks inside the volume. */
  ghost predicate LayoutOk(geo: Geo, lay: seq<GroupLay>, roles: map<nat, Role>)
    requires geo.blockSize > 0
  {
    |lay| == geo.groups &&
    (forall b :: b in roles ==> geo.firstDataBlock <= b < geo.totalBlocks) &&
    HasRole(roles, geo.firstDataBlock, Super) &&
    (forall i: nat :: i < DescBlocks(geo) ==> HasRole(roles, geo.firstDataBlock + 1 + i, Descriptors(i))) &&
    (forall g: nat :: g < geo.groups ==> GroupPlaced(geo, lay[g], g, roles))
  }

  ghost predicate GroupPlaced(geo: Geo, l: GroupLay, g: nat, roles: map<nat, Role>)
    requires geo.blockSize > 0
  {
    HasRole(roles, l.bb, BlockBitmap(g)) && HasRole(roles, l.ib, InodeBitmap(g)) &&
    forall j: nat :: j < TableBlocks(geo) ==> HasRole(roles, l.it + j, InodeTable(g, j))
  }

  ghost predicate WfImage(img: seq<Block>, geo: Geo) {
    |img| == geo.totalBlocks && forall b :: 0 <= b < |img| ==> |img[b]| == geo.blockSize
  }

  ghost predicate InVolume(geo: Geo, l: GroupLay, g: nat)
    requires geo.blockSize > 0
  {
    l.bb < geo.totalBlocks && l.ib < geo.totalBlocks && l.it + TableBlocks(geo) <= geo.totalBlocks &&
    DescBlock(geo, g) < geo.totalBlocks
  }

  /** The image has the volume's shape, and every group's bitmaps and descriptor are in it. */
  ghost predicate Laid(img: seq<Block>, geo: Geo, lay: seq<GroupLay>) {
    GeoOk(geo) && WfImage(img, geo) && |lay| == geo.groups &&
    forall g: nat :: g < geo.groups ==> InVolume(geo, lay[g], g)
  }

  lemma LayoutIsLaid(img: seq<Block>, geo: Geo, lay: seq<GroupLay>, roles: map<nat, Role>)
    requires GeoOk(geo) && WfImage(img, geo) && LayoutOk(geo, lay, roles)
    ensures Laid(img, geo, lay)
  {
    forall g: nat | g < geo.groups ensures InVolume(geo, lay[g], g) {
      DescPlace(geo, lay, roles, g);
      assert GroupPlaced(geo, lay[g], g, roles);
      RecordInRun(geo.blockSize, geo.inodeSize, 0, geo.inodesPerGroup);
      assert HasRole(roles, lay[g].it + (TableBlocks(geo) - 1), InodeTable(g, TableBlocks(geo) - 1));
    }
  }

  lemma DescPlace(geo: Geo, lay: seq<GroupLay>, roles: map<nat, Role>, g: nat)
    requires GeoOk(geo) && LayoutOk(geo, lay, roles) && g < geo.groups
    ensures HasRole(roles, DescBlock(geo, g), Descriptors(RecBlock(0, geo.blockSize, BGD_SIZE, g)))
    ensures DescBlock(geo, g) < geo.totalBlocks && RecOff(geo.blockSize, BGD_SIZE, g) + BGD_SIZE <= geo.blockSize
  {
    assert geo.blockSize % BGD_SIZE == 0;
    RecordsApart(geo.blockSize, BGD_SIZE, g, g);
    RecordInRun(geo.blockSize, BGD_SIZE, g, geo.groups);
    assert HasRole(roles, geo.firstDataBlock + 1 + RecBlock(0, geo.blockSize, BGD_SIZE, g),
                   Descriptors(RecBlock(0, geo.blockSize, BGD_SIZE, g)));
  }

  /** The group descriptor, as the 32 bytes on the disk. */
  ghost function Desc(img: seq<Block>, geo: Geo, g: nat): (d: seq<byte>)
    requires GeoOk(geo) && WfImage(img, geo) && DescBlock(geo, g) < |img|
    ensures |d| == BGD_SIZE
  {
    assert geo.blockSize % BGD_SIZE == 0;
    RecordsApart(geo.blockSize, BGD_SIZE, g, g);
    Record(img, geo.firstDataBlock + 1, geo.blockSize, BGD_SIZE, BGD_SIZE, g)
  }

  function BlockBitmapOf(d: seq<byte>): nat requires |d| == BGD_SIZE { GetU32(d, 0) }
  function InodeBitmapOf(d: seq<byte>): nat requires |d| == BGD_SIZE { GetU32(d, 4) }
  function InodeTableOf(d: seq<byte>): nat requires |d| == BGD_SIZE { GetU32(d, 8) }
  function FreeBlocksOf(d: seq<byte>): nat requires |d| == BGD_SIZE { GetU16(d, 12) }
  function FreeInodesOf(d: seq<byte>): nat requires |d| == BGD_SIZE { GetU16(d, 14) }
  function UsedDirsOf(d: seq<byte>): nat requires |d| == BGD_SIZE { GetU16(d, 16) }

  function InodesCount(sb: seq<byte>): nat requires |sb| == SB_SIZE { GetU32(sb, 0) }
  function FreeBlocksCount(sb: seq<byte>): nat requires |sb| == SB_SIZE { GetU32(sb, 12) }
  function FreeInodesCount(sb: seq<byte>): nat requires |sb| == SB_SIZE { GetU32(sb, 16) }
  function FirstIno(sb: seq<byte>): nat requires |sb| == SB_SIZE { GetU32(sb, 84) }

  /** A group's descriptor points at its bitmaps and its counters are the numbers of clear bits. */
  ghost predicate GroupOk(img: seq<Block>, geo: Geo, lay: seq<GroupLay>, g: nat)
    requires Laid(img, geo, lay) && g < geo.groups
  {
    assert InVolume(geo, lay[g], g);
    var d := Desc(img, geo, g);
    BlockBitmapOf(d) == lay[g].bb && InodeBitmapOf(d) == lay[g].ib && InodeTableOf(d) == lay[g].it &&
    FreeBlocksOf(d) == ClearCount(img[lay[g].bb], BlocksPerGroup(geo)) &&
    FreeInodesOf(d) == ClearCount(img[lay[g].ib], geo.inodesPerGroup)
  }

  /** Clear bits of the first `n` block bitmaps, and of the first `n` inode bitmaps. */
  ghost function ClearBlocks(img: seq<Block>, geo: Geo, lay: seq<GroupLay>, n: nat): nat
    requires Laid(img, geo, lay) && n <= geo.groups
  {
    if n == 0 then 0
    else
      assert InVolume(geo, lay[n - 1], n - 1);
      ClearBlocks(img, geo, lay, n - 1) + ClearCount(img[lay[n - 1].bb], BlocksPerGroup(geo))
  }

  ghost function ClearInodes(img: seq<Block>, geo: Geo, lay: seq<GroupLay>, n: nat): nat
    requires Laid(img, geo, lay) && n <= geo.groups
  {
    if n == 0 then 0
    else
      assert InVolume(geo, lay[n - 1], n - 1);
      ClearInodes(img, geo, lay, n - 1) + ClearCount(img[lay[n - 1].ib], geo.inodesPerGroup)
  }

  // ---------------------------------------------------------------- block and inode numbers

  function BlockNumber(geo: Geo, g: nat, idx: nat): nat {
    g * BlocksPerGroup(geo) + idx + geo.firstDataBlock
  }

  /** A block number that some bit of a block bitmap stands for. */
  predicate IsBlock(geo: Geo, b: nat) {
    geo.firstDataBlock <= b < geo.firstDataBlock + geo.groups * BlocksPerGroup(geo)
  }

  function GroupOfBlock(geo: Geo, b: nat): nat
    requires geo.blockSize > 0 && b >= geo.firstDataBlock
  {
    Quot(b - geo.firstDataBlock, BlocksPerGroup(geo))
  }

  function IndexOfBlock(geo: Geo, b: nat): nat
    requires geo.blockSize > 0 && b >= geo.firstDataBlock
  {
    Rem(b - geo.firstDataBlock, BlocksPerGroup(geo))
  }

  lemma BlockNumbering(geo: Geo, g: nat, idx: nat)
    requires geo.blockSize > 0 && idx < BlocksPerGroup(geo)
    ensures GroupOfBlock(geo, BlockNumber(geo, g, idx)) == g && IndexOfBlock(geo, BlockNumber(geo, g, idx)) == idx
  {
    DivModUnique(g * BlocksPerGroup(geo) + idx, g, idx, BlocksPerGroup(geo));
  }

  lemma BlockIsNumbered(geo: Geo, b: nat)
    requires GeoOk(geo) && IsBlock(geo, b)
    ensures GroupOfBlock(geo, b) < geo.groups && IndexOfBlock(geo, b) < BlocksPerGroup(geo)
    ensures BlockNumber(geo, GroupOfBlock(geo, b), IndexOfBlock(geo, b)) == b
  {
    hide Sized;
    var x, d := b - geo.firstDataBlock, BlocksPerGroup(geo);
    DivBounds(x, d);
    if x / d >= geo.groups { MulMonotone(geo.groups, x / d, d); }
  }

  /** The block bitmap says block `b` is taken. */
  ghost predicate Used(img: seq<Block>, geo: Geo, lay: seq<GroupLay>, b: nat)
    requires Laid(img, geo, lay)
    requires IsBlock(geo, b)
  {
    BlockIsNumbered(geo, b);
    assert InVolume(geo, lay[GroupOfBlock(geo, b)], GroupOfBlock(geo, b));
    Bit(img[lay[GroupOfBlock(geo, b)].bb], IndexOfBlock(geo, b))
  }

  function GroupOfInode(geo: Geo, ino: nat): nat
    requires geo.inodesPerGroup > 0 && ino > 0
  {
    Quot(ino - 1, geo.inodesPerGroup)
  }

  function IndexOfInode(geo: Geo, ino: nat): nat
    requires geo.inodesPerGroup > 0 && ino > 0
  {
    Rem(ino - 1, geo.inodesPerGroup)
  }

  function InodeNumber(geo: Geo, g: nat, idx: nat): nat {
    g * geo.inodesPerGroup + idx + 1
  }

  predicate IsInode(geo: Geo, ino: nat) {
    0 < ino <= geo.groups * geo.inodesPerGroup
  }

  lemma InodeNumbering(geo: Geo, g: nat, idx: nat)
    requires idx < geo.inodesPerGroup && g < geo.groups
    ensures IsInode(geo, InodeNumber(geo, g, idx))
    ensures GroupOfInode(geo, InodeNumber(geo, g, idx)) == g && IndexOfInode(geo, InodeNumber(geo, g, idx)) == idx
  {
    DivModUnique(g * geo.inodesPerGroup + idx, g, idx, geo.inodesPerGroup);
    NextSlot(g, geo.groups, geo.inodesPerGroup);
  }

  lemma InodeIsNumbered(geo: Geo, ino: nat)
    requires GeoOk(geo) && IsInode(geo, ino)
    ensures GroupOfInode(geo, ino) < geo.groups && IndexOfInode(geo, ino) < geo.inodesPerGroup
    ensures InodeNumber(geo, GroupOfInode(geo, ino), IndexOfInode(geo, ino)) == ino
  {
    hide Sized;
    var x, d := ino - 1, geo.inodesPerGroup;
    DivBounds(x, d);
    if x / d >= geo.groups { MulMonotone(geo.groups, x / d, d); }
  }

  ghost predicate UsedInode(img: seq<Block>, geo: Geo, lay: seq<GroupLay>, ino: nat)
    requires Laid(img, geo, lay) && IsInode(geo, ino)
  {
    InodeIsNumbered(geo, ino);
    assert InVolume(geo, lay[GroupOfInode(geo, ino)], GroupOfInode(geo, ino));
    Bit(img[lay[GroupOfInode(geo, ino)].ib], IndexOfInode(geo, ino))
  }

  // ---------------------------------------------------------------- inodes on the disk

  function TableBlock(geo: Geo, lay: seq<GroupLay>, ino: nat): nat
    requires GeoOk(geo) && |lay| == geo.groups && IsInode(geo, ino)
  {
    InodeIsNumbered(geo, ino);
    RecBlock(lay[GroupOfInode(geo, ino)].it, geo.blockSize, geo.inodeSize, IndexOfInode(geo, ino))
  }

  lemma InodePlace(geo: Geo, lay: seq<GroupLay>, ino: nat)
    requires GeoOk(geo) && |lay| == geo.groups && IsInode(geo, ino)
    requires forall g: nat :: g < geo.groups ==> InVolume(geo, lay[g], g)
    ensures TableBlock(geo, lay, ino) < geo.totalBlocks
    ensures RecOff(geo.blockSize, geo.inodeSize, IndexOfInode(geo, ino)) + geo.inodeSize <= geo.blockSize
  {
    hide Sized;
    InodeIsNumbered(geo, ino);
    var k := IndexOfInode(geo, ino);
    assert InVolume(geo, lay[GroupOfInode(geo, ino)], GroupOfInode(geo, ino));
    RecordInRun(geo.blockSize, geo.inodeSize, k, geo.inodesPerGroup);
    RecordsApart(geo.blockSize, geo.inodeSize, k, k);
  }

  /** The 128 bytes of inode `ino` in its group's table. */
  ghost function Slot(img: seq<Block>, geo: Geo, lay: seq<GroupLay>, ino: nat): Inode
    requires Laid(img, geo, lay) && IsInode(geo, ino)
  {
    InodePlace(geo, lay, ino);
    InodeIsNumbered(geo, ino);
    Record(img, lay[GroupOfInode(geo, ino)].it, geo.blockSize, geo.inodeSize, 128, IndexOfInode(geo, ino))
  }

  ghost function WithInode(img: seq<Block>, geo: Geo, lay: seq<GroupLay>, ino: nat, inode: Inode): (img': seq<Block>)
    requires Laid(img, geo, lay) && IsInode(geo, ino)
    ensures WfImage(img', geo)
  {
    InodePlace(geo, lay, ino);
    InodeIsNumbered(geo, ino);
    WithRecord(img, lay[GroupOfInode(geo, ino)].it, geo.blockSize, geo.inodeSize, IndexOfInode(geo, ino), inode)
  }

  lemma TableRole(geo: Geo, lay: seq<GroupLay>, roles: map<nat, Role>, ino: nat)
    requires GeoOk(geo) && LayoutOk(geo, lay, roles) && IsInode(geo, ino)
    ensures HasRole(roles, TableBlock(geo, lay, ino),
                    InodeTable(GroupOfInode(geo, ino), RecBlock(0, geo.blockSize, geo.inodeSize,
                      IndexOfInode(geo, ino))))
  {
    hide Sized;
    InodeIsNumbered(geo, ino);
    var g, k := GroupOfInode(geo, ino), IndexOfInode(geo, ino);
    RecordInRun(geo.blockSize, geo.inodeSize, k, geo.inodesPerGroup);
    assert GroupPlaced(geo, lay[g], g, roles);
    var j := RecBlock(0, geo.blockSize, geo.inodeSize, k);
    assert HasRole(roles, lay[g].it + j, InodeTable(g, j));
  }

  /** A written inode is read back, and every other inode of every group stays. */
  lemma WithInodeSlots(img: seq<Block>, geo: Geo, lay: seq<GroupLay>, roles: map<nat, Role>, ino: nat, inode: Inode,
      j: nat)
    requires Laid(img, geo, lay) && LayoutOk(geo, lay, roles) && IsInode(geo, ino) && IsInode(geo, j)
    ensures Laid(WithInode(img, geo, lay, ino, inode), geo, lay)
    ensures Slot(WithInode(img, geo, lay, ino, inode), geo, lay, j) == if j == ino then inode
      else Slot(img, geo, lay, j)
  {
    hide Sized, InVolume, GroupPlaced;
    TableRole(geo, lay, roles, ino);
    TableRole(geo, lay, roles, j);
    InodeIsNumbered(geo, ino);
    InodeIsNumbered(geo, j);
    InodePlace(geo, lay, ino);
    InodePlace(geo, lay, j);
    var g := GroupOfInode(geo, ino);
    if GroupOfInode(geo, j) == g {
      WithRecordRecords(img, lay[g].it, geo.blockSize, geo.inodeSize, IndexOfInode(geo, ino), inode,
        IndexOfInode(geo, j));
    }
  }

  // ---------------------------------------------------------------- the invariant

  ghost predicate SuperOk(img: seq<Block>, sb: seq<byte>, geo: Geo, lay: seq<GroupLay>)
    requires Laid(img, geo, lay)
  {
    |sb| == SB_SIZE && InodesCount(sb) == geo.groups * geo.inodesPerGroup && FirstIno(sb) == geo.firstIno &&
    FreeBlocksCount(sb) == ClearBlocks(img, geo, lay, geo.groups) &&
    FreeInodesCount(sb) == ClearInodes(img, geo, lay, geo.groups) &&
    img[geo.firstDataBlock][SuperOff(geo)..SuperOff(geo) + SB_SIZE] == sb
  }

  /** Blocks with a role are taken, and so are the bits past the end of the volume. */
  ghost predicate UsedOk(img: seq<Block>, geo: Geo, lay: seq<GroupLay>, roles: map<nat, Role>)
    requires Laid(img, geo, lay)
  {
    forall b: nat :: IsBlock(geo, b) && (b in roles || b >= geo.totalBlocks) ==> Used(img, geo, lay, b)
  }

  /** The reserved inodes are taken. */
  ghost predicate ReservedOk(img: seq<Block>, geo: Geo, lay: seq<GroupLay>)
    requires Laid(img, geo, lay)
  {
    forall ino: nat :: 0 < ino < geo.firstIno && IsInode(geo, ino) ==> UsedInode(img, geo, lay, ino)
  }

  ghost predicate MetaOk(img: seq<Block>, sb: seq<byte>, geo: Geo, lay: seq<GroupLay>, roles: map<nat, Role>) {
    Laid(img, geo, lay) && LayoutOk(geo, lay, roles) &&
    (forall g: nat :: g < geo.groups ==> GroupOk(img, geo, lay, g)) &&
    SuperOk(img, sb, geo, lay) && UsedOk(img, geo, lay, roles) && ReservedOk(img, geo, lay)
  }
}
