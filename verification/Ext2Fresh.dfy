/** A freshly formatted volume: what `format` must have written for the bookkeeping to agree, and why it then
    does. */
module Ext2Fresh {
  import opened Bytes
  import opened Ext2Tree
  import opened Ext2Meta
  import opened Ext2Grow
  import opened Ext2Names
  import opened Ext2State
  import opened Ext2DirFacts
  import opened Ext2Layout
  import opened Ext2Paths

  /** The geometries `format` makes. */
  predicate Formattable(geo: Geo) {
    GeoOk(geo) && geo.inodesPerGroup == INODES_PER_GROUP && geo.inodeSize == INODE_SIZE && geo.firstIno == FIRST_INO &&
    geo.groups <= 32 && LastGroupFits(geo)
  }

  // ---------------------------------------------------------------- bitmaps and counters

  predicate BlockBits(bm: seq<byte>, geo: Geo, g: nat)
    requires geo.blockSize > 0 && geo.firstDataBlock <= geo.totalBlocks && BlocksPerGroup(geo) <= 8 * |bm|
  {
    forall i: nat :: i < BlocksPerGroup(geo) ==> (Bit(bm, i) <==> i < Reserved(geo, g) || i >= BlocksIn(geo, g))
  }

  predicate InodeBits(bm: seq<byte>, geo: Geo, g: nat)
    requires geo.inodesPerGroup <= 8 * |bm|
  {
    forall i: nat :: i < geo.inodesPerGroup ==> (Bit(bm, i) <==> g == 0 && i < FIRST_INO - 1)
  }

  function FreeIn(geo: Geo, g: nat): int
    requires geo.blockSize > 0 && geo.firstDataBlock <= geo.totalBlocks
  {
    BlocksIn(geo, g) - Reserved(geo, g)
  }

  function FreeInodesIn(geo: Geo, g: nat): nat {
      if g == 0 then INODES_PER_GROUP - (FIRST_INO - 1) else INODES_PER_GROUP }

  /** Free blocks and inodes of the first `n` groups. */
  function FreeSum(geo: Geo, n: nat): int
    requires geo.blockSize > 0 && geo.firstDataBlock <= geo.totalBlocks
  {
    if n == 0 then 0 else FreeSum(geo, n - 1) + FreeIn(geo, n - 1)
  }

  predicate DescIs(d: seq<byte>, geo: Geo, g: nat)
    requires geo.blockSize > 0 && geo.firstDataBlock <= geo.totalBlocks
  {
    |d| == BGD_SIZE && var l := LayOf(geo, g);
    BlockBitmapOf(d) == l.bb && InodeBitmapOf(d) == l.ib && InodeTableOf(d) == l.it &&
    FreeBlocksOf(d) == FreeIn(geo, g) && FreeInodesOf(d) == FreeInodesIn(geo, g)
  }

  lemma {:induction false} ClearRun(bm: seq<byte>, lo: nat, hi: nat, n: nat)
    requires n <= 8 * |bm| && lo <= hi
    requires forall i: nat :: i < n ==> (Bit(bm, i) <==> i < lo || i >= hi)
    ensures ClearCount(bm, n) == if n <= lo then 0 else if n <= hi then n - lo else hi - lo
  {
    hide Bit;
    if n > 0 { ClearRun(bm, lo, hi, n - 1); }
  }

  // ---------------------------------------------------------------- the volume

  ghost predicate GroupFresh(img: seq<Block>, geo: Geo, g: nat)
    requires geo.blockSize > 0 && geo.firstDataBlock <= geo.totalBlocks && Laid(img, geo, FreshLay(geo)) &&
      g < geo.groups
  {
    var l := FreshLay(geo)[g];
    assert InVolume(geo, l, g);
    DescIs(Desc(img, geo, g), geo, g) && BlockBits(img[l.bb], geo, g) && InodeBits(img[l.ib], geo, g)
  }

  ghost predicate SuperFresh(img: seq<Block>, sb: seq<byte>, geo: Geo)
    requires geo.blockSize > 0 && Laid(img, geo, FreshLay(geo)) && geo.firstDataBlock < |img|
  {
    |sb| == SB_SIZE && InodesCount(sb) == geo.groups * INODES_PER_GROUP && FirstIno(sb) == FIRST_INO &&
    FreeBlocksCount(sb) == FreeSum(geo, geo.groups) &&
      FreeInodesCount(sb) == geo.groups * INODES_PER_GROUP - (FIRST_INO - 1) &&
    img[geo.firstDataBlock][SuperOff(geo)..SuperOff(geo) + SB_SIZE] == sb
  }

  /** Mode 040755, two links, one block. */
  function RootInode(geo: Geo): Inode
    requires geo.blockSize > 0
  {
    WithSlot(WithSectors(WithSize(NewInode(0x41ED, 2), geo.blockSize), geo.blockSize / 512), 0, RootBlock(geo))
  }

  ghost predicate Fresh(img: seq<Block>, sb: seq<byte>, geo: Geo)
    requires geo.blockSize > 0 && Laid(img, geo, FreshLay(geo)) && geo.firstDataBlock < |img|
  {
    SuperFresh(img, sb, geo) && (forall g: nat :: g < geo.groups ==> GroupFresh(img, geo, g)) &&
    IsInode(geo, ROOT_INO) && Slot(img, geo, FreshLay(geo), ROOT_INO) == RootInode(geo) &&
    RootBlock(geo) < |img| && img[RootBlock(geo)][..22] == DotBytes(ROOT_INO, ROOT_INO, geo.blockSize)
  }

  lemma FreshIsLaid(img: seq<Block>, geo: Geo)
    requires Formattable(geo) && WfImage(img, geo)
    ensures Laid(img, geo, FreshLay(geo)) && LayoutOk(geo, FreshLay(geo), FreshRoles(geo)) && geo.firstDataBlock < |img|
    ensures HasRole(FreshRoles(geo), RootBlock(geo), Tree(ROOT_INO, [0])) && RootBlock(geo) < |img|
  {
    hide Sized, LastGroupFits;
    FreshLayoutOk(geo);
    LayoutIsLaid(img, geo, FreshLay(geo), FreshRoles(geo));
    assert HasRole(FreshRoles(geo), geo.firstDataBlock, Super);
  }

  /** One group: its counters are the numbers of clear bits. */
  lemma GroupCounts(img: seq<Block>, geo: Geo, g: nat)
    requires Formattable(geo) && Laid(img, geo, FreshLay(geo)) && g < geo.groups && GroupFresh(img, geo, g)
    ensures InVolume(geo, FreshLay(geo)[g], g)
    ensures ClearCount(img[LayOf(geo, g).bb], BlocksPerGroup(geo)) == FreeIn(geo, g)
    ensures ClearCount(img[LayOf(geo, g).ib], geo.inodesPerGroup) == FreeInodesIn(geo, g)
    ensures GroupOk(img, geo, FreshLay(geo), g)
  {
    hide Sized, Bit, ClearCount, GetU16, GetU32, Desc, LastGroupFits;
    ReservedFits(geo, g);
    assert InVolume(geo, FreshLay(geo)[g], g);
    ClearRun(img[LayOf(geo, g).bb], Reserved(geo, g), BlocksIn(geo, g), BlocksPerGroup(geo));
    ClearRun(img[LayOf(geo, g).ib], if g == 0 then FIRST_INO - 1 else 0, geo.inodesPerGroup, geo.inodesPerGroup);
  }

  lemma {:induction false} SumCounts(img: seq<Block>, geo: Geo, n: nat)
    requires Formattable(geo) && Laid(img, geo, FreshLay(geo)) && n <= geo.groups
    requires forall g: nat :: g < n ==> GroupFresh(img, geo, g)
    ensures ClearBlocks(img, geo, FreshLay(geo), n) == FreeSum(geo, n)
    ensures ClearInodes(img, geo, FreshLay(geo), n) == if n == 0 then 0 else n * INODES_PER_GROUP - (FIRST_INO - 1)
  {
    hide Sized, ClearCount, GroupFresh, LastGroupFits;
    if n > 0 {
      SumCounts(img, geo, n - 1);
      GroupCounts(img, geo, n - 1);
    }
  }

  /** The block bitmaps mark the reserved blocks, the root directory's block and the tail of the last group, and
      nothing else. */
  lemma FreshUsed(img: seq<Block>, geo: Geo, b: nat)
    requires Formattable(geo) && Laid(img, geo, FreshLay(geo)) && IsBlock(geo, b)
    requires forall g: nat :: g < geo.groups ==> GroupFresh(img, geo, g)
    ensures Used(img, geo, FreshLay(geo), b) <==> b in FreshRoles(geo) || b >= geo.totalBlocks
  {
    hide Sized, Bit, Desc, Kind, DescIs, LastGroupFits;
    BlockIsNumbered(geo, b);
    var g, i := GroupOfBlock(geo, b), IndexOfBlock(geo, b);
    ReservedFits(geo, g);
    assert InVolume(geo, FreshLay(geo)[g], g);
    assert GroupFresh(img, geo, g);
    PastEnd(geo, g, i);
  }

  /** A block is past the end of the volume exactly when its index is past its group's blocks. */
  lemma PastEnd(geo: Geo, g: nat, i: nat)
    requires Formattable(geo) && g < geo.groups && i < BlocksPerGroup(geo)
    ensures BlockNumber(geo, g, i) >= geo.totalBlocks <==> i >= BlocksIn(geo, g)
  {
    hide Reserved;
    if g < geo.groups - 1 { NextSlot(g, geo.groups - 1, BlocksPerGroup(geo)); }
  }

  lemma FreshUsedInodes(img: seq<Block>, geo: Geo, ino: nat)
    requires Formattable(geo) && Laid(img, geo, FreshLay(geo)) && IsInode(geo, ino)
    requires forall g: nat :: g < geo.groups ==> GroupFresh(img, geo, g)
    ensures UsedInode(img, geo, FreshLay(geo), ino) <==> ino < FIRST_INO
  {
    hide Sized, Bit, Desc, DescIs, BlockBits, LastGroupFits;
    InodeIsNumbered(geo, ino);
    var g := GroupOfInode(geo, ino);
    assert InVolume(geo, FreshLay(geo)[g], g);
    assert GroupFresh(img, geo, g);
    FirstGroupInodes(geo, g, IndexOfInode(geo, ino));
  }

  lemma FirstGroupInodes(geo: Geo, g: nat, i: nat)
    requires geo.inodesPerGroup == INODES_PER_GROUP && i < geo.inodesPerGroup
    ensures InodeNumber(geo, g, i) < FIRST_INO <==> g == 0 && i < FIRST_INO - 1
  {
    if g > 0 { MulMonotone(1, g, geo.inodesPerGroup); }
  }

  /** Formatting establishes the invariant: the bookkeeping agrees, and the bitmaps mark exactly what is in
      use. */
  lemma FreshMeta(img: seq<Block>, sb: seq<byte>, geo: Geo)
    requires Formattable(geo) && WfImage(img, geo) && Laid(img, geo, FreshLay(geo)) && geo.firstDataBlock < |img|
    requires Fresh(img, sb, geo)
    ensures MetaOk(img, sb, geo, FreshLay(geo), FreshRoles(geo))
    ensures forall b: nat :: IsBlock(geo, b) ==>
              (Used(img, geo, FreshLay(geo), b) <==> b in FreshRoles(geo) || b >= geo.totalBlocks)
    ensures forall ino: nat :: IsInode(geo, ino) ==> (UsedInode(img, geo, FreshLay(geo), ino) <==> ino < FIRST_INO)
  {
    hide Sized, Used, UsedInode, GroupFresh, GetU32, FreshRoles, LayoutOk, LastGroupFits;
    FreshIsLaid(img, geo);
    SumCounts(img, geo, geo.groups);
    forall g: nat | g < geo.groups ensures GroupOk(img, geo, FreshLay(geo), g) { GroupCounts(img, geo, g); }
    forall b: nat | IsBlock(geo, b)
      ensures Used(img, geo, FreshLay(geo), b) <==> b in FreshRoles(geo) || b >= geo.totalBlocks
    {
      FreshUsed(img, geo, b);
    }
    forall ino: nat | IsInode(geo, ino) ensures UsedInode(img, geo, FreshLay(geo), ino) <==> ino < FIRST_INO {
      FreshUsedInodes(img, geo, ino);
    }
  }

  // ---------------------------------------------------------------- the root directory

  lemma RootInodeIs(geo: Geo)
    requires Formattable(geo) && RootBlock(geo) < geo.totalBlocks
    ensures var r := RootInode(geo);
            Size(r) == geo.blockSize && IsDir(r) && forall i :: 0 <= i < 15 ==>
              SlotPtr(r, i) == if i == 0 then RootBlock(geo) else 0
  {
    hide Sized, GetU32, GetU16, WithSlot, LastGroupFits, RootBlock;
    BlockNumbersFit(geo);
    NewInodeIs(0x41ED, 2);
    var n := NewInode(0x41ED, 2);
    SizeAndSectors(n, geo.blockSize, geo.blockSize / 512);
    var x := WithSectors(WithSize(n, geo.blockSize), geo.blockSize / 512);
    SlotKeepsOther(x, 0, RootBlock(geo));
    OtherFields(x, RootInode(geo));
    forall i | 0 <= i < 15 ensures SlotPtr(RootInode(geo), i) == if i == 0 then RootBlock(geo) else 0 {
      SameSlotPtr(n, x, i);
      WithSlotPtr(x, 0, RootBlock(geo), i);
    }
  }

  lemma {:induction false} RootTree(img: seq<Block>, geo: Geo, inode: Inode, roles: map<nat, Role>, p: Path)
    requires ValidPath(PtrsPerBlock(geo), p) && forall i :: 1 <= i < 15 ==> SlotPtr(inode, i) == 0
    ensures Node(img, inode, p) == if p == [0] then SlotPtr(inode, 0) else 0
    decreases |p|
  {
    hide GetU32;
    if |p| > 1 { RootTree(img, geo, inode, roles, p[..|p| - 1]); } else { assert p == [p[0]]; }
  }

  /** The volume stands for an empty root directory. */
  lemma FreshTree(img: seq<Block>, sb: seq<byte>, geo: Geo)
    requires Formattable(geo) && WfImage(img, geo) && Laid(img, geo, FreshLay(geo)) && geo.firstDataBlock < |img|
    requires Fresh(img, sb, geo)
    ensures LiveOk(img, geo, FreshLay(geo), FreshRoles(geo), {ROOT_INO}) && IsInode(geo, ROOT_INO)
    ensures TreeOf(img, geo, FreshLay(geo), {ROOT_INO}) == map[ROOT_INO := Dir(Dots(ROOT_INO, ROOT_INO))]
  {
    hide Sized, Used, UsedInode, GroupFresh, GetU32, FreshRoles, LayoutOk, LastGroupFits, RootBlock, RootInode, MetaOk,
      Node, Chunk, DotBytes, Slot, SlotPtr, AllRecs, Names, DirOk, Size, FileType;
    var r, ppb, roles := RootInode(geo), PtrsPerBlock(geo), FreshRoles(geo);
    FreshMeta(img, sb, geo);
    FreshIsLaid(img, geo);
    RootInodeIs(geo);
    forall p: Path | ValidPath(ppb, p) ensures NodeOk(img, r, ROOT_INO, roles, p) { RootTree(img, geo, r, roles, p); }
    RootTree(img, geo, r, roles, [0]);
    RootChunk(img, geo, r);
    NewDirIs(img, geo, r, ROOT_INO, ROOT_INO);
  }

  lemma RootChunk(img: seq<Block>, geo: Geo, r: Inode)
    requires Formattable(geo) && WfImage(img, geo) && RootBlock(geo) < |img|
    requires Node(img, r, [0]) == RootBlock(geo)
    ensures BlockAt(img, PtrsPerBlock(geo), r, 0) == RootBlock(geo) != 0 && Chunk(img, geo, r, 0) == img[RootBlock(geo)]
  {
    hide Node, Sized, LastGroupFits;
  }
}
