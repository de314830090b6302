/** Where `format` puts things: every group starts with its own overhead, the first one with the superblock
    and the descriptors in front of it and the root directory's block behind it. */
module Ext2Layout {
  import opened Ext2Tree
  import opened Ext2Meta
  import opened Ext2Steps
  import opened Ext2State

  const INODES_PER_GROUP: nat := 2048
  const INODE_SIZE: nat := 128
  const FIRST_INO: nat := 11
  const MIB: nat := 0x10_0000

  /** The block size `format` picks for a partition of this many bytes. */
  function BlockSizeFor(bytes: nat): nat {
    if bytes > 512 * MIB then 4096 else if bytes > 128 * MIB then 2048 else 1024
  }

  function GroupsFor(bs: nat, total: nat): nat
    requires bs > 0 && total >= FirstData(bs)
  {
    (total - FirstData(bs) + 8 * bs - 1) / (8 * bs)
  }

  function FirstData(bs: nat): nat { if bs == 1024 then 1 else 0 }

  /** The geometry of a partition of `sectors` sectors. */
  function GeoFor(sectors: nat): Geo
    requires sectors >= 8192
  {
    var bs := BlockSizeFor(sectors * 512);
    var total := sectors / (bs / 512);
    Geo(bs, GroupsFor(bs, total), INODES_PER_GROUP, INODE_SIZE, FirstData(bs), total, FIRST_INO)
  }

  /** A partition of at least 4 MiB and below 4 GiB gets a geometry the rest of the code can work with. */
  lemma GeoForIsOk(sectors: nat)
    requires 8192 <= sectors < 0x80_0000
    ensures var geo := GeoFor(sectors);
            GeoOk(geo) && geo.totalBlocks >= 4096 && geo.groups <= 32 &&
            geo.inodesPerGroup == INODES_PER_GROUP && geo.inodeSize == INODE_SIZE && geo.firstIno == FIRST_INO
  {
    hide GeoOk;
    var bs := BlockSizeFor(sectors * 512);
    if bs == 1024 {
      GeoAt1024(sectors / 2);
    } else if bs == 2048 {
      GeoAt2048(sectors / 4);
    } else {
      GeoAt4096(sectors / 8);
    }
  }

  lemma GeoAt1024(total: nat)
    requires 4096 <= total <= 131072
    ensures var geo := Geo(1024, GroupsFor(1024, total), INODES_PER_GROUP, INODE_SIZE, 1, total, FIRST_INO);
            GeoOk(geo) && geo.groups <= 32
  {}

  lemma GeoAt2048(total: nat)
    requires 4096 <= total <= 262144
    ensures var geo := Geo(2048, GroupsFor(2048, total), INODES_PER_GROUP, INODE_SIZE, 0, total, FIRST_INO);
            GeoOk(geo) && geo.groups <= 32
  {}

  lemma GeoAt4096(total: nat)
    requires 4096 <= total <= 1048576
    ensures var geo := Geo(4096, GroupsFor(4096, total), INODES_PER_GROUP, INODE_SIZE, 0, total, FIRST_INO);
            GeoOk(geo) && geo.groups <= 32
  {}

  // ---------------------------------------------------------------- blocks of a group

  /** Blocks in front of the bitmaps of group `g`. */
  function Base(geo: Geo, g: nat): nat
    requires geo.blockSize > 0
  {
    if g == 0 then 1 + DescBlocks(geo) else 0
  }

  /** Blocks of group `g` that are taken from the start. */
  function Overhead(geo: Geo, g: nat): nat
    requires geo.blockSize > 0
  {
    Base(geo, g) + 2 + TableBlocks(geo)
  }

  function Reserved(geo: Geo, g: nat): nat
    requires geo.blockSize > 0
  {
    Overhead(geo, g) + (if g == 0 then 1 else 0)
  }

  /** Blocks of group `g` that the volume has. */
  function BlocksIn(geo: Geo, g: nat): nat
    requires geo.firstDataBlock <= geo.totalBlocks
  {
    if g == geo.groups - 1 && geo.totalBlocks - geo.firstDataBlock - g * BlocksPerGroup(geo) < BlocksPerGroup(geo)
    then if geo.totalBlocks >= geo.firstDataBlock + g * BlocksPerGroup(geo)
         then geo.totalBlocks - geo.firstDataBlock - g * BlocksPerGroup(geo) else 0
    else BlocksPerGroup(geo)
  }

  /** The last group is long enough for its own bitmaps and inode table. */
  predicate LastGroupFits(geo: Geo)
    requires geo.blockSize > 0 && geo.groups > 0 && geo.firstDataBlock <= geo.totalBlocks
  {
    Reserved(geo, geo.groups - 1) <= BlocksIn(geo, geo.groups - 1)
  }

  function FreshLay(geo: Geo): (lay: seq<GroupLay>)
    requires geo.blockSize > 0
    ensures |lay| == geo.groups
  {
    seq(geo.groups, g requires 0 <= g < geo.groups => LayOf(geo, g))
  }

  function LayOf(geo: Geo, g: nat): GroupLay
    requires geo.blockSize > 0
  {
    var s := BlockNumber(geo, g, Base(geo, g));
    GroupLay(s, s + 1, s + 2)
  }

  /** What block `idx` of group `g` is for, if it is one of the reserved ones. */
  function Kind(geo: Geo, g: nat, idx: nat): Role
    requires geo.blockSize > 0 && idx < Reserved(geo, g)
  {
    var base := Base(geo, g);
    if idx < base then (if idx == 0 then Super else Descriptors(idx - 1))
    else if idx == base then BlockBitmap(g)
    else if idx == base + 1 then InodeBitmap(g)
    else if idx < Overhead(geo, g) then InodeTable(g, idx - base - 2)
    else Tree(ROOT_INO, [0])
  }

  predicate IsReserved(geo: Geo, b: nat)
    requires geo.blockSize > 0
  {
    geo.firstDataBlock <= b < geo.totalBlocks && IndexOfBlock(geo, b) < Reserved(geo, GroupOfBlock(geo, b))
  }

  function FreshRoles(geo: Geo): map<nat, Role>
    requires geo.blockSize > 0
  {
    map b: nat | b < geo.totalBlocks && IsReserved(geo, b) :: Kind(geo, GroupOfBlock(geo, b), IndexOfBlock(geo, b))
  }

  function RootBlock(geo: Geo): nat
    requires geo.blockSize > 0
  {
    BlockNumber(geo, 0, Overhead(geo, 0))
  }

  /** The reserved blocks of every group lie in the volume. */
  lemma ReservedFits(geo: Geo, g: nat)
    requires GeoOk(geo) && geo.inodesPerGroup == INODES_PER_GROUP && geo.inodeSize == INODE_SIZE && geo.groups <= 32
    requires LastGroupFits(geo) && g < geo.groups
    ensures Reserved(geo, g) <= BlocksIn(geo, g) <= BlocksPerGroup(geo)
    ensures g * BlocksPerGroup(geo) + BlocksIn(geo, g) + geo.firstDataBlock <= geo.totalBlocks
    ensures g < geo.groups - 1 ==> BlocksIn(geo, g) == BlocksPerGroup(geo)
  {
    assert DescBlocks(geo) == 1;
    if g < geo.groups - 1 { NextSlot(g, geo.groups - 1, BlocksPerGroup(geo)); }
  }

  lemma RoleAt(geo: Geo, g: nat, idx: nat)
    requires GeoOk(geo) && geo.inodesPerGroup == INODES_PER_GROUP && geo.inodeSize == INODE_SIZE && geo.groups <= 32
    requires LastGroupFits(geo) && g < geo.groups && idx < Reserved(geo, g)
    ensures HasRole(FreshRoles(geo), BlockNumber(geo, g, idx), Kind(geo, g, idx)) &&
      BlockNumber(geo, g, idx) < geo.totalBlocks
  {
    hide Sized, Kind, Reserved;
    ReservedFits(geo, g);
    BlockNumbering(geo, g, idx);
    assert IsReserved(geo, BlockNumber(geo, g, idx));
  }

  /** The layout is one: superblock, descriptors, bitmaps and inode tables have blocks of their own. */
  lemma FreshLayoutOk(geo: Geo)
    requires GeoOk(geo) && geo.inodesPerGroup == INODES_PER_GROUP && geo.inodeSize == INODE_SIZE && geo.groups <= 32
    requires LastGroupFits(geo)
    ensures LayoutOk(geo, FreshLay(geo), FreshRoles(geo))
    ensures HasRole(FreshRoles(geo), RootBlock(geo), Tree(ROOT_INO, [0])) && RootBlock(geo) < geo.totalBlocks
  {
    hide Sized, HasRole, FreshRoles;
    var lay, roles := FreshLay(geo), FreshRoles(geo);
    RoleAt(geo, 0, 0);
    RoleAt(geo, 0, Overhead(geo, 0));
    forall i: nat | i < DescBlocks(geo) ensures HasRole(roles, geo.firstDataBlock + 1 + i, Descriptors(i)) {
      RoleAt(geo, 0, 1 + i);
    }
    forall g: nat | g < geo.groups ensures GroupPlaced(geo, lay[g], g, roles) {
      RoleAt(geo, g, Base(geo, g));
      RoleAt(geo, g, Base(geo, g) + 1);
      forall j: nat | j < TableBlocks(geo) ensures HasRole(roles, lay[g].it + j, InodeTable(g, j)) {
        RoleAt(geo, g, Base(geo, g) + 2 + j);
      }
    }
    RolesInVolume(geo);
  }

  lemma RolesInVolume(geo: Geo)
    requires geo.blockSize > 0
    ensures forall b :: b in FreshRoles(geo) ==> geo.firstDataBlock <= b < geo.totalBlocks
  {}

  /** Otherwise the last group's inode table would reach past the end of the volume. */
  lemma OverrunsUnlessFits(geo: Geo)
    requires GeoOk(geo) && geo.inodesPerGroup == INODES_PER_GROUP && geo.inodeSize == INODE_SIZE && geo.groups > 1
    ensures LastGroupFits(geo) <==>
            LayOf(geo, geo.groups - 1).it + TableBlocks(geo) <= geo.totalBlocks
  {
    var g := geo.groups - 1;
    OneMore(g, BlocksPerGroup(geo));
  }
}
