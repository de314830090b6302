/** A mounted ext2 volume: block transfers through the static scratch buffers, descriptors, inodes and the
    bitmap allocators. The ghost fields say where the metadata lies and what every block is for. */
module Ext2Volume {
  import opened Bytes
  import opened Ext2Tree
  import opened Ext2Meta
  import opened Ext2Steps

  const BUF_SIZE: nat := 8192

  class Volume {
    const geo: Geo
    const disk: array<Block>
    const gBuf: array<byte>
    const gBuf2: array<byte>
    const dirBuf: array<byte>
    var sb: seq<byte>
    ghost const lay: seq<GroupLay>
    ghost var roles: map<nat, Role>

    ghost predicate Shape()
      reads disk
    {
      GeoOk(geo) && WfImage(disk[..], geo) &&
      gBuf.Length == BUF_SIZE && gBuf2.Length == BUF_SIZE && dirBuf.Length == BUF_SIZE &&
      gBuf != gBuf2 && gBuf != dirBuf && gBuf2 != dirBuf
    }

    /** The bookkeeping agrees: bitmaps, descriptors, superblock, and the roles of blocks. */
    ghost predicate Meta()
      reads this, disk
    {
      Shape() && MetaOk(disk[..], sb, geo, lay, roles)
    }

    /** What the superblock says is free. */
    ghost function FreeNow(): nat
      reads `sb
    {
      if |sb| == SB_SIZE then FreeBlocksCount(sb) else 0
    }

    ghost function InodesNow(): nat
      reads `sb
    {
      if |sb| == SB_SIZE then FreeInodesCount(sb) else 0
    }

    constructor (geometry: Geo, blocks: array<Block>, superblock: seq<byte>, ghost layout: seq<GroupLay>,
                 ghost use: map<nat, Role>)
      requires GeoOk(geometry) && WfImage(blocks[..], geometry) && MetaOk(blocks[..], superblock, geometry, layout, use)
      ensures Meta() && disk == blocks && geo == geometry && roles == use && lay == layout && sb == superblock
    {
      geo, disk, sb, lay, roles := geometry, blocks, superblock, layout, use;
      gBuf := new byte[BUF_SIZE](_ => 0);
      gBuf2 := new byte[BUF_SIZE](_ => 0);
      dirBuf := new byte[BUF_SIZE](_ => 0);
    }

    // -------------------------------------------------------------- block transfers

    method ReadBlock(b: nat, buf: array<byte>)
      requires Shape() && b < disk.Length && buf.Length == BUF_SIZE
      modifies buf
      ensures buf[..geo.blockSize] == disk[b]
    {
      assert |disk[..][b]| == geo.blockSize;
      var block := disk[b];
      forall i | 0 <= i < geo.blockSize { buf[i] := block[i]; }
    }

    method WriteBlock(b: nat, buf: array<byte>)
      requires Shape() && b < disk.Length && buf.Length == BUF_SIZE
      modifies disk
      ensures Shape() && disk[..] == old(disk[..])[b := buf[..geo.blockSize]]
    {
      disk[b] := buf[..geo.blockSize];
    }

    /** `memset(buf, 0, block_size)` */
    method ClearBuf(buf: array<byte>)
      requires Shape() && buf.Length == BUF_SIZE
      modifies buf
      ensures ZeroBlock(buf[..geo.blockSize])
    {
      forall i | 0 <= i < geo.blockSize { buf[i] := 0; }
    }

    /** `memcpy(buf + off, s, n)` */
    method Store(buf: array<byte>, off: nat, s: seq<byte>)
      requires Shape() && off + |s| <= geo.blockSize && buf.Length == BUF_SIZE
      modifies buf
      ensures buf[..geo.blockSize] == Patch(old(buf[..geo.blockSize]), off, s)
    {
      forall i | 0 <= i < |s| { buf[off + i] := s[i]; }
    }

    method WriteSuperblock()
      requires Shape() && |sb| == SB_SIZE && geo.firstDataBlock < disk.Length
      modifies disk
      ensures Shape() && disk[..] == WithSuper(old(disk[..]), geo, sb)
    {
      assert |disk[..][geo.firstDataBlock]| == geo.blockSize;
      disk[geo.firstDataBlock] := Patch(disk[geo.firstDataBlock], SuperOff(geo), sb);
    }

    // -------------------------------------------------------------- group descriptors

    method ReadBgd(g: nat) returns (ok: bool, d: seq<byte>)
      requires Shape() && (g < geo.groups ==> DescBlock(geo, g) < disk.Length)
      modifies gBuf
      ensures ok == (g < geo.groups) && |d| == BGD_SIZE
      ensures ok ==> d == Desc(disk[..], geo, g)
    {
      d := seq(BGD_SIZE, _ => 0);
      if g >= geo.groups { return false, d; }
      var byteOff := g * BGD_SIZE;
      var blk := geo.firstDataBlock + 1 + byteOff / geo.blockSize;
      var off := byteOff % geo.blockSize;
      DescFits(g);
      ReadBlock(blk, gBuf);
      d := gBuf[off..off + BGD_SIZE];
      assert d == gBuf[..geo.blockSize][off..off + BGD_SIZE];
      ok := true;
    }

    lemma DescFits(g: nat)
      requires GeoOk(geo)
      ensures RecOff(geo.blockSize, BGD_SIZE, g) + BGD_SIZE <= geo.blockSize
    {
      assert geo.blockSize % BGD_SIZE == 0;
      RecordsApart(geo.blockSize, BGD_SIZE, g, g);
    }

    method WriteBgd(g: nat, d: seq<byte>) returns (ok: bool)
      requires Shape() && |d| == BGD_SIZE && (g < geo.groups ==> DescBlock(geo, g) < disk.Length)
      modifies gBuf, disk
      ensures Shape() && ok == (g < geo.groups)
      ensures ok ==> RecOff(geo.blockSize, BGD_SIZE, g) + BGD_SIZE <= geo.blockSize &&
                     disk[..] == WithRecord(old(disk[..]), geo.firstDataBlock + 1, geo.blockSize, BGD_SIZE, g, d)
      ensures !ok ==> disk[..] == old(disk[..])
    {
      if g >= geo.groups { return false; }
      var byteOff := g * BGD_SIZE;
      var blk := geo.firstDataBlock + 1 + byteOff / geo.blockSize;
      var off := byteOff % geo.blockSize;
      DescFits(g);
      ReadBlock(blk, gBuf);
      Store(gBuf, off, d);
      WriteBlock(blk, gBuf);
      ok := true;
    }

    // -------------------------------------------------------------- bitmap scan

    /** The first clear bit of the bitmap in `gBuf` that is not below `lo`, or the number of bits. Whole
        bytes of ones are skipped. */
    method FindClear(lo: nat) returns (idx: nat)
      requires Shape()
      ensures idx <= BlocksPerGroup(geo)
      ensures idx < BlocksPerGroup(geo) ==> idx >= lo && !Bit(gBuf[..geo.blockSize], idx)
      ensures forall j: nat :: lo <= j < idx && j < BlocksPerGroup(geo) ==> Bit(gBuf[..geo.blockSize], j)
    {
      ghost var bm := gBuf[..geo.blockSize];
      var i := 0;
      while i < geo.blockSize
        invariant i <= geo.blockSize
        invariant forall j: nat :: lo <= j < 8 * i ==> Bit(bm, j)
      {
        if gBuf[i] != 0xFF {
          var bit := 0;
          while bit < 8
            invariant bit <= 8
            invariant forall j: nat :: lo <= j < 8 * i + bit ==> Bit(bm, j)
          {
            idx := i * 8 + bit;
            if !TestBit(gBuf[i], bit) && idx >= lo { return; }
            assert idx >= lo ==> Bit(bm, idx);
            bit := bit + 1;
          }
        } else {
          FullByte(bm, i);
        }
        i := i + 1;
      }
      idx := BlocksPerGroup(geo);
    }

    method SetBufBit(idx: nat)
      requires Shape() && idx < BlocksPerGroup(geo)
      modifies gBuf
      ensures gBuf[..geo.blockSize] == WithBit(old(gBuf[..geo.blockSize]), idx)
    {
      ByteOps(gBuf[idx / 8], idx % 8);
      gBuf[idx / 8] := OrBit(gBuf[idx / 8], idx % 8);
    }

    method ClearBufBit(idx: nat)
      requires Shape() && idx < BlocksPerGroup(geo)
      modifies gBuf
      ensures gBuf[..geo.blockSize] == WithoutBit(old(gBuf[..geo.blockSize]), idx)
    {
      ByteOps(gBuf[idx / 8], idx % 8);
      gBuf[idx / 8] := ClearBit(gBuf[idx / 8], idx % 8);
    }

    // -------------------------------------------------------------- allocation

    /** Whatever changed on the disk since `img` is counters only, and the inode bitmaps say the same. */
    ghost predicate BlocksStep(img: seq<Block>)
      reads this, disk
    {
      Meta() && Laid(img, geo, lay) && SameBeyondCounters(img, disk[..], roles) &&
      forall ino: nat :: IsInode(geo, ino) ==> (UsedInode(disk[..], geo, lay, ino) <==> UsedInode(img, geo, lay, ino))
    }

    /** The block bitmaps differ from those of `img` exactly in block `b`. */
    ghost predicate OnlyBlock(img: seq<Block>, b: nat, taken: bool)
      requires Laid(img, geo, lay) && Laid(disk[..], geo, lay)
      reads disk
    {
      forall c: nat :: IsBlock(geo, c) ==>
        (Used(disk[..], geo, lay, c) <==> if c == b then taken else Used(img, geo, lay, c))
    }

    /** First fit: the lowest free block of the first group with one. */
    method AllocBlock() returns (b: nat)
      requires Meta()
      modifies this`sb, disk, gBuf
      ensures Meta() && BlocksStep(old(disk[..]))
      ensures b == 0 ==> disk[..] == old(disk[..]) && sb == old(sb) && FreeBlocksCount(sb) == 0
      ensures b != 0 ==>
                IsBlock(geo, b) && b < geo.totalBlocks && b !in roles && !Used(old(disk[..]), geo, lay, b) &&
                OnlyBlock(old(disk[..]), b, true) && FreeBlocksCount(sb) == FreeBlocksCount(old(sb)) - 1 &&
                FreeInodesCount(sb) == FreeInodesCount(old(sb))
    {
      hide Sized, LayoutOk, UsedOk, ReservedOk, Bit, ClearCount, GetU16, GetU32, ClearBlocks, ClearInodes, Used,
        UsedInode, Desc, OnlyBlock;
      var g := 0;
      while g < geo.groups
        invariant g <= geo.groups && Meta() && disk[..] == old(disk[..]) && sb == old(sb)
        invariant forall j: nat :: j < g ==>
                    InVolume(geo, lay[j], j) && ClearCount(disk[..][lay[j].bb], BlocksPerGroup(geo)) == 0
      {
        GroupSite(disk[..], sb, geo, lay, roles, g);
        var ok, d := ReadBgd(g);
        if !ok { assert false; }
        if FreeBlocksOf(d) != 0 {
          ReadBlock(BlockBitmapOf(d), gBuf);
          var idx := FindClear(0);
          ClearCountZero(gBuf[..geo.blockSize], BlocksPerGroup(geo));
          assert idx < BlocksPerGroup(geo);
          b := TakeBlockAt(g, d, idx);
          return;
        }
        g := g + 1;
      }
      NoneClear(disk[..], geo, lay, geo.groups);
      b := 0;
    }

    /** Marks clear bit `idx` of group `g`, whose bitmap is in `gBuf`, and counts it everywhere. */
    method TakeBlockAt(g: nat, d: seq<byte>, idx: nat) returns (b: nat)
      requires Meta() && g < geo.groups && idx < BlocksPerGroup(geo)
      requires InVolume(geo, lay[g], g) && d == Desc(disk[..], geo, g)
      requires gBuf[..geo.blockSize] == disk[..][lay[g].bb] && !Bit(disk[..][lay[g].bb], idx)
      modifies this`sb, disk, gBuf
      ensures Meta() && BlocksStep(old(disk[..]))
      ensures b != 0 && IsBlock(geo, b) && b < geo.totalBlocks && b !in roles && !Used(old(disk[..]), geo, lay, b)
      ensures OnlyBlock(old(disk[..]), b, true)
      ensures FreeBlocksCount(sb) == FreeBlocksCount(old(sb)) - 1 && FreeInodesCount(sb) == FreeInodesCount(old(sb))
    {
      hide Sized, LayoutOk, UsedOk, ReservedOk, Touches, Bit, ClearCount, GetU16, GetU32, ClearBlocks, ClearInodes,
        Patch, WithFreeBlocks, WithFreeBlocksCount, BlockNumber, Used, UsedInode, SameBeyondCounters, Desc;
      ghost var img, was := disk[..], sb;
      GroupSite(img, sb, geo, lay, roles, g);
      FreeBitIsFree(img, sb, g, idx);
      ClearCountPositive(img[lay[g].bb], idx, BlocksPerGroup(geo));
      b := g * BlocksPerGroup(geo) + idx + geo.firstDataBlock;
      assert b == BlockNumber(geo, g, idx) by { BlockNumberIs(g, idx); }
      SetBufBit(idx);
      WriteBlock(BlockBitmapOf(d), gBuf);
      var e := d;
      if FreeBlocksOf(d) > 0 { e := WithFreeBlocks(d, FreeBlocksOf(d) - 1); }
      var ok := WriteBgd(g, e);
      if !ok { assert false; }
      if FreeBlocksCount(sb) > 0 { sb := WithFreeBlocksCount(sb, FreeBlocksCount(sb) - 1); }
      WriteSuperblock();
      assert disk[..] == Updated(img, geo, lay[g].bb, WithBit(img[lay[g].bb], idx), g, e, sb);
      TakeBlock(img, was, geo, lay, roles, g, idx, d, e, sb, disk[..]);
      TouchesOnlyCounters(img, disk[..], geo, lay, roles, lay[g].bb, g);
    }

    /** Clears bit `idx` of group `g` and counts the block as free. */
    method GiveBlockAt(g: nat, idx: nat)
      requires Meta() && g < geo.groups && idx < BlocksPerGroup(geo) && InVolume(geo, lay[g], g)
      modifies this`sb, disk, gBuf
      ensures Meta() <==> old(InUse(g, idx))
      ensures Meta() ==> BlocksStep(old(disk[..])) && OnlyBlock(old(disk[..]), BlockNumber(geo, g, idx), false)
      ensures Meta() ==>
        FreeInodesCount(sb) == FreeInodesCount(old(sb)) && FreeBlocksCount(sb) == FreeBlocksCount(old(sb)) + 1
    {
      hide Sized, LayoutOk, UsedOk, ReservedOk, Touches, Bit, ClearCount, GetU16, GetU32, ClearBlocks, ClearInodes,
        Patch, WithFreeBlocks, WithFreeBlocksCount, Desc, GroupOk, UsedInode, Used, BlockNumber, SameBeyondCounters,
        MetaOk, SuperOk;
      ghost var inUse := InUse(g, idx);
      SuperSize(g);
      ghost var img, was := disk[..], sb;
      GroupSite(img, sb, geo, lay, roles, g);
      var ok, d := ReadBgd(g);
      if !ok { assert false; }
      GroupReads(img, sb, g);
      ReadBlock(BlockBitmapOf(d), gBuf);
      ClearBufBit(idx);
      WriteBlock(BlockBitmapOf(d), gBuf);
      var e := WithFreeBlocks(d, FreeBlocksOf(d) + 1);
      ok := WriteBgd(g, e);
      sb := WithFreeBlocksCount(sb, FreeBlocksCount(sb) + 1);
      WriteSuperblock();
      assert disk[..] == Updated(img, geo, lay[g].bb, WithoutBit(img[lay[g].bb], idx), g, e, sb);
      if inUse {
        ReleaseBlock(img, was, geo, lay, roles, g, idx, d, e, sb, disk[..]);
        TouchesOnlyCounters(img, disk[..], geo, lay, roles, lay[g].bb, g);
      } else {
        WrongBlock(img, was, geo, lay, roles, g, idx, d, e, sb, disk[..]);
      }
    }

    /** Bit `idx` of group `g` stands for a block of the volume that is taken and has no role. */
    ghost predicate InUse(g: nat, idx: nat)
      requires Meta() && g < geo.groups && idx < BlocksPerGroup(geo) && InVolume(geo, lay[g], g)
      reads this, disk
    {
      Bit(disk[..][lay[g].bb], idx) && BlockNumber(geo, g, idx) !in roles && BlockNumber(geo, g, idx) < geo.totalBlocks
    }

    /** A number that stands for no block, or a block of the volume that is taken and has no role. */
    ghost predicate MayFree(block: nat)
      reads this, disk
    {
      Meta() && (block != 0 && IsBlock(geo, block) ==>
        block < geo.totalBlocks && block !in roles && Used(disk[..], geo, lay, block))
    }

    /** Gives a block back. Numbers that stand for no block are ignored; the bookkeeping agrees afterwards exactly if
        the block was one to free. */
    method FreeBlock(block: nat)
      requires Meta()
      modifies this`sb, disk, gBuf
      ensures Meta() <==> old(MayFree(block))
      ensures Meta() ==> BlocksStep(old(disk[..])) && FreeInodesCount(sb) == FreeInodesCount(old(sb))
      ensures Meta() && block != 0 && IsBlock(geo, block) ==>
        OnlyBlock(old(disk[..]), block, false) && FreeBlocksCount(sb) == FreeBlocksCount(old(sb)) + 1
      ensures !(block != 0 && IsBlock(geo, block)) ==> disk[..] == old(disk[..]) && sb == old(sb)
    {
      hide Sized, LayoutOk, UsedOk, ReservedOk, Touches, Bit, ClearCount, GetU16, GetU32, ClearBlocks, ClearInodes,
        Desc, GroupOk, UsedInode;
      if block == 0 { return; }
      if block < geo.firstDataBlock { return; }
      var adjusted := block - geo.firstDataBlock;
      var group := adjusted / BlocksPerGroup(geo);
      var idx := adjusted % BlocksPerGroup(geo);
      GroupBelow(block);
      if group >= geo.groups { return; }
      BlockIsNumbered(geo, block);
      GroupSite(disk[..], sb, geo, lay, roles, group);
      GiveBlockAt(group, idx);
    }

    lemma GroupBelow(block: nat)
      requires GeoOk(geo) && block >= geo.firstDataBlock
      ensures (block - geo.firstDataBlock) / BlocksPerGroup(geo) < geo.groups <==> IsBlock(geo, block)
    {
      hide Sized;
      QuotBelow(block - geo.firstDataBlock, BlocksPerGroup(geo), geo.groups);
    }

    /** What the descriptor of group `g` reads as. */
    lemma GroupReads(img: seq<Block>, super: seq<byte>, g: nat)
      requires MetaOk(img, super, geo, lay, roles) && g < geo.groups && InVolume(geo, lay[g], g)
      ensures var d := Desc(img, geo, g);
              BlockBitmapOf(d) == lay[g].bb && InodeBitmapOf(d) == lay[g].ib && InodeTableOf(d) == lay[g].it &&
              FreeBlocksOf(d) == ClearCount(img[lay[g].bb], BlocksPerGroup(geo)) &&
              FreeInodesOf(d) == ClearCount(img[lay[g].ib], geo.inodesPerGroup)
    {
      hide Sized, ClearCount;
      assert GroupOk(img, geo, lay, g);
    }

    /** Whatever changed on the disk since `img` is counters only, and the block bitmaps say the same. */
    ghost predicate InodesStep(img: seq<Block>)
      reads this, disk
    {
      Meta() && Laid(img, geo, lay) && SameBeyondCounters(img, disk[..], roles) &&
      forall b: nat :: IsBlock(geo, b) ==> (Used(disk[..], geo, lay, b) <==> Used(img, geo, lay, b))
    }

    ghost predicate OnlyInode(img: seq<Block>, ino: nat, taken: bool)
      requires Laid(img, geo, lay) && Laid(disk[..], geo, lay)
      reads disk
    {
      forall j: nat :: IsInode(geo, j) ==>
        (UsedInode(disk[..], geo, lay, j) <==> if j == ino then taken else UsedInode(img, geo, lay, j))
    }

    /** First fit among the inodes that are not reserved. The scan covers the whole bitmap block, but the
        number returned is always one of the group's own inodes. */
    method AllocInode(isDir: bool) returns (ino: nat)
      requires Meta()
      modifies this`sb, disk, gBuf
      ensures Meta() && InodesStep(old(disk[..]))
      ensures ino == 0 ==> disk[..] == old(disk[..]) && sb == old(sb) && FreeInodesCount(sb) == 0
      ensures ino != 0 ==>
                IsInode(geo, ino) && ino >= geo.firstIno && !UsedInode(old(disk[..]), geo, lay, ino) &&
                OnlyInode(old(disk[..]), ino, true) && FreeInodesCount(sb) == FreeInodesCount(old(sb)) - 1 &&
                FreeBlocksCount(sb) == FreeBlocksCount(old(sb))
    {
      hide Sized, LayoutOk, UsedOk, ReservedOk, Bit, ClearCount, GetU16, GetU32, ClearBlocks, ClearInodes, Used,
        UsedInode, Desc, OnlyInode;
      var g := 0;
      while g < geo.groups
        invariant g <= geo.groups && Meta() && disk[..] == old(disk[..]) && sb == old(sb)
        invariant forall j: nat :: j < g ==>
                    InVolume(geo, lay[j], j) && ClearCount(disk[..][lay[j].ib], geo.inodesPerGroup) == 0
      {
        GroupSite(disk[..], sb, geo, lay, roles, g);
        var ok, d := ReadBgd(g);
        if !ok { assert false; }
        if FreeInodesOf(d) != 0 {
          ReadBlock(InodeBitmapOf(d), gBuf);
          var first := g * geo.inodesPerGroup + 1;
          var idx := FindClear(if first < FirstIno(sb) then FirstIno(sb) - first else 0);
          FreeInodeFound(g, idx, gBuf[..geo.blockSize]);
          ino := TakeInodeAt(g, d, idx, isDir);
          return;
        }
        g := g + 1;
      }
      NoneClear(disk[..], geo, lay, geo.groups);
      ino := 0;
    }

    /** The scan of a group with a free inode stops at one of the group's own, not reserved, inodes. */
    lemma FreeInodeFound(g: nat, idx: nat, bm: seq<byte>)
      requires Meta() && g < geo.groups && InVolume(geo, lay[g], g) && bm == disk[..][lay[g].ib]
      requires ClearCount(bm, geo.inodesPerGroup) > 0 && idx <= BlocksPerGroup(geo)
      requires forall j: nat :: InodeNumber(geo, g, j) >= geo.firstIno && j < idx && j < BlocksPerGroup(geo) ==>
        Bit(bm, j)
      ensures idx < geo.inodesPerGroup
    {
      hide Sized, LayoutOk, UsedOk, GroupOk, SuperOk, Bit, InodeNumber;
      ClearCountZero(bm, geo.inodesPerGroup);
      var j: nat :| j < geo.inodesPerGroup && !Bit(bm, j);
      InodeNumbering(geo, g, j);
      assert !UsedInode(disk[..], geo, lay, InodeNumber(geo, g, j));
      assert InodeNumber(geo, g, j) >= geo.firstIno;
    }

    method TakeInodeAt(g: nat, d: seq<byte>, idx: nat, isDir: bool) returns (ino: nat)
      requires Meta() && g < geo.groups && idx < geo.inodesPerGroup
      requires InVolume(geo, lay[g], g) && d == Desc(disk[..], geo, g)
      requires gBuf[..geo.blockSize] == disk[..][lay[g].ib] && !Bit(disk[..][lay[g].ib], idx)
      modifies this`sb, disk, gBuf
      ensures Meta() && InodesStep(old(disk[..]))
      ensures ino == InodeNumber(geo, g, idx) && IsInode(geo, ino) && ino >= geo.firstIno
      ensures !UsedInode(old(disk[..]), geo, lay, ino) && OnlyInode(old(disk[..]), ino, true)
      ensures FreeInodesCount(sb) == FreeInodesCount(old(sb)) - 1 && FreeBlocksCount(sb) == FreeBlocksCount(old(sb))
    {
      hide Sized, LayoutOk, UsedOk, Touches, Bit, ClearCount, GetU16, GetU32, ClearBlocks, ClearInodes, Patch,
        WithFreeInodes, WithUsedDirs, WithFreeInodesCount, Used, SameBeyondCounters, Desc;
      ghost var img, was := disk[..], sb;
      GroupSite(img, sb, geo, lay, roles, g);
      InodeNumbering(geo, g, idx);
      ClearCountPositive(img[lay[g].ib], idx, geo.inodesPerGroup);
      ino := g * geo.inodesPerGroup + idx + 1;
      assert !UsedInode(img, geo, lay, ino);
      SetBufBit(idx);
      WriteBlock(InodeBitmapOf(d), gBuf);
      var e := d;
      if FreeInodesOf(d) > 0 { e := WithFreeInodes(d, FreeInodesOf(d) - 1); }
      if isDir { e := WithUsedDirs(e, (UsedDirsOf(e) + 1) % TWO_16); }
      var ok := WriteBgd(g, e);
      if !ok { assert false; }
      if FreeInodesCount(sb) > 0 { sb := WithFreeInodesCount(sb, FreeInodesCount(sb) - 1); }
      WriteSuperblock();
      assert disk[..] == Updated(img, geo, lay[g].ib, WithBit(img[lay[g].ib], idx), g, e, sb);
      TakeInode(img, was, geo, lay, roles, g, idx, isDir, d, e, sb, disk[..]);
      TouchesOnlyCounters(img, disk[..], geo, lay, roles, lay[g].ib, g);
    }

    /** Clears bit `idx` of group `g` and counts the inode as free. */
    method GiveInodeAt(g: nat, idx: nat, isDir: bool)
      requires Meta() && g < geo.groups && idx < geo.inodesPerGroup && InVolume(geo, lay[g], g)
      modifies this`sb, disk, gBuf
      ensures Meta() <==> old(InodeInUse(g, idx))
      ensures Meta() ==> InodesStep(old(disk[..])) && OnlyInode(old(disk[..]), InodeNumber(geo, g, idx), false)
      ensures Meta() ==>
        FreeBlocksCount(sb) == FreeBlocksCount(old(sb)) && FreeInodesCount(sb) == FreeInodesCount(old(sb)) + 1
    {
      hide Sized, LayoutOk, UsedOk, ReservedOk, Touches, Bit, ClearCount, GetU16, GetU32, ClearBlocks, ClearInodes,
        Patch, WithFreeInodes, WithUsedDirs, WithFreeInodesCount, Desc, GroupOk, Used, UsedInode, InodeNumber,
        SameBeyondCounters, MetaOk, SuperOk;
      ghost var inUse := InodeInUse(g, idx);
      SuperSize(g);
      ghost var img, was := disk[..], sb;
      GroupSite(img, sb, geo, lay, roles, g);
      var ok, d := ReadBgd(g);
      if !ok { assert false; }
      GroupReads(img, sb, g);
      ReadBlock(InodeBitmapOf(d), gBuf);
      ClearBufBit(idx);
      WriteBlock(InodeBitmapOf(d), gBuf);
      var e := WithFreeInodes(d, FreeInodesOf(d) + 1);
      if isDir && UsedDirsOf(e) > 0 { e := WithUsedDirs(e, UsedDirsOf(e) - 1); }
      ok := WriteBgd(g, e);
      sb := WithFreeInodesCount(sb, FreeInodesCount(sb) + 1);
      WriteSuperblock();
      assert disk[..] == Updated(img, geo, lay[g].ib, WithoutBit(img[lay[g].ib], idx), g, e, sb);
      if inUse {
        ReleaseInode(img, was, geo, lay, roles, g, idx, isDir, d, e, sb, disk[..]);
        TouchesOnlyCounters(img, disk[..], geo, lay, roles, lay[g].ib, g);
      } else {
        WrongInode(img, was, geo, lay, roles, g, idx, isDir, d, e, sb, disk[..]);
      }
    }

    /** Bit `idx` of group `g` stands for an inode that is taken and not reserved. */
    ghost predicate InodeInUse(g: nat, idx: nat)
      requires Meta() && g < geo.groups && idx < geo.inodesPerGroup && InVolume(geo, lay[g], g)
      reads this, disk
    {
      Bit(disk[..][lay[g].ib], idx) && InodeNumber(geo, g, idx) >= geo.firstIno
    }

    /** A number that `free_inode` ignores, or an inode that is taken and not reserved. */
    ghost predicate MayFreeInode(ino: nat)
      reads this, disk
    {
      Meta() && (ino > 10 && IsInode(geo, ino) ==> ino >= geo.firstIno && UsedInode(disk[..], geo, lay, ino))
    }

    /** Gives an inode back; the first ten, and numbers past the last group, are ignored. The bookkeeping agrees
        afterwards exactly if the inode was one to free. */
    method FreeInode(ino: nat, isDir: bool)
      requires Meta()
      modifies this`sb, disk, gBuf
      ensures Meta() <==> old(MayFreeInode(ino))
      ensures Meta() ==> InodesStep(old(disk[..])) && FreeBlocksCount(sb) == FreeBlocksCount(old(sb))
      ensures Meta() && ino > 10 && IsInode(geo, ino) ==>
        OnlyInode(old(disk[..]), ino, false) && FreeInodesCount(sb) == FreeInodesCount(old(sb)) + 1
      ensures !(ino > 10 && IsInode(geo, ino)) ==> disk[..] == old(disk[..]) && sb == old(sb)
    {
      hide Sized, LayoutOk, UsedOk, ReservedOk, Touches, Bit, ClearCount, GetU16, GetU32, ClearBlocks, ClearInodes,
        Desc, GroupOk, Used;
      if ino == 0 || ino <= 10 { return; }
      var group := (ino - 1) / geo.inodesPerGroup;
      var idx := (ino - 1) % geo.inodesPerGroup;
      InodeGroupBelow(ino);
      if group >= geo.groups { return; }
      InodeIsNumbered(geo, ino);
      GroupSite(disk[..], sb, geo, lay, roles, group);
      GiveInodeAt(group, idx, isDir);
    }

    lemma SuperSize(g: nat)
      requires Meta() && g < geo.groups
      ensures |sb| == SB_SIZE && Laid(disk[..], geo, lay) && LayoutOk(geo, lay, roles)
    {
      hide Laid, LayoutOk, GroupOk;
    }

    lemma InodeGroupBelow(ino: nat)
      requires GeoOk(geo) && ino > 0
      ensures (ino - 1) / geo.inodesPerGroup < geo.groups <==> IsInode(geo, ino)
    {
      hide Sized;
      QuotBelow(ino - 1, geo.inodesPerGroup, geo.groups);
    }

    // -------------------------------------------------------------- inodes

    method ReadInode(ino: nat) returns (ok: bool, inode: Inode)
      requires Meta()
      modifies gBuf
      ensures ok == IsInode(geo, ino)
      ensures ok ==> inode == Slot(disk[..], geo, lay, ino)
    {
      hide Sized, LayoutOk, UsedOk, ReservedOk, ClearCount, GetU16, GetU32, ClearBlocks, ClearInodes, Desc, GroupOk;
      inode := seq(128, _ => 0);
      if ino == 0 || ino > InodesCount(sb) { return false, inode; }
      var blk, off := LocateInode(ino);
      ReadBlock(blk, gBuf);
      inode := gBuf[off..off + 128];
      assert inode == gBuf[..geo.blockSize][off..off + 128];
      ok := true;
    }

    /** The block and the offset of an inode, computed from its byte offset on the partition, which fits
        32 bits on a volume of at most 4 GiB. */
    method LocateInode(ino: nat) returns (blk: nat, off: nat)
      requires Meta() && IsInode(geo, ino)
      modifies gBuf
      ensures blk == TableBlock(geo, lay, ino) < disk.Length
      ensures off == RecOff(geo.blockSize, geo.inodeSize, IndexOfInode(geo, ino)) &&
        off + geo.inodeSize <= geo.blockSize
    {
      hide LayoutOk, UsedOk, ReservedOk, ClearCount, GetU16, GetU32, ClearBlocks, ClearInodes, Desc, GroupOk, Sized;
      InodeIsNumbered(geo, ino);
      InodePlace(geo, lay, ino);
      var group := (ino - 1) / geo.inodesPerGroup;
      var index := (ino - 1) % geo.inodesPerGroup;
      GroupSite(disk[..], sb, geo, lay, roles, group);
      GroupReads(disk[..], sb, group);
      var ok, d := ReadBgd(group);
      if !ok { assert false; }
      InodeByteOffset(ino, InodeTableOf(d), index);
      var byteOff := InodeTableOf(d) * geo.blockSize + index * geo.inodeSize;
      assert byteOff < TWO_32;
      blk := byteOff / geo.blockSize;
      off := byteOff % geo.blockSize;
    }

    lemma InodeByteOffset(ino: nat, table: nat, index: nat)
      requires GeoOk(geo) && |lay| == geo.groups && IsInode(geo, ino)
      requires forall g: nat :: g < geo.groups ==> InVolume(geo, lay[g], g)
      requires GroupOfInode(geo, ino) < geo.groups && table == lay[GroupOfInode(geo, ino)].it &&
        index == IndexOfInode(geo, ino)
      ensures var byteOff := table * geo.blockSize + index * geo.inodeSize;
              byteOff < TWO_32 && byteOff / geo.blockSize == TableBlock(geo, lay, ino) &&
              byteOff % geo.blockSize == RecOff(geo.blockSize, geo.inodeSize, index)
    {
      hide IsInode, InVolume;
      InodePlace(geo, lay, ino);
      var byteOff := table * geo.blockSize + index * geo.inodeSize;
      ByteOffset(table, geo.blockSize, index * geo.inodeSize);
      QuotBelow(byteOff, geo.blockSize, geo.totalBlocks);
    }

    method WriteInode(ino: nat, inode: Inode) returns (ok: bool)
      requires Meta()
      modifies gBuf, disk
      ensures Shape() && Laid(old(disk[..]), geo, lay) && ok == IsInode(geo, ino)
      ensures ok ==> disk[..] == WithInode(old(disk[..]), geo, lay, ino, inode)
      ensures !ok ==> disk[..] == old(disk[..])
    {
      hide Sized, LayoutOk, UsedOk, ReservedOk, ClearCount, GetU16, GetU32, ClearBlocks, ClearInodes, Desc, GroupOk;
      if ino == 0 || ino > InodesCount(sb) { return false; }
      var blk, off := LocateInode(ino);
      ReadBlock(blk, gBuf);
      Store(gBuf, off, inode);
      WriteBlock(blk, gBuf);
      ok := true;
    }

    lemma BlockNumberIs(g: nat, idx: nat)
      ensures BlockNumber(geo, g, idx) == g * BlocksPerGroup(geo) + idx + geo.firstDataBlock
    {}

    /** A clear bit of a block bitmap stands for a block inside the volume that has no role. */
    lemma FreeBitIsFree(img: seq<Block>, super: seq<byte>, g: nat, idx: nat)
      requires MetaOk(img, super, geo, lay, roles) && g < geo.groups && idx < BlocksPerGroup(geo)
      requires InVolume(geo, lay[g], g) && !Bit(img[lay[g].bb], idx)
      ensures var b := BlockNumber(geo, g, idx);
              b != 0 && IsBlock(geo, b) && b < geo.totalBlocks && b !in roles && !Used(img, geo, lay, b)
    {
      hide Sized, GroupOk, Bit;
      BlockNumbering(geo, g, idx);
      NextSlot(g, geo.groups, BlocksPerGroup(geo));
      var b := BlockNumber(geo, g, idx);
      assert IsBlock(geo, b);
      BlockIsNumbered(geo, b);
      assert !Used(img, geo, lay, b);
      assert HasRole(roles, geo.firstDataBlock, Super);
    }
  }

  lemma ClearCountPositive(bm: seq<byte>, i: nat, n: nat)
    requires i < n <= 8 * |bm| && !Bit(bm, i)
    ensures ClearCount(bm, n) > 0
  {
    ClearCountZero(bm, n);
  }

  lemma ByteOffset(block: nat, bs: nat, x: nat)
    requires bs > 0
    ensures (block * bs + x) / bs == block + x / bs && (block * bs + x) % bs == x % bs
  {
    DivBounds(x, bs);
    OneMoreTimes(block, x / bs, bs);
    DivModUnique(block * bs + x, block + x / bs, x % bs, bs);
  }

  lemma QuotBelow(x: nat, d: nat, n: nat)
    requires d > 0
    ensures x / d < n <==> x < n * d
  {
    DivBounds(x, d);
    if x / d < n { NextSlot(x / d, n, d); } else { MulMonotone(n, x / d, d); }
  }

  lemma OneMoreTimes(a: nat, b: nat, c: nat)
    ensures (a + b) * c == a * c + b * c
  {}

  lemma FullByte(bm: seq<byte>, i: nat)
    requires i < |bm| && bm[i] == 255
    ensures forall j: nat :: 8 * i <= j < 8 * i + 8 ==> Bit(bm, j)
  {
    forall j: nat | 8 * i <= j < 8 * i + 8 ensures Bit(bm, j) {
      assert Pow2(4) == 16 && Pow2(8) == 256;
      AllOnes(8, j % 8);
    }
  }
}
