/** One allocator step: a bit of a group's bitmap, the group's descriptor and the superblock change
    together, and the bookkeeping still agrees. */
module Ext2Steps {
  import opened Bytes
  import opened Ext2Tree
  import opened Ext2Meta

  /** The image after bitmap `bm`, the descriptor of group `g` and the superblock are written. */
  ghost function Updated(img: seq<Block>, geo: Geo, at: nat, bm: Block, g: nat, d: seq<byte>,
      sb: seq<byte>): (r: seq<Block>)
    requires GeoOk(geo) && WfImage(img, geo) && at < |img| && |bm| == geo.blockSize
    requires DescBlock(geo, g) < |img| && |d| == BGD_SIZE && |sb| == SB_SIZE && geo.firstDataBlock < |img|
    ensures WfImage(r, geo)
  {
    assert geo.blockSize % BGD_SIZE == 0;
    RecordsApart(geo.blockSize, BGD_SIZE, g, g);
    WithSuper(WithRecord(img[at := bm], geo.firstDataBlock + 1, geo.blockSize, BGD_SIZE, g, d), geo, sb)
  }

  function WithSuper(img: seq<Block>, geo: Geo, sb: seq<byte>): (r: seq<Block>)
    requires GeoOk(geo) && WfImage(img, geo) && |sb| == SB_SIZE && geo.firstDataBlock < |img|
    ensures WfImage(r, geo)
  {
    img[geo.firstDataBlock := Patch(img[geo.firstDataBlock], SuperOff(geo), sb)]
  }

  /** Only bitmap block `at`, the descriptor of group `g` and the superblock differ. */
  ghost predicate Touches(img: seq<Block>, img': seq<Block>, geo: Geo, lay: seq<GroupLay>, at: nat, g: nat)
    requires Laid(img, geo, lay) && Laid(img', geo, lay) && g < geo.groups
  {
    (forall x :: 0 <= x < |img| && x != at && x != DescBlock(geo, g) && x != geo.firstDataBlock ==>
      img'[x] == img[x]) &&
    (forall j: nat :: j < geo.groups && j != g ==> SameDesc(img, img', geo, lay, j))
  }

  ghost predicate SameDesc(img: seq<Block>, img': seq<Block>, geo: Geo, lay: seq<GroupLay>, j: nat)
    requires Laid(img, geo, lay) && Laid(img', geo, lay) && j < geo.groups
  {
    assert InVolume(geo, lay[j], j);
    Desc(img', geo, j) == Desc(img, geo, j)
  }

  lemma UpdatedTouches(img: seq<Block>, geo: Geo, lay: seq<GroupLay>, roles: map<nat, Role>,
                       at: nat, bm: Block, g: nat, d: seq<byte>, sb: seq<byte>)
    requires Laid(img, geo, lay) && LayoutOk(geo, lay, roles) && g < geo.groups
    requires HasRole(roles, at, BlockBitmap(g)) || HasRole(roles, at, InodeBitmap(g))
    requires |bm| == geo.blockSize && |d| == BGD_SIZE && |sb| == SB_SIZE
    ensures DescBlock(geo, g) < |img| && Laid(Updated(img, geo, at, bm, g, d, sb), geo, lay)
    ensures Touches(img, Updated(img, geo, at, bm, g, d, sb), geo, lay, at, g)
    ensures Updated(img, geo, at, bm, g, d, sb)[at] == bm
    ensures Desc(Updated(img, geo, at, bm, g, d, sb), geo, g) == d
    ensures Updated(img, geo, at, bm, g, d, sb)[geo.firstDataBlock][SuperOff(geo)..SuperOff(geo) + SB_SIZE] == sb
  {
    hide Sized, GetU32, Record, Patch;
    DescPlace(geo, lay, roles, g);
    var i2 := WithRecord(img[at := bm], geo.firstDataBlock + 1, geo.blockSize, BGD_SIZE, g, d);
    assert HasRole(roles, geo.firstDataBlock, Super);
    PatchWindow(i2[geo.firstDataBlock], SuperOff(geo), sb, SuperOff(geo), SB_SIZE);
    WithRecordIsLocal(img[at := bm], geo.firstDataBlock + 1, geo.blockSize, BGD_SIZE, g, d);
    forall j: nat | j < geo.groups
      ensures InVolume(geo, lay[j], j) && (j == g || SameDesc(img, Updated(img, geo, at, bm, g, d, sb), geo, lay, j)) &&
              (j == g ==> Desc(Updated(img, geo, at, bm, g, d, sb), geo, j) == d)
    {
      assert InVolume(geo, lay[j], j);
      DescAfterUpdate(img, geo, lay, roles, at, bm, g, d, sb, j);
    }
  }

  lemma WithRecordIsLocal(img: seq<Block>, start: nat, bs: nat, size: nat, k: nat, r: seq<byte>)
    requires bs > 0 && RecBlock(start, bs, size, k) < |img| &&
             RecOff(bs, size, k) + |r| <= |img[RecBlock(start, bs, size, k)]|
    ensures forall x :: 0 <= x < |img| && x != RecBlock(start, bs, size, k) ==>
              WithRecord(img, start, bs, size, k, r)[x] == img[x]
  {}

  lemma DescAfterUpdate(img: seq<Block>, geo: Geo, lay: seq<GroupLay>, roles: map<nat, Role>,
                        at: nat, bm: Block, g: nat, d: seq<byte>, sb: seq<byte>, j: nat)
    requires Laid(img, geo, lay) && LayoutOk(geo, lay, roles) && g < geo.groups && j < geo.groups
    requires HasRole(roles, at, BlockBitmap(g)) || HasRole(roles, at, InodeBitmap(g))
    requires |bm| == geo.blockSize && |d| == BGD_SIZE && |sb| == SB_SIZE
    ensures DescBlock(geo, g) < |img| && DescBlock(geo, j) < |img|
    ensures Desc(Updated(img, geo, at, bm, g, d, sb), geo, j) == if j == g then d else Desc(img, geo, j)
  {
    hide Sized, GetU32, Patch, RecOff;
    DescPlace(geo, lay, roles, g);
    DescPlace(geo, lay, roles, j);
    assert HasRole(roles, geo.firstDataBlock, Super);
    WithRecordRecords(img[at := bm], geo.firstDataBlock + 1, geo.blockSize, BGD_SIZE, g, d, j);
  }

  // ---------------------------------------------------------------- the sums over groups

  /** The bitmaps of the other groups, and the other kind of bitmap, are untouched. */
  lemma OtherBitmapsSame(img: seq<Block>, img': seq<Block>, geo: Geo, lay: seq<GroupLay>, roles: map<nat, Role>,
                         at: nat, g: nat, j: nat)
    requires Laid(img, geo, lay) && Laid(img', geo, lay) && LayoutOk(geo, lay, roles) && g < geo.groups &&
      j < geo.groups
    requires Touches(img, img', geo, lay, at, g) && (at == lay[g].bb || at == lay[g].ib)
    ensures InVolume(geo, lay[j], j)
    ensures at != lay[j].bb ==> img'[lay[j].bb] == img[lay[j].bb]
    ensures at != lay[j].ib ==> img'[lay[j].ib] == img[lay[j].ib]
    ensures lay[j].bb != lay[g].ib && lay[j].ib != lay[g].bb &&
      (j != g ==> lay[j].bb != lay[g].bb && lay[j].ib != lay[g].ib)
  {
    assert GroupPlaced(geo, lay[j], j, roles) && GroupPlaced(geo, lay[g], g, roles);
    assert HasRole(roles, geo.firstDataBlock, Super);
    DescPlace(geo, lay, roles, g);
    assert InVolume(geo, lay[j], j);
  }

  lemma {:induction false} ClearBlocksStep(img: seq<Block>, img': seq<Block>, geo: Geo, lay: seq<GroupLay>,
                                           roles: map<nat, Role>, at: nat, g: nat, n: nat)
    requires Laid(img, geo, lay) && Laid(img', geo, lay) && LayoutOk(geo, lay, roles) && g < geo.groups &&
      n <= geo.groups
    requires Touches(img, img', geo, lay, at, g) && (at == lay[g].bb || at == lay[g].ib)
    ensures InVolume(geo, lay[g], g)
    ensures ClearBlocks(img', geo, lay, n) == ClearBlocks(img, geo, lay, n) +
            if g < n && at == lay[g].bb
            then ClearCount(img'[at], BlocksPerGroup(geo)) - ClearCount(img[at], BlocksPerGroup(geo)) else 0
  {
    hide Sized, Touches, LayoutOk, ClearCount;
    OtherBitmapsSame(img, img', geo, lay, roles, at, g, g);
    if n > 0 {
      ClearBlocksStep(img, img', geo, lay, roles, at, g, n - 1);
      OtherBitmapsSame(img, img', geo, lay, roles, at, g, n - 1);
    }
  }

  lemma {:induction false} ClearInodesStep(img: seq<Block>, img': seq<Block>, geo: Geo, lay: seq<GroupLay>,
                                           roles: map<nat, Role>, at: nat, g: nat, n: nat)
    requires Laid(img, geo, lay) && Laid(img', geo, lay) && LayoutOk(geo, lay, roles) && g < geo.groups &&
      n <= geo.groups
    requires Touches(img, img', geo, lay, at, g) && (at == lay[g].bb || at == lay[g].ib)
    ensures InVolume(geo, lay[g], g)
    ensures ClearInodes(img', geo, lay, n) == ClearInodes(img, geo, lay, n) +
            if g < n && at == lay[g].ib
            then ClearCount(img'[at], geo.inodesPerGroup) - ClearCount(img[at], geo.inodesPerGroup) else 0
  {
    hide Sized, Touches, LayoutOk, ClearCount;
    OtherBitmapsSame(img, img', geo, lay, roles, at, g, g);
    if n > 0 {
      ClearInodesStep(img, img', geo, lay, roles, at, g, n - 1);
      OtherBitmapsSame(img, img', geo, lay, roles, at, g, n - 1);
    }
  }

  // ---------------------------------------------------------------- a step keeps the bookkeeping

  /** What a step must do to the superblock and to its group's descriptor, beside the bitmap. */
  ghost predicate StepOk(img: seq<Block>, sb: seq<byte>, img': seq<Block>, sb': seq<byte>,
                         geo: Geo, lay: seq<GroupLay>, at: nat, g: nat)
    requires Laid(img, geo, lay) && Laid(img', geo, lay) && g < geo.groups
  {
    Touches(img, img', geo, lay, at, g) && (at == lay[g].bb || at == lay[g].ib) &&
    |sb| == SB_SIZE && |sb'| == SB_SIZE && InodesCount(sb') == InodesCount(sb) && FirstIno(sb') == FirstIno(sb) &&
    img'[geo.firstDataBlock][SuperOff(geo)..SuperOff(geo) + SB_SIZE] == sb' &&
    GroupOk(img', geo, lay, g) &&
    (assert InVolume(geo, lay[g], g);
     var blocks := if at == lay[g].bb
                   then ClearCount(img'[at], BlocksPerGroup(geo)) - ClearCount(img[at], BlocksPerGroup(geo)) else 0;
     var inodes := if at == lay[g].ib
                   then ClearCount(img'[at], geo.inodesPerGroup) - ClearCount(img[at], geo.inodesPerGroup) else 0;
     FreeBlocksCount(sb') == FreeBlocksCount(sb) + blocks && FreeInodesCount(sb') == FreeInodesCount(sb) + inodes)
  }

  lemma StepKeepsCounts(img: seq<Block>, sb: seq<byte>, img': seq<Block>, sb': seq<byte>,
                        geo: Geo, lay: seq<GroupLay>, roles: map<nat, Role>, at: nat, g: nat)
    requires MetaOk(img, sb, geo, lay, roles) && Laid(img', geo, lay) && g < geo.groups
    requires StepOk(img, sb, img', sb', geo, lay, at, g)
    ensures SuperOk(img', sb', geo, lay)
    ensures forall j: nat :: j < geo.groups ==> GroupOk(img', geo, lay, j)
  {
    ClearBlocksStep(img, img', geo, lay, roles, at, g, geo.groups);
    ClearInodesStep(img, img', geo, lay, roles, at, g, geo.groups);
    forall j: nat | j < geo.groups ensures GroupOk(img', geo, lay, j) {
      if j != g {
        assert GroupOk(img, geo, lay, j) && SameDesc(img, img', geo, lay, j);
        OtherBitmapsSame(img, img', geo, lay, roles, at, g, j);
      }
    }
  }

  /** The blocks a step on the block bitmap of group `g` takes or gives back: only bit `idx`. */
  lemma BlockStep(img: seq<Block>, sb: seq<byte>, img': seq<Block>, sb': seq<byte>,
                  geo: Geo, lay: seq<GroupLay>, roles: map<nat, Role>, g: nat, idx: nat, taken: bool)
    requires MetaOk(img, sb, geo, lay, roles) && Laid(img', geo, lay) && g < geo.groups && idx < BlocksPerGroup(geo)
    requires StepOk(img, sb, img', sb', geo, lay, lay[g].bb, g) && InVolume(geo, lay[g], g)
    requires img'[lay[g].bb] == if taken then WithBit(img[lay[g].bb], idx) else WithoutBit(img[lay[g].bb], idx)
    requires !taken ==> BlockNumber(geo, g, idx) !in roles && BlockNumber(geo, g, idx) < geo.totalBlocks
    ensures MetaOk(img', sb', geo, lay, roles)
    ensures forall b: nat :: IsBlock(geo, b) ==>
              (Used(img', geo, lay, b) <==> if b == BlockNumber(geo, g, idx) then taken else Used(img, geo, lay, b))
    ensures forall ino: nat :: IsInode(geo, ino) ==> (UsedInode(img', geo, lay, ino) <==> UsedInode(img, geo, lay, ino))
  {
    StepKeepsCounts(img, sb, img', sb', geo, lay, roles, lay[g].bb, g);
    forall b: nat | IsBlock(geo, b)
      ensures Used(img', geo, lay, b) <==> if b == BlockNumber(geo, g, idx) then taken else Used(img, geo, lay, b)
    {
      BlockIsNumbered(geo, b);
      BlockNumbering(geo, g, idx);
      OtherBitmapsSame(img, img', geo, lay, roles, lay[g].bb, g, GroupOfBlock(geo, b));
      WithBitBits(img[lay[g].bb], idx, IndexOfBlock(geo, b));
      WithoutBitBits(img[lay[g].bb], idx, IndexOfBlock(geo, b));
    }
    forall ino: nat | IsInode(geo, ino) ensures UsedInode(img', geo, lay, ino) <==> UsedInode(img, geo, lay, ino) {
      InodeIsNumbered(geo, ino);
      OtherBitmapsSame(img, img', geo, lay, roles, lay[g].bb, g, GroupOfInode(geo, ino));
    }
  }

  /** The same for a step on the inode bitmap. */
  lemma InodeStep(img: seq<Block>, sb: seq<byte>, img': seq<Block>, sb': seq<byte>,
                  geo: Geo, lay: seq<GroupLay>, roles: map<nat, Role>, g: nat, idx: nat, taken: bool)
    requires MetaOk(img, sb, geo, lay, roles) && Laid(img', geo, lay) && g < geo.groups && idx < geo.inodesPerGroup
    requires StepOk(img, sb, img', sb', geo, lay, lay[g].ib, g) && InVolume(geo, lay[g], g)
    requires img'[lay[g].ib] == if taken then WithBit(img[lay[g].ib], idx) else WithoutBit(img[lay[g].ib], idx)
    requires !taken ==> InodeNumber(geo, g, idx) >= geo.firstIno
    ensures MetaOk(img', sb', geo, lay, roles)
    ensures forall b: nat :: IsBlock(geo, b) ==> (Used(img', geo, lay, b) <==> Used(img, geo, lay, b))
    ensures forall ino: nat :: IsInode(geo, ino) ==>
              (UsedInode(img', geo, lay, ino) <==> if ino == InodeNumber(geo, g, idx) then taken
                else UsedInode(img, geo, lay, ino))
  {
    StepKeepsCounts(img, sb, img', sb', geo, lay, roles, lay[g].ib, g);
    forall b: nat | IsBlock(geo, b) ensures Used(img', geo, lay, b) <==> Used(img, geo, lay, b) {
      BlockIsNumbered(geo, b);
      OtherBitmapsSame(img, img', geo, lay, roles, lay[g].ib, g, GroupOfBlock(geo, b));
    }
    forall ino: nat | IsInode(geo, ino)
      ensures UsedInode(img', geo, lay, ino) <==> if ino == InodeNumber(geo, g, idx) then taken
        else UsedInode(img, geo, lay, ino)
    {
      InodeIsNumbered(geo, ino);
      InodeNumbering(geo, g, idx);
      OtherBitmapsSame(img, img', geo, lay, roles, lay[g].ib, g, GroupOfInode(geo, ino));
      WithBitBits(img[lay[g].ib], idx, IndexOfInode(geo, ino));
      WithoutBitBits(img[lay[g].ib], idx, IndexOfInode(geo, ino));
    }
  }

  // ---------------------------------------------------------------- the four allocator steps

  function WithFreeBlocks(d: seq<byte>, n: nat): (e: seq<byte>)
    requires |d| == BGD_SIZE
    ensures |e| == BGD_SIZE
  {
    PutU16(d, 12, n)
  }

  function WithFreeInodes(d: seq<byte>, n: nat): (e: seq<byte>)
    requires |d| == BGD_SIZE
    ensures |e| == BGD_SIZE
  {
    PutU16(d, 14, n)
  }

  function WithUsedDirs(d: seq<byte>, n: nat): (e: seq<byte>)
    requires |d| == BGD_SIZE
    ensures |e| == BGD_SIZE
  {
    PutU16(d, 16, n)
  }

  function WithFreeBlocksCount(sb: seq<byte>, n: nat): (e: seq<byte>)
    requires |sb| == SB_SIZE
    ensures |e| == SB_SIZE
  {
    PutU32(sb, 12, n)
  }

  function WithFreeInodesCount(sb: seq<byte>, n: nat): (e: seq<byte>)
    requires |sb| == SB_SIZE
    ensures |e| == SB_SIZE
  {
    PutU32(sb, 16, n)
  }

  lemma DescWords(d: seq<byte>, n: nat)
    requires |d| == BGD_SIZE && n < TWO_16
    ensures var e := WithFreeBlocks(d, n);
            BlockBitmapOf(e) == BlockBitmapOf(d) && InodeBitmapOf(e) == InodeBitmapOf(d) &&
            InodeTableOf(e) == InodeTableOf(d) && FreeBlocksOf(e) == n && FreeInodesOf(e) == FreeInodesOf(d)
    ensures var e := WithFreeInodes(d, n);
            BlockBitmapOf(e) == BlockBitmapOf(d) && InodeBitmapOf(e) == InodeBitmapOf(d) &&
            InodeTableOf(e) == InodeTableOf(d) && FreeBlocksOf(e) == FreeBlocksOf(d) && FreeInodesOf(e) == n
    ensures var e := WithUsedDirs(d, n);
            BlockBitmapOf(e) == BlockBitmapOf(d) && InodeBitmapOf(e) == InodeBitmapOf(d) &&
            InodeTableOf(e) == InodeTableOf(d) && FreeBlocksOf(e) == FreeBlocksOf(d) &&
              FreeInodesOf(e) == FreeInodesOf(d)
  {
    hide GetU16, GetU32, LittleEndian;
    PutGet16(d, 12, n);
    PutGet16(d, 14, n);
    var w := LittleEndian(n, 2);
    PatchKeepsWords(d, 12, w, 0);
    PatchKeepsWords(d, 12, w, 4);
    PatchKeepsWords(d, 12, w, 8);
    PatchKeepsWords(d, 12, w, 14);
    PatchKeepsWords(d, 14, w, 0);
    PatchKeepsWords(d, 14, w, 4);
    PatchKeepsWords(d, 14, w, 8);
    PatchKeepsWords(d, 14, w, 12);
    PatchKeepsWords(d, 16, w, 0);
    PatchKeepsWords(d, 16, w, 4);
    PatchKeepsWords(d, 16, w, 8);
    PatchKeepsWords(d, 16, w, 12);
    PatchKeepsWords(d, 16, w, 14);
  }

  lemma SuperWords(sb: seq<byte>, n: nat)
    requires |sb| == SB_SIZE && n < TWO_32
    ensures var e := WithFreeBlocksCount(sb, n);
            InodesCount(e) == InodesCount(sb) && FirstIno(e) == FirstIno(sb) && FreeBlocksCount(e) == n &&
            FreeInodesCount(e) == FreeInodesCount(sb)
    ensures var e := WithFreeInodesCount(sb, n);
            InodesCount(e) == InodesCount(sb) && FirstIno(e) == FirstIno(sb) &&
              FreeBlocksCount(e) == FreeBlocksCount(sb) &&
            FreeInodesCount(e) == n
  {
    hide GetU32, LittleEndian;
    PutGet32(sb, 12, n);
    PutGet32(sb, 16, n);
    var w := LittleEndian(n, 4);
    PatchKeepsWords(sb, 12, w, 0);
    PatchKeepsWords(sb, 12, w, 16);
    PatchKeepsWords(sb, 12, w, 84);
    PatchKeepsWords(sb, 16, w, 0);
    PatchKeepsWords(sb, 16, w, 12);
    PatchKeepsWords(sb, 16, w, 84);
  }

  /** What group `g` looks like to the code. */
  lemma GroupSite(img: seq<Block>, sb: seq<byte>, geo: Geo, lay: seq<GroupLay>, roles: map<nat, Role>, g: nat)
    requires MetaOk(img, sb, geo, lay, roles) && g < geo.groups
    ensures InVolume(geo, lay[g], g) && lay[g].bb != lay[g].ib && |img[lay[g].bb]| == |img[lay[g].ib]| == geo.blockSize
    ensures HasRole(roles, lay[g].bb, BlockBitmap(g)) && HasRole(roles, lay[g].ib, InodeBitmap(g))
    ensures GroupOk(img, geo, lay, g) && BlocksPerGroup(geo) <= 32768 && geo.inodesPerGroup <= BlocksPerGroup(geo)
    ensures ClearBlocks(img, geo, lay, geo.groups) >= ClearCount(img[lay[g].bb], BlocksPerGroup(geo))
    ensures ClearInodes(img, geo, lay, geo.groups) >= ClearCount(img[lay[g].ib], geo.inodesPerGroup)
  {
    assert GroupPlaced(geo, lay[g], g, roles);
    SumsCover(img, geo, lay, g, geo.groups);
  }

  lemma {:induction false} SumsCover(img: seq<Block>, geo: Geo, lay: seq<GroupLay>, g: nat, n: nat)
    requires Laid(img, geo, lay) && g < n <= geo.groups
    ensures InVolume(geo, lay[g], g)
    ensures ClearBlocks(img, geo, lay, n) >= ClearCount(img[lay[g].bb], BlocksPerGroup(geo))
    ensures ClearInodes(img, geo, lay, n) >= ClearCount(img[lay[g].ib], geo.inodesPerGroup)
  {
    assert InVolume(geo, lay[n - 1], n - 1);
    if g < n - 1 { SumsCover(img, geo, lay, g, n - 1); }
  }

  /** Nothing the allocators count comes near 2^32. */
  lemma VolumeBounds(geo: Geo)
    requires GeoOk(geo)
    ensures geo.groups * BlocksPerGroup(geo) + 1 < TWO_32 && geo.groups * geo.inodesPerGroup + 1 < TWO_32
  {
    var g, b := geo.groups - 1, BlocksPerGroup(geo);
    assert geo.groups * b == g * b + b;
    MulMonotone(1024, geo.blockSize, geo.totalBlocks);
    MulMonotone(geo.inodesPerGroup, b, geo.groups);
  }

  lemma {:induction false} SumsBounded(img: seq<Block>, geo: Geo, lay: seq<GroupLay>, n: nat)
    requires Laid(img, geo, lay) && n <= geo.groups
    ensures ClearBlocks(img, geo, lay, n) <= n * BlocksPerGroup(geo)
    ensures ClearInodes(img, geo, lay, n) <= n * geo.inodesPerGroup
  {
    if n > 0 {
      SumsBounded(img, geo, lay, n - 1);
      assert InVolume(geo, lay[n - 1], n - 1);
      OneMore(n - 1, BlocksPerGroup(geo));
      OneMore(n - 1, geo.inodesPerGroup);
    }
  }

  lemma OneMore(n: nat, x: nat)
    ensures (n + 1) * x == n * x + x
  {}

  /** A written bitmap, descriptor and superblock whose numbers agree make a step. */
  lemma MakeStep(img: seq<Block>, sb: seq<byte>, geo: Geo, lay: seq<GroupLay>, roles: map<nat, Role>,
                 at: nat, g: nat, bm: Block, d: seq<byte>, d': seq<byte>, sb': seq<byte>, img': seq<Block>)
    requires MetaOk(img, sb, geo, lay, roles) && g < geo.groups && InVolume(geo, lay[g], g)
    requires at == lay[g].bb || at == lay[g].ib
    requires |bm| == geo.blockSize && d == Desc(img, geo, g) && |d'| == BGD_SIZE && |sb'| == SB_SIZE
    requires BlockBitmapOf(d') == BlockBitmapOf(d) && InodeBitmapOf(d') == InodeBitmapOf(d) &&
      InodeTableOf(d') == InodeTableOf(d)
    requires InodesCount(sb') == InodesCount(sb) && FirstIno(sb') == FirstIno(sb)
    requires at == lay[g].bb ==>
               FreeBlocksOf(d') == ClearCount(bm, BlocksPerGroup(geo)) && FreeInodesOf(d') == FreeInodesOf(d) &&
               FreeBlocksCount(sb') == FreeBlocksCount(sb) + FreeBlocksOf(d') - FreeBlocksOf(d) &&
               FreeInodesCount(sb') == FreeInodesCount(sb)
    requires at == lay[g].ib ==>
               FreeInodesOf(d') == ClearCount(bm, geo.inodesPerGroup) && FreeBlocksOf(d') == FreeBlocksOf(d) &&
               FreeInodesCount(sb') == FreeInodesCount(sb) + FreeInodesOf(d') - FreeInodesOf(d) &&
               FreeBlocksCount(sb') == FreeBlocksCount(sb)
    requires img' == Updated(img, geo, at, bm, g, d', sb')
    ensures Laid(img', geo, lay) && StepOk(img, sb, img', sb', geo, lay, at, g) && img'[at] == bm
    ensures Touches(img, img', geo, lay, at, g)
  {
    hide Sized, LayoutOk, UsedOk, ReservedOk, Touches, Bit, ClearCount, GetU16, GetU32, Updated, ClearBlocks,
      ClearInodes, HasRole;
    GroupSite(img, sb, geo, lay, roles, g);
    UpdatedTouches(img, geo, lay, roles, at, bm, g, d', sb');
    OtherBitmapsSame(img, img', geo, lay, roles, at, g, g);
  }

  /** `alloc_block_internal` takes clear bit `idx` of group `g`. */
  lemma TakeBlock(img: seq<Block>, sb: seq<byte>, geo: Geo, lay: seq<GroupLay>, roles: map<nat, Role>,
                  g: nat, idx: nat, d: seq<byte>, d': seq<byte>, sb': seq<byte>, img': seq<Block>)
    requires MetaOk(img, sb, geo, lay, roles) && g < geo.groups && idx < BlocksPerGroup(geo)
    requires InVolume(geo, lay[g], g) && !Bit(img[lay[g].bb], idx)
    requires d == Desc(img, geo, g) && FreeBlocksOf(d) > 0 && d' == WithFreeBlocks(d, FreeBlocksOf(d) - 1)
    requires FreeBlocksCount(sb) > 0 && sb' == WithFreeBlocksCount(sb, FreeBlocksCount(sb) - 1)
    requires img' == Updated(img, geo, lay[g].bb, WithBit(img[lay[g].bb], idx), g, d', sb')
    ensures MetaOk(img', sb', geo, lay, roles)
    ensures FreeBlocksCount(sb') == FreeBlocksCount(sb) - 1 && FreeInodesCount(sb') == FreeInodesCount(sb)
    ensures Touches(img, img', geo, lay, lay[g].bb, g)
    ensures forall b: nat :: IsBlock(geo, b) ==>
              (Used(img', geo, lay, b) <==> b == BlockNumber(geo, g, idx) || Used(img, geo, lay, b))
    ensures forall ino: nat :: IsInode(geo, ino) ==> (UsedInode(img', geo, lay, ino) <==> UsedInode(img, geo, lay, ino))
  {
    hide Sized, LayoutOk, UsedOk, ReservedOk, Touches, Bit, ClearCount, Used, UsedInode, GetU16, GetU32, Updated,
      ClearBlocks, ClearInodes, InodeNumber, BlockNumber, DirsAfter, WithFreeInodes, WithFreeBlocks,
      WithFreeInodesCount, WithFreeBlocksCount, HasRole, StepOk, WithBit, WithoutBit, Desc;
    GroupSite(img, sb, geo, lay, roles, g);
    DescWords(d, FreeBlocksOf(d) - 1);
    SuperWords(sb, FreeBlocksCount(sb) - 1);
    ClearCountSet(img[lay[g].bb], idx, BlocksPerGroup(geo));
    MakeStep(img, sb, geo, lay, roles, lay[g].bb, g, WithBit(img[lay[g].bb], idx), d, d', sb', img');
    BlockStep(img, sb, img', sb', geo, lay, roles, g, idx, true);
  }

  /** `free_block` gives back bit `idx` of group `g`, which no role needs. */
  lemma ReleaseBlock(img: seq<Block>, sb: seq<byte>, geo: Geo, lay: seq<GroupLay>, roles: map<nat, Role>,
                     g: nat, idx: nat, d: seq<byte>, d': seq<byte>, sb': seq<byte>, img': seq<Block>)
    requires MetaOk(img, sb, geo, lay, roles) && g < geo.groups && idx < BlocksPerGroup(geo)
    requires InVolume(geo, lay[g], g) && Bit(img[lay[g].bb], idx)
    requires BlockNumber(geo, g, idx) !in roles && BlockNumber(geo, g, idx) < geo.totalBlocks
    requires d == Desc(img, geo, g) && d' == WithFreeBlocks(d, FreeBlocksOf(d) + 1)
    requires sb' == WithFreeBlocksCount(sb, FreeBlocksCount(sb) + 1)
    requires img' == Updated(img, geo, lay[g].bb, WithoutBit(img[lay[g].bb], idx), g, d', sb')
    ensures MetaOk(img', sb', geo, lay, roles)
    ensures FreeBlocksCount(sb') == FreeBlocksCount(sb) + 1 && FreeInodesCount(sb') == FreeInodesCount(sb)
    ensures Touches(img, img', geo, lay, lay[g].bb, g)
    ensures forall b: nat :: IsBlock(geo, b) ==>
              (Used(img', geo, lay, b) <==> b != BlockNumber(geo, g, idx) && Used(img, geo, lay, b))
    ensures forall ino: nat :: IsInode(geo, ino) ==> (UsedInode(img', geo, lay, ino) <==> UsedInode(img, geo, lay, ino))
  {
    hide Sized, LayoutOk, UsedOk, ReservedOk, Touches, Bit, ClearCount, Used, UsedInode, GetU16, GetU32, Updated,
      ClearBlocks, ClearInodes, InodeNumber, BlockNumber, DirsAfter, WithFreeInodes, WithFreeBlocks,
      WithFreeInodesCount, WithFreeBlocksCount, HasRole, StepOk, WithBit, WithoutBit, Desc;
    GroupSite(img, sb, geo, lay, roles, g);
    ClearCountCleared(img[lay[g].bb], idx, BlocksPerGroup(geo));
    SumsBounded(img, geo, lay, geo.groups);
    VolumeBounds(geo);
    DescWords(d, FreeBlocksOf(d) + 1);
    SuperWords(sb, FreeBlocksCount(sb) + 1);
    MakeStep(img, sb, geo, lay, roles, lay[g].bb, g, WithoutBit(img[lay[g].bb], idx), d, d', sb', img');
    BlockStep(img, sb, img', sb', geo, lay, roles, g, idx, false);
  }

  /** Given back although it is free, or in use for something, or past the end of the volume, a block upsets the
      bookkeeping: a count or a role no longer agrees with the bitmap. */
  lemma WrongBlock(img: seq<Block>, sb: seq<byte>, geo: Geo, lay: seq<GroupLay>, roles: map<nat, Role>,
                   g: nat, idx: nat, d: seq<byte>, d': seq<byte>, sb': seq<byte>, img': seq<Block>)
    requires MetaOk(img, sb, geo, lay, roles) && g < geo.groups && idx < BlocksPerGroup(geo)
    requires InVolume(geo, lay[g], g)
    requires !Bit(img[lay[g].bb], idx) || BlockNumber(geo, g, idx) in roles ||
             BlockNumber(geo, g, idx) >= geo.totalBlocks
    requires d == Desc(img, geo, g) && d' == WithFreeBlocks(d, FreeBlocksOf(d) + 1) && |sb'| == SB_SIZE
    requires img' == Updated(img, geo, lay[g].bb, WithoutBit(img[lay[g].bb], idx), g, d', sb')
    ensures !MetaOk(img', sb', geo, lay, roles)
  {
    hide Sized, LayoutOk, ReservedOk, Touches, Bit, ClearCount, UsedInode, GetU16, GetU32, Updated, ClearBlocks,
      ClearInodes, BlockNumber, WithFreeBlocks, HasRole, WithBit, WithoutBit, Desc;
    GroupSite(img, sb, geo, lay, roles, g);
    ClearCountCleared(img[lay[g].bb], idx, BlocksPerGroup(geo));
    DescWords(d, FreeBlocksOf(d) + 1);
    UpdatedTouches(img, geo, lay, roles, lay[g].bb, WithoutBit(img[lay[g].bb], idx), g, d', sb');
    BlockNumbering(geo, g, idx);
    WithoutBitBits(img[lay[g].bb], idx, idx);
    if Bit(img[lay[g].bb], idx) {
      assert !Used(img', geo, lay, BlockNumber(geo, g, idx));
    } else {
      assert !GroupOk(img', geo, lay, g);
    }
  }

  /** The directory counter of a descriptor after an inode was taken or given back. */
  function DirsAfter(d: seq<byte>, isDir: bool, taken: bool): (e: seq<byte>)
    requires |d| == BGD_SIZE
    ensures |e| == BGD_SIZE
  {
    if !isDir then d
    else if taken then WithUsedDirs(d, (UsedDirsOf(d) + 1) % TWO_16)
    else if UsedDirsOf(d) > 0 then WithUsedDirs(d, UsedDirsOf(d) - 1)
    else d
  }

  lemma DirsWords(d: seq<byte>, isDir: bool, taken: bool, n: nat)
    requires |d| == BGD_SIZE && n < TWO_16
    ensures var e := DirsAfter(WithFreeInodes(d, n), isDir, taken);
            BlockBitmapOf(e) == BlockBitmapOf(d) && InodeBitmapOf(e) == InodeBitmapOf(d) &&
            InodeTableOf(e) == InodeTableOf(d) && FreeBlocksOf(e) == FreeBlocksOf(d) && FreeInodesOf(e) == n
  {
    hide GetU32;
    DescWords(d, n);
    var f := WithFreeInodes(d, n);
    DescWords(f, (UsedDirsOf(f) + 1) % TWO_16);
    if UsedDirsOf(f) > 0 { DescWords(f, UsedDirsOf(f) - 1); }
  }

  /** `alloc_inode` takes clear bit `idx` of the inode bitmap of group `g`. */
  lemma TakeInode(img: seq<Block>, sb: seq<byte>, geo: Geo, lay: seq<GroupLay>, roles: map<nat, Role>,
                  g: nat, idx: nat, isDir: bool, d: seq<byte>, d': seq<byte>, sb': seq<byte>, img': seq<Block>)
    requires MetaOk(img, sb, geo, lay, roles) && g < geo.groups && idx < geo.inodesPerGroup
    requires InVolume(geo, lay[g], g) && !Bit(img[lay[g].ib], idx)
    requires d == Desc(img, geo, g) && FreeInodesOf(d) > 0
    requires d' == DirsAfter(WithFreeInodes(d, FreeInodesOf(d) - 1), isDir, true)
    requires FreeInodesCount(sb) > 0 && sb' == WithFreeInodesCount(sb, FreeInodesCount(sb) - 1)
    requires img' == Updated(img, geo, lay[g].ib, WithBit(img[lay[g].ib], idx), g, d', sb')
    ensures MetaOk(img', sb', geo, lay, roles)
    ensures FreeInodesCount(sb') == FreeInodesCount(sb) - 1 && FreeBlocksCount(sb') == FreeBlocksCount(sb)
    ensures Touches(img, img', geo, lay, lay[g].ib, g)
    ensures forall b: nat :: IsBlock(geo, b) ==> (Used(img', geo, lay, b) <==> Used(img, geo, lay, b))
    ensures forall ino: nat :: IsInode(geo, ino) ==>
              (UsedInode(img', geo, lay, ino) <==> ino == InodeNumber(geo, g, idx) || UsedInode(img, geo, lay, ino))
  {
    hide Sized, LayoutOk, UsedOk, ReservedOk, Touches, Bit, ClearCount, Used, UsedInode, GetU16, GetU32, Updated,
      ClearBlocks, ClearInodes, InodeNumber, BlockNumber, DirsAfter, WithFreeInodes, WithFreeBlocks,
      WithFreeInodesCount, WithFreeBlocksCount, HasRole, StepOk, WithBit, WithoutBit, Desc;
    GroupSite(img, sb, geo, lay, roles, g);
    DirsWords(d, isDir, true, FreeInodesOf(d) - 1);
    SuperWords(sb, FreeInodesCount(sb) - 1);
    ClearCountSet(img[lay[g].ib], idx, geo.inodesPerGroup);
    MakeStep(img, sb, geo, lay, roles, lay[g].ib, g, WithBit(img[lay[g].ib], idx), d, d', sb', img');
    InodeStep(img, sb, img', sb', geo, lay, roles, g, idx, true);
  }

  /** `free_inode` gives back bit `idx` of the inode bitmap of group `g`. */
  lemma ReleaseInode(img: seq<Block>, sb: seq<byte>, geo: Geo, lay: seq<GroupLay>, roles: map<nat, Role>,
                     g: nat, idx: nat, isDir: bool, d: seq<byte>, d': seq<byte>, sb': seq<byte>, img': seq<Block>)
    requires MetaOk(img, sb, geo, lay, roles) && g < geo.groups && idx < geo.inodesPerGroup
    requires InVolume(geo, lay[g], g) && Bit(img[lay[g].ib], idx) && InodeNumber(geo, g, idx) >= geo.firstIno
    requires d == Desc(img, geo, g)
    requires d' == DirsAfter(WithFreeInodes(d, FreeInodesOf(d) + 1), isDir, false)
    requires sb' == WithFreeInodesCount(sb, FreeInodesCount(sb) + 1)
    requires img' == Updated(img, geo, lay[g].ib, WithoutBit(img[lay[g].ib], idx), g, d', sb')
    ensures MetaOk(img', sb', geo, lay, roles)
    ensures FreeInodesCount(sb') == FreeInodesCount(sb) + 1 && FreeBlocksCount(sb') == FreeBlocksCount(sb)
    ensures Touches(img, img', geo, lay, lay[g].ib, g)
    ensures forall b: nat :: IsBlock(geo, b) ==> (Used(img', geo, lay, b) <==> Used(img, geo, lay, b))
    ensures forall ino: nat :: IsInode(geo, ino) ==>
              (UsedInode(img', geo, lay, ino) <==> ino != InodeNumber(geo, g, idx) && UsedInode(img, geo, lay, ino))
  {
    hide Sized, LayoutOk, UsedOk, ReservedOk, Touches, Bit, ClearCount, Used, UsedInode, GetU16, GetU32, Updated,
      ClearBlocks, ClearInodes, InodeNumber, BlockNumber, DirsAfter, WithFreeInodes, WithFreeBlocks,
      WithFreeInodesCount, WithFreeBlocksCount, HasRole, StepOk, WithBit, WithoutBit, Desc;
    GroupSite(img, sb, geo, lay, roles, g);
    ClearCountCleared(img[lay[g].ib], idx, geo.inodesPerGroup);
    SumsBounded(img, geo, lay, geo.groups);
    VolumeBounds(geo);
    DirsWords(d, isDir, false, FreeInodesOf(d) + 1);
    SuperWords(sb, FreeInodesCount(sb) + 1);
    MakeStep(img, sb, geo, lay, roles, lay[g].ib, g, WithoutBit(img[lay[g].ib], idx), d, d', sb', img');
    InodeStep(img, sb, img', sb', geo, lay, roles, g, idx, false);
  }

  /** Given back although it is free or reserved, an inode upsets the bookkeeping. */
  lemma WrongInode(img: seq<Block>, sb: seq<byte>, geo: Geo, lay: seq<GroupLay>, roles: map<nat, Role>,
                   g: nat, idx: nat, isDir: bool, d: seq<byte>, d': seq<byte>, sb': seq<byte>, img': seq<Block>)
    requires MetaOk(img, sb, geo, lay, roles) && g < geo.groups && idx < geo.inodesPerGroup
    requires InVolume(geo, lay[g], g) && (!Bit(img[lay[g].ib], idx) || InodeNumber(geo, g, idx) < geo.firstIno)
    requires d == Desc(img, geo, g) && |sb'| == SB_SIZE
    requires d' == DirsAfter(WithFreeInodes(d, FreeInodesOf(d) + 1), isDir, false)
    requires img' == Updated(img, geo, lay[g].ib, WithoutBit(img[lay[g].ib], idx), g, d', sb')
    ensures !MetaOk(img', sb', geo, lay, roles)
  {
    hide Sized, LayoutOk, UsedOk, Touches, Bit, ClearCount, Used, GetU16, GetU32, Updated, ClearBlocks, ClearInodes,
      InodeNumber, WithFreeInodes, DirsAfter, HasRole, WithBit, WithoutBit, Desc;
    GroupSite(img, sb, geo, lay, roles, g);
    ClearCountCleared(img[lay[g].ib], idx, geo.inodesPerGroup);
    DirsWords(d, isDir, false, FreeInodesOf(d) + 1);
    UpdatedTouches(img, geo, lay, roles, lay[g].ib, WithoutBit(img[lay[g].ib], idx), g, d', sb');
    InodeNumbering(geo, g, idx);
    WithoutBitBits(img[lay[g].ib], idx, idx);
    if Bit(img[lay[g].ib], idx) {
      assert !UsedInode(img', geo, lay, InodeNumber(geo, g, idx));
    } else {
      assert !GroupOk(img', geo, lay, g);
    }
  }

  // ---------------------------------------------------------------- what an allocator call leaves alone

  /** Blocks the allocators rewrite: superblock, descriptors and bitmaps. */
  predicate IsCounter(r: Role) { r.Super? || r.Descriptors? || r.BlockBitmap? || r.InodeBitmap? }

  ghost predicate SameBeyondCounters(img: seq<Block>, img': seq<Block>, roles: map<nat, Role>) {
    |img'| == |img| &&
    forall x :: 0 <= x < |img| && !(x in roles && IsCounter(roles[x])) ==> img'[x] == img[x]
  }

  lemma TouchesOnlyCounters(img: seq<Block>, img': seq<Block>, geo: Geo, lay: seq<GroupLay>, roles: map<nat, Role>,
      at: nat, g: nat)
    requires Laid(img, geo, lay) && Laid(img', geo, lay) && LayoutOk(geo, lay, roles) && g < geo.groups
    requires Touches(img, img', geo, lay, at, g) && (at == lay[g].bb || at == lay[g].ib)
    ensures SameBeyondCounters(img, img', roles)
  {
    hide Sized;
    DescPlace(geo, lay, roles, g);
    assert GroupPlaced(geo, lay[g], g, roles);
    assert HasRole(roles, geo.firstDataBlock, Super);
  }

  lemma {:induction false} NoneClear(img: seq<Block>, geo: Geo, lay: seq<GroupLay>, n: nat)
    requires Laid(img, geo, lay) && n <= geo.groups
    ensures (forall g: nat :: g < n ==>
      InVolume(geo, lay[g], g) && ClearCount(img[lay[g].bb], BlocksPerGroup(geo)) == 0) ==>
              ClearBlocks(img, geo, lay, n) == 0
    ensures (forall g: nat :: g < n ==>
      InVolume(geo, lay[g], g) && ClearCount(img[lay[g].ib], geo.inodesPerGroup) == 0) ==>
              ClearInodes(img, geo, lay, n) == 0
  {
    if n > 0 {
      NoneClear(img, geo, lay, n - 1);
      assert InVolume(geo, lay[n - 1], n - 1);
    }
  }
}
