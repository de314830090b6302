/** The bytes of a file: written block by block through the block map, and read back. */
module Ext2Data {
  import opened Bytes
  import opened Ext2Tree
  import opened Ext2Meta
  import opened Ext2Steps
  import opened Ext2Frames
  import opened Ext2Grow
  import opened Ext2Space
  import opened Ext2Volume
  import opened Ext2Files
  import opened Ext2Records
  import opened Ext2State

  /** Only counters changed: every inode is left alone. */
  lemma CountersKeepFiles(geo: Geo, lay: seq<GroupLay>, sb: seq<byte>, img: seq<Block>, img': seq<Block>,
      roles: map<nat, Role>, j: nat)
    requires MetaOk(img, sb, geo, lay, roles) && Laid(img', geo, lay) && SameBeyondCounters(img, img', roles)
    requires IsInode(geo, j) && (UsedInode(img, geo, lay, j) ==> UsedInode(img', geo, lay, j))
    ensures KeepsFile(geo, lay, img, roles, img', roles, j)
  {
    hide Sized, UsedInode, GroupOk, SuperOk, ReservedOk, UsedOk, InVolume;
    TableRole(geo, lay, roles, j);
    InodePlace(geo, lay, j);
  }

  /** A new block with contents `c`: nothing that had a role or was taken changed, counters aside. */
  lemma BlockFilled(geo: Geo, lay: seq<GroupLay>, ino: nat, sb: seq<byte>, a: View, img1: seq<Block>, sb1: seq<byte>,
                    blk: nat, c: Block)
    requires MetaOk(a.img, sb, geo, lay, a.roles) && ViewOk(geo, lay, ino, a) && Allocated(geo, lay, a, img1, sb1, blk)
    requires |c| == geo.blockSize
    ensures var b := View(img1[blk := c], a.roles, a.inode);
            MetaOk(b.img, sb1, geo, lay, b.roles) && ViewOk(geo, lay, ino, b) && IsSpare(geo, lay, b, blk) &&
            BlocksKept(geo, lay, ino, a, b) && KeepsBlocks(a.img, a.roles, b.img, b.roles, ino) &&
            KeepsOthers(geo, lay, a.img, a.roles, b.img, b.roles, ino) && SameSlot(b.img, geo, lay, a.img, ino)
  {
    hide Sized, Used, UsedInode, GroupOk, SuperOk, ReservedOk, UsedOk, InVolume, LayoutOk, TreeOk;
    var b := View(img1[blk := c], a.roles, a.inode);
    MetaSame(img1, b.img, sb1, geo, lay, a.roles);
    assert BlocksKept(geo, lay, ino, a, b);
    StepKeepsOthers(geo, lay, ino, sb, a, b);
    NodesKeptBlocks(a.img, b.img, geo, a.roles, b.roles, a.inode, ino);
  }

  /** The block map is an updatable array. */
  lemma BlockMapUpdated(geo: Geo, lay: seq<GroupLay>, ino: nat, a: View, b: View, k: nat, v: nat, j: nat)
    requires 0 < PtrsPerBlock(geo) && k < Capacity(PtrsPerBlock(geo))
    requires Stored(geo, lay, ino, a, b, PathOf(PtrsPerBlock(geo), k), v)
    ensures BlockAt(b.img, PtrsPerBlock(geo), b.inode, j) == if j == k then v
      else BlockAt(a.img, PtrsPerBlock(geo), a.inode, j)
  {
    hide Sized, Used, UsedInode, InVolume, TreeOk, PathOf, Capacity, Node;
    var ppb := PtrsPerBlock(geo);
    PathOfIsLeaf(ppb, k);
    if j < Capacity(ppb) {
      PathOfIsLeaf(ppb, j);
      if j != k && PathOf(ppb, j) == PathOf(ppb, k) { PathOfInjective(ppb, j, k); }
    }
  }

  /** After block `k` of the file was set to `v`, chunk `k` is what `v` held and the other chunks stay. */
  lemma StoredChunks(geo: Geo, lay: seq<GroupLay>, ino: nat, sb: seq<byte>, a: View, b: View, k: nat, v: nat)
    requires MetaOk(a.img, sb, geo, lay, a.roles) && IsSpare(geo, lay, a, v) && 0 < PtrsPerBlock(geo) &&
      k < Capacity(PtrsPerBlock(geo))
    requires Stored(geo, lay, ino, a, b, PathOf(PtrsPerBlock(geo), k), v)
    ensures Chunk(b.img, geo, b.inode, k) == a.img[v] && BlockAt(b.img, PtrsPerBlock(geo), b.inode, k) == v
    ensures forall j: nat :: j != k ==> Chunk(b.img, geo, b.inode, j) == Chunk(a.img, geo, a.inode, j)
    ensures forall j: nat :: j != k ==>
      BlockAt(b.img, PtrsPerBlock(geo), b.inode, j) == BlockAt(a.img, PtrsPerBlock(geo), a.inode, j)
    ensures OnlyFile(geo, lay, a.img, a.roles, b.img, b.roles, ino) && ViewOk(geo, lay, ino, b) &&
      SameOther(a.inode, b.inode)
    ensures SameSlot(b.img, geo, lay, a.img, ino)
  {
    hide Sized, Used, UsedInode, GroupOk, SuperOk, ReservedOk, UsedOk, InVolume, LayoutOk, TreeOk, PathOf, Capacity,
      Node, IsLeaf;
    var ppb := PtrsPerBlock(geo);
    PathOfIsLeaf(ppb, k);
    assert Settled(geo, lay, ino, a, v);
    StepKeepsOthers(geo, lay, ino, sb, a, b);
    forall j: nat | j != k
      ensures Chunk(b.img, geo, b.inode, j) == Chunk(a.img, geo, a.inode, j)
      ensures BlockAt(b.img, ppb, b.inode, j) == BlockAt(a.img, ppb, a.inode, j)
    {
      BlockMapUpdated(geo, lay, ino, a, b, k, v, j);
      OtherLeaf(geo, lay, ino, sb, a, b, k, v, j);
    }
  }

  lemma OtherLeaf(geo: Geo, lay: seq<GroupLay>, ino: nat, sb: seq<byte>, a: View, b: View, k: nat, v: nat, j: nat)
    requires MetaOk(a.img, sb, geo, lay, a.roles) && 0 < PtrsPerBlock(geo) && k < Capacity(PtrsPerBlock(geo)) && j != k
    requires Stored(geo, lay, ino, a, b, PathOf(PtrsPerBlock(geo), k), v)
    ensures Chunk(b.img, geo, b.inode, j) == Chunk(a.img, geo, a.inode, j)
  {
    hide Sized, Used, UsedInode, GroupOk, SuperOk, ReservedOk, UsedOk, InVolume, LayoutOk, TreeOk, PathOf, Capacity,
      Node;
    var ppb := PtrsPerBlock(geo);
    BlockMapUpdated(geo, lay, ino, a, b, k, v, j);
    var x := BlockAt(a.img, ppb, a.inode, j);
    if x != 0 {
      PathOfIsLeaf(ppb, j);
      NodeHasRole(a.img, ppb, a.inode, ino, a.roles, PathOf(ppb, j));
      RoleSettled(geo, lay, ino, sb, a, x);
    }
  }

  /** Growing the index tree is work on the file alone; and the inode as it was before, which may still be the
      one on the disk, keeps its blocks. */
  lemma GrownChunks(geo: Geo, lay: seq<GroupLay>, ino: nat, sb: seq<byte>, a: View, b: View)
    requires MetaOk(a.img, sb, geo, lay, a.roles) && Grows(geo, lay, ino, a, b)
    ensures OnlyFile(geo, lay, a.img, a.roles, b.img, b.roles, ino) && ViewOk(geo, lay, ino, b) &&
      SameOther(a.inode, b.inode)
    ensures SameSlot(b.img, geo, lay, a.img, ino)
    ensures TreeOk(b.img, PtrsPerBlock(geo), a.inode, ino, b.roles)
    ensures forall j: nat :: Chunk(b.img, geo, a.inode, j) == Chunk(a.img, geo, a.inode, j)
    ensures forall j: nat ::
      BlockAt(b.img, PtrsPerBlock(geo), a.inode, j) == BlockAt(a.img, PtrsPerBlock(geo), a.inode, j)
  {
    hide Sized, Used, UsedInode, GroupOk, SuperOk, ReservedOk, UsedOk, InVolume, LayoutOk, TreeOk, PathOf, Capacity,
      Node, IsLeaf, Settled;
    var ppb := PtrsPerBlock(geo);
    StepKeepsOthers(geo, lay, ino, sb, a, b);
    OldInodeTree(geo, lay, ino, a, b);
    forall j: nat
      ensures Chunk(b.img, geo, a.inode, j) == Chunk(a.img, geo, a.inode, j)
      ensures BlockAt(b.img, ppb, a.inode, j) == BlockAt(a.img, ppb, a.inode, j)
    {
      if j < Capacity(ppb) {
        PathOfIsLeaf(ppb, j);
        OldInodeNode(geo, lay, ino, a, b, PathOf(ppb, j));
        if Node(a.img, a.inode, PathOf(ppb, j)) != 0 {
          NodeHasRole(a.img, ppb, a.inode, ino, a.roles, PathOf(ppb, j));
          LeafSettled(geo, lay, ino, sb, a, PathOf(ppb, j));
        }
      }
    }
  }

  lemma LeafSettled(geo: Geo, lay: seq<GroupLay>, ino: nat, sb: seq<byte>, a: View, p: Path)
    requires MetaOk(a.img, sb, geo, lay, a.roles) && ViewOk(geo, lay, ino, a)
    requires ValidPath(PtrsPerBlock(geo), p) && IsLeaf(p) && Node(a.img, a.inode, p) != 0
    ensures Settled(geo, lay, ino, a, Node(a.img, a.inode, p))
  {
    hide Sized, Used, GroupOk, SuperOk, ReservedOk, UsedOk, InVolume, LayoutOk, TreeOk, Node, IsLeaf, Settled;
    NodeHasRole(a.img, PtrsPerBlock(geo), a.inode, ino, a.roles, p);
    RoleSettled(geo, lay, ino, sb, a, Node(a.img, a.inode, p));
  }

  /** Through the old inode, a grown tree shows the nodes below the slots that were not empty. */
  lemma {:induction false} OldInodeNode(geo: Geo, lay: seq<GroupLay>, ino: nat, a: View, b: View, p: Path)
    requires Grows(geo, lay, ino, a, b) && ValidPath(PtrsPerBlock(geo), p)
    ensures Node(b.img, a.inode, p) == if SlotPtr(a.inode, p[0]) == 0 then 0 else Node(b.img, b.inode, p)
    ensures IsLeaf(p) ==> Node(b.img, a.inode, p) == Node(a.img, a.inode, p)
    decreases |p|
  {
    hide Sized, TreeOk, Laid, BlocksKept, RolesGrow, GetU32, Ptr;
    if |p| > 1 {
      OldInodeNode(geo, lay, ino, a, b, p[..|p| - 1]);
      if SlotPtr(a.inode, p[0]) == 0 { BelowEmptyAt(geo, a, [p[0]], p); }
    } else {
      assert p == [p[0]] && ValidPath(PtrsPerBlock(geo), p);
      assert Node(a.img, a.inode, p) == SlotPtr(a.inode, p[0]) && Node(b.img, b.inode, p) == SlotPtr(b.inode, p[0]);
    }
  }

  lemma OldInodeTree(geo: Geo, lay: seq<GroupLay>, ino: nat, a: View, b: View)
    requires Grows(geo, lay, ino, a, b)
    ensures TreeOk(b.img, PtrsPerBlock(geo), a.inode, ino, b.roles)
  {
    hide Sized, Laid, BlocksKept, RolesGrow, Node, NodesKept;
    forall p: Path | ValidPath(PtrsPerBlock(geo), p) ensures NodeOk(b.img, a.inode, ino, b.roles, p) {
      OldInodeNode(geo, lay, ino, a, b, p);
      assert NodeOk(b.img, b.inode, ino, b.roles, p);
    }
  }

  /** Blocks that all have a different number, below `m`, are no more than `m`. */
  lemma {:induction false} Pigeonhole(s: seq<nat>, m: nat)
    requires forall i :: 0 <= i < |s| ==> s[i] < m
    requires forall i, j :: 0 <= i < j < |s| ==> s[i] != s[j]
    ensures |s| <= m
    decreases m
  {
    if s == [] {
    } else if i :| 0 <= i < |s| && s[i] == m - 1 {
      Pigeonhole(s[..i] + s[i + 1..], m - 1);
    } else {
      assert s[0] < m;
      Pigeonhole(s, m - 1);
    }
  }

  /** A file whose first `n` blocks are all there is smaller than the volume. */
  lemma FileFits(geo: Geo, img: seq<Block>, inode: Inode, ino: nat, roles: map<nat, Role>, n: nat)
    requires GeoOk(geo) && WfImage(img, geo) && TreeOk(img, PtrsPerBlock(geo), inode, ino, roles)
    requires n <= Capacity(PtrsPerBlock(geo)) && HasRole(roles, geo.firstDataBlock, Super)
    requires forall k: nat :: k < n ==> BlockAt(img, PtrsPerBlock(geo), inode, k) != 0
    ensures n * geo.blockSize < TWO_32
  {
    hide TreeOk, Node, PathOf, Capacity, Sized;
    var ppb := PtrsPerBlock(geo);
    var s: seq<nat> := seq(n, (k: nat) requires k < n => BlockAt(img, ppb, inode, k)) + [geo.firstDataBlock];
    forall i: nat | i < n
      ensures s[i] < geo.totalBlocks && s[i] in roles && roles[s[i]] == Tree(ino, PathOf(ppb, i))
    {
      PathOfIsLeaf(ppb, i);
      assert BlockAt(img, ppb, inode, i) != 0;
      NodeHasRole(img, ppb, inode, ino, roles, PathOf(ppb, i));
    }
    forall i, j | 0 <= i < j < n ensures s[i] != s[j] {
      if PathOf(ppb, i) == PathOf(ppb, j) { PathOfInjective(ppb, i, j); }
    }
    SuperInVolume(geo);
    Pigeonhole(s, geo.totalBlocks);
    VolumeBytes(geo, n);
  }

  lemma SuperInVolume(geo: Geo)
    requires GeoOk(geo)
    ensures geo.firstDataBlock < geo.totalBlocks
  {
    assert (geo.groups - 1) * BlocksPerGroup(geo) >= 0;
  }

  lemma VolumeBytes(geo: Geo, n: nat)
    requires GeoOk(geo) && n + 1 <= geo.totalBlocks
    ensures n * geo.blockSize < TWO_32
  {
    NextSlot(n, geo.totalBlocks, geo.blockSize);
  }

  lemma CountersKeepBlocks(img: seq<Block>, img': seq<Block>, roles: map<nat, Role>, j: nat)
    requires SameBeyondCounters(img, img', roles)
    ensures KeepsBlocks(img, roles, img', roles, j)
  {}

  /** A direct pointer is cleared, and its block loses its role. */
  lemma DropDirect(geo: Geo, lay: seq<GroupLay>, ino: nat, sb: seq<byte>, a: View, i: nat)
    requires MetaOk(a.img, sb, geo, lay, a.roles) && ViewOk(geo, lay, ino, a) && i < 12 && SlotPtr(a.inode, i) != 0
    requires var b := SlotPtr(a.inode, i); b in a.roles && a.roles[b] == Tree(ino, [i])
    ensures var less := a.roles - {SlotPtr(a.inode, i)};
            MetaOk(a.img, sb, geo, lay, less) && TreeOk(a.img, PtrsPerBlock(geo), WithSlot(a.inode, i, 0), ino, less)
  {
    hide Sized, GroupOk, SuperOk, ReservedOk, UsedOk, LayoutOk, InVolume, WithSlot, Node, SlotPtr;
    var b := SlotPtr(a.inode, i);
    MetaDrop(a.img, sb, geo, lay, a.roles, b);
    forall p: Path | ValidPath(PtrsPerBlock(geo), p)
      ensures NodeOk(a.img, WithSlot(a.inode, i, 0), ino, a.roles - {b}, p)
    {
      StoreInSlot(a.img, PtrsPerBlock(geo), a.inode, i, 0, p);
      assert NodeOk(a.img, a.inode, ino, a.roles, p);
    }
  }

  /** The three slots that lead to index blocks. */
  predicate SameIndexSlots(x: Inode, y: Inode) {
    SlotPtr(y, 12) == SlotPtr(x, 12) && SlotPtr(y, 13) == SlotPtr(x, 13) && SlotPtr(y, 14) == SlotPtr(x, 14)
  }

  predicate NoIndex(x: Inode) { SlotPtr(x, 12) == 0 && SlotPtr(x, 13) == 0 && SlotPtr(x, 14) == 0 }

  /** How many of the first `n` direct slots hold a block. */
  function Held(inode: Inode, n: nat): nat
    requires n <= 12
  {
    if n == 0 then 0 else Held(inode, n - 1) + if SlotPtr(inode, n - 1) != 0 then 1 else 0
  }

  lemma DirectKeepsIndex(geo: Geo, inode: Inode, k: nat, v: nat)
    requires GeoOk(geo) && k < 12 && v < geo.totalBlocks
    ensures SameIndexSlots(inode, WithSlot(inode, k, v))
  {
    hide GetU32, WithSlot, Sized;
    BlockNumbersFit(geo);
    WithSlotPtr(inode, k, v, 12);
    WithSlotPtr(inode, k, v, 13);
    WithSlotPtr(inode, k, v, 14);
  }

  /** An inode without pointers has an empty tree. */
  lemma {:induction false} EmptyTree(img: seq<Block>, ppb: nat, inode: Inode, ino: nat, roles: map<nat, Role>)
    requires forall i :: 0 <= i < 15 ==> SlotPtr(inode, i) == 0
    ensures TreeOk(img, ppb, inode, ino, roles)
  {
    forall p: Path | ValidPath(ppb, p) ensures NodeOk(img, inode, ino, roles, p) { EmptyNode(img, inode, p); }
  }

  lemma {:induction false} EmptyNode(img: seq<Block>, inode: Inode, p: Path)
    requires p != [] && p[0] < 15 && forall i :: 0 <= i < 15 ==> SlotPtr(inode, i) == 0
    ensures Node(img, inode, p) == 0
    decreases |p|
  {
    if |p| > 1 { EmptyNode(img, inode, p[..|p| - 1]); }
  }

  class FileData {
    const vol: Volume
    const files: Files

    ghost predicate Wired() { files.vol == vol }

    constructor (volume: Volume, fileMap: Files)
      requires fileMap.vol == volume
      ensures vol == volume && files == fileMap && Wired()
    {
      vol, files := volume, fileMap;
    }

    /** The bookkeeping agrees, and since `img` only inode `ino` was worked on. */
    ghost predicate Only(img: seq<Block>, roles: map<nat, Role>, ino: nat)
      reads vol, vol.disk
    {
      vol.Meta() && OnlyFile(vol.geo, vol.lay, img, roles, vol.disk[..], vol.roles, ino)
    }

    /** The first blocks of the file start with the bytes `d`. */
    ghost predicate Holds(inode: Inode, n: nat, d: seq<byte>)
      requires GeoOk(vol.geo) && WfImage(vol.disk[..], vol.geo)
      reads vol.disk
    {
      var w := Whole(vol.disk[..], vol.geo, inode, n);
      |d| <= |w| && w[..|d|] == d
    }

    /** One data block: `alloc_block_internal`, fill, write. */
    method NewBlock(inode: Inode, c: seq<byte>, ghost ino: nat) returns (blk: nat)
      requires Wired() && files.Ready(inode, ino) && |c| <= vol.geo.blockSize
      modifies vol`sb, vol.disk, vol.gBuf
      ensures files.Ready(inode, ino) && Only(old(vol.disk[..]), vol.roles, ino)
      ensures KeepsBlocks(old(vol.disk[..]), vol.roles, vol.disk[..], vol.roles, ino)
      ensures blk != 0 ==> files.Spare(inode, blk) && vol.disk[..][blk] == c + Zeros(vol.geo.blockSize - |c|)
      ensures blk == 0 ==> vol.disk[..] == old(vol.disk[..]) && FreeBlocksCount(vol.sb) == 0
      ensures files.Spends(1, blk != 0)
    {
      hide Sized, Used, UsedInode, GroupOk, ReservedOk, UsedOk, InVolume, LayoutOk, TreeOk, Slot, GetU32;
      ghost var a, was := files.V(inode), vol.sb;
      blk := vol.AllocBlock();
      ghost var img1 := vol.disk[..];
      if blk == 0 { return; }
      vol.ClearBuf(vol.gBuf);
      vol.Store(vol.gBuf, 0, c);
      PadIs(vol.gBuf[..vol.geo.blockSize], c);
      vol.WriteBlock(blk, vol.gBuf);
      assert vol.disk[..] == img1[blk := vol.disk[..][blk]];
      BlockFilled(vol.geo, vol.lay, ino, was, a, img1, vol.sb, blk, vol.disk[..][blk]);
    }

    /** Links a new block into the file, or gives it back. */
    method LinkBlock(inode: Inode, k: nat, blk: nat, ghost ino: nat) returns (ok: bool, out: Inode)
      requires Wired() && files.Ready(inode, ino) && files.Spare(inode, blk)
      modifies vol`sb, vol`roles, vol.disk, vol.gBuf, vol.gBuf2
      ensures files.Ready(out, ino) && Only(old(vol.disk[..]), old(vol.roles), ino) && SameOther(inode, out)
      ensures SameSlot(vol.disk[..], vol.geo, vol.lay, old(vol.disk[..]), ino)
      ensures ok ==> 0 < PtrsPerBlock(vol.geo) && k < Capacity(PtrsPerBlock(vol.geo)) &&
                     Linked(old(vol.disk[..]), inode, out, k, blk)
      ensures !ok ==> files.Ready(inode, ino) && SameBlocks(old(vol.disk[..]), inode)
      ensures k < 12 ==> ok && SameIndexSlots(inode, out)
      ensures PtrsPerBlock(vol.geo) > 0 && PathOf(PtrsPerBlock(vol.geo), k) != [] &&
        PathOf(PtrsPerBlock(vol.geo), k)[0] < 15
      ensures k < Capacity(PtrsPerBlock(vol.geo)) ==>
                files.Spends(Missing(old(vol.disk[..]), inode, PathOf(PtrsPerBlock(vol.geo), k)), ok)
    {
      hide Sized, Used, UsedInode, TreeOk, MetaOk, KeepsOthers, BlocksKept, Settled, Stored, Grows, Capacity, PathOf,
        Chunk, BlockAt, OnlyFile, Missing, FreeBlocksCount;
      ghost var a, sb0 := files.V(inode), vol.sb;
      ok, out := files.SetInodeBlock(inode, k, blk, ino);
      if k < 12 { DirectKeepsIndex(vol.geo, inode, k, blk); }
      if ok {
        StoredChunks(vol.geo, vol.lay, ino, sb0, a, files.V(out), k, blk);
      } else {
        ghost var m := files.V(out);
        GrownChunks(vol.geo, vol.lay, ino, sb0, a, m);
        ReleaseSpare(inode, out, blk, ino);
        OnlyFileTransitive(vol.geo, vol.lay, ino, a.img, a.roles, m.img, m.roles, vol.disk[..], vol.roles);
      }
    }

    /** Sets size and sector count in the inode and writes it. */
    method SetSize(ino: nat, inode: Inode, size: nat, sectors: nat) returns (out: Inode)
      requires Wired() && vol.Meta() && IsInode(vol.geo, ino) && files.Ready(inode, ino) && size < TWO_32
      modifies vol.disk, vol.gBuf
      ensures files.Ready(out, ino) && Only(old(vol.disk[..]), vol.roles, ino) &&
        Slot(vol.disk[..], vol.geo, vol.lay, ino) == out
      ensures Size(out) == size && FileType(out) == FileType(inode) && SameIndexSlots(inode, out)
      ensures forall k: nat :: Chunk(vol.disk[..], vol.geo, out, k) == Chunk(old(vol.disk[..]), vol.geo, inode, k)
      ensures forall k: nat ::
                BlockAt(vol.disk[..], PtrsPerBlock(vol.geo), out, k) ==
                  BlockAt(old(vol.disk[..]), PtrsPerBlock(vol.geo), inode, k)
    {
      hide Sized, TreeOk, MetaOk, Slot, Chunk, BlockAt, GetU32, Size, FileType, SamePointers, OnlyFile;
      SizeAndSectors(inode, size, sectors);
      out := WithSectors(WithSize(inode, size), sectors);
      PointersDecide(vol.disk[..], vol.geo, inode, out, ino, vol.roles);
      SameSlotPtr(inode, out, 12);
      SameSlotPtr(inode, out, 13);
      SameSlotPtr(inode, out, 14);
      PutInode(ino, out);
    }

    /** `write_inode`: work on that inode alone. */
    method PutInode(ino: nat, inode: Inode)
      requires Wired() && vol.Meta() && IsInode(vol.geo, ino)
      requires files.Ready(inode, ino)
      modifies vol.disk, vol.gBuf
      ensures files.Ready(inode, ino) && Only(old(vol.disk[..]), vol.roles, ino)
      ensures Slot(vol.disk[..], vol.geo, vol.lay, ino) == inode && SameBlocks(old(vol.disk[..]), inode)
    {
      hide Sized, TreeOk, GroupOk, ReservedOk, UsedOk, InVolume, LayoutOk, SuperOk, Slot, Chunk, BlockAt, WithInode;
      ghost var img := vol.disk[..];
      InodeWritten(vol.geo, vol.lay, ino, vol.sb, img, vol.roles, inode);
      var ok := vol.WriteInode(ino, inode);
      NodesKeptBlocks(img, vol.disk[..], vol.geo, vol.roles, vol.roles, inode, ino);
    }

    /** Block `k` is `blk`, the others are as they were. */
    ghost predicate Linked(img: seq<Block>, inode: Inode, out: Inode, k: nat, blk: nat)
      requires GeoOk(vol.geo) && WfImage(vol.disk[..], vol.geo) && WfImage(img, vol.geo)
      reads vol.disk
    {
      var geo, ppb := vol.geo, PtrsPerBlock(vol.geo);
      blk < |img| && Chunk(vol.disk[..], geo, out, k) == img[blk] && BlockAt(vol.disk[..], ppb, out, k) == blk &&
      (forall j: nat :: j != k ==> Chunk(vol.disk[..], geo, out, j) == Chunk(img, geo, inode, j)) &&
      (forall j: nat :: j != k ==> BlockAt(vol.disk[..], ppb, out, j) == BlockAt(img, ppb, inode, j))
    }

    ghost predicate SameBlocks(img: seq<Block>, inode: Inode)
      requires GeoOk(vol.geo) && WfImage(vol.disk[..], vol.geo) && WfImage(img, vol.geo)
      reads vol.disk
    {
      (forall j: nat :: Chunk(vol.disk[..], vol.geo, inode, j) == Chunk(img, vol.geo, inode, j)) &&
      (forall j: nat ::
        BlockAt(vol.disk[..], PtrsPerBlock(vol.geo), inode, j) == BlockAt(img, PtrsPerBlock(vol.geo), inode, j))
    }

    /** `free_block` of a block that was never linked. */
    method ReleaseSpare(inode: Inode, out: Inode, blk: nat, ghost ino: nat)
      requires Wired() && files.Ready(out, ino) && files.Ready(inode, ino) && files.Spare(out, blk)
      modifies vol`sb, vol.disk, vol.gBuf
      ensures files.Ready(out, ino) && files.Ready(inode, ino) && Only(old(vol.disk[..]), vol.roles, ino)
      ensures SameSlot(vol.disk[..], vol.geo, vol.lay, old(vol.disk[..]), ino)
      ensures SameBlocks(old(vol.disk[..]), inode) && vol.FreeNow() >= old(vol.FreeNow())
      ensures vol.InodesNow() == old(vol.InodesNow())
    {
      hide Sized, Used, UsedInode, TreeOk, GroupOk, ReservedOk, UsedOk, InVolume, LayoutOk, Slot, Chunk, BlockAt,
        GetU32;
      ghost var img, sb0 := vol.disk[..], vol.sb;
      vol.FreeBlock(blk);
      forall j: nat | IsInode(vol.geo, j)
        ensures KeepsFile(vol.geo, vol.lay, img, vol.roles, vol.disk[..], vol.roles, j)
      {
        CountersKeepFiles(vol.geo, vol.lay, sb0, img, vol.disk[..], vol.roles, j);
      }
      NodesKeptBlocks(img, vol.disk[..], vol.geo, vol.roles, vol.roles, inode, ino);
      NodesKeptBlocks(img, vol.disk[..], vol.geo, vol.roles, vol.roles, out, ino);
    }

    /** One turn of the write loop: the bytes `c` become block `k`. */
    method WriteChunk(inode: Inode, k: nat, c: seq<byte>, ghost before: seq<byte>, ghost ino: nat)
      returns (ok: bool, full: bool, out: Inode)
      requires Wired() && files.Ready(inode, ino) && |c| <= vol.geo.blockSize
      requires |before| == k * vol.geo.blockSize && Holds(inode, k, before)
      requires k > 0 ==> BlockAt(vol.disk[..], PtrsPerBlock(vol.geo), inode, k - 1) != 0
      modifies vol`sb, vol`roles, vol.disk, vol.gBuf, vol.gBuf2
      ensures files.Ready(out, ino) && Only(old(vol.disk[..]), old(vol.roles), ino) && SameOther(inode, out)
      ensures ok ==> Holds(out, k + 1, before + c) && BlockAt(vol.disk[..], PtrsPerBlock(vol.geo), out, k) != 0
      ensures k < Capacity(PtrsPerBlock(vol.geo)) ==> files.Spends(1 + NewIndex(PtrsPerBlock(vol.geo), k), ok)
      ensures k < 12 ==> SameIndexSlots(inode, out)
    {
      hide Sized, TreeOk, MetaOk, IsSpare, Capacity, Chunk, BlockAt, OnlyFile, KeepsBlocks, Missing, NewIndex,
        FreeBlocksCount, PathOf;
      ghost var img0, roles0 := vol.disk[..], vol.roles;
      full, out := false, inode;
      var blk := NewBlock(inode, c, ino);
      ghost var img1 := vol.disk[..];
      if blk == 0 { return false, true, out; }
      SameFileBlocks(img0, roles0, img1, roles0, inode, ino, k);
      if k < Capacity(PtrsPerBlock(vol.geo)) { MissingAtMost(img1, PtrsPerBlock(vol.geo), inode, k); }
      ok, out := LinkBlock(inode, k, blk, ino);
      OnlyFileTransitive(vol.geo, vol.lay, ino, img0, roles0, img1, roles0, vol.disk[..], vol.roles);
      if !ok { return; }
      SameChunks(img1, inode, vol.disk[..], out, vol.geo, k);
      ChunkAdded(Whole(img1, vol.geo, inode, k), before, c, Zeros(vol.geo.blockSize - |c|));
    }

    lemma UsedWithin(used: nat, bs: nat, size: nat)
      requires used * bs < size && (bs == 1024 || bs == 2048 || bs == 4096)
      ensures used + 1 <= NumBlocks(size, bs) && (size < TWO_32 ==> used < 0x40_0000)
    {}

    lemma FewBlocks(used: nat, bs: nat, size: nat)
      requires used * bs < size && bs > 0
      ensures size <= 12 * bs ==> used < 12
    {
      if used >= 12 { MulMonotone(12, used, bs); }
    }

    lemma ReadyIsLaid(inode: Inode, ino: nat)
      requires Wired() && files.Ready(inode, ino)
      ensures Laid(vol.disk[..], vol.geo, vol.lay)
    {
      hide Laid, TreeOk, MetaOk;
    }

    lemma SameFileBlocks(img: seq<Block>, roles: map<nat, Role>, img': seq<Block>, roles': map<nat, Role>,
                         inode: Inode, ino: nat, n: nat)
      requires GeoOk(vol.geo) && WfImage(img, vol.geo) && WfImage(img', vol.geo)
      requires TreeOk(img, PtrsPerBlock(vol.geo), inode, ino, roles) && KeepsBlocks(img, roles, img', roles', ino)
      ensures Whole(img', vol.geo, inode, n) == Whole(img, vol.geo, inode, n)
      ensures forall k: nat ::
        BlockAt(img', PtrsPerBlock(vol.geo), inode, k) == BlockAt(img, PtrsPerBlock(vol.geo), inode, k)
    {
      hide Sized, TreeOk, Chunk;
      NodesKeptBlocks(img, img', vol.geo, roles, roles', inode, ino);
      SameChunks(img, inode, img', inode, vol.geo, n);
    }

    /** Writes `data` as blocks 0, 1, and so on of the inode; `full` says that no data block could be had. */
    method WriteData(inode: Inode, data: seq<byte>, ghost ino: nat)
        returns (ok: bool, full: bool, out: Inode, used: nat)
      requires Wired() && files.Ready(inode, ino)
      modifies vol`sb, vol`roles, vol.disk, vol.gBuf, vol.gBuf2
      ensures files.Ready(out, ino) && Only(old(vol.disk[..]), old(vol.roles), ino) && SameOther(inode, out)
      ensures ok ==> used == NumBlocks(|data|, vol.geo.blockSize) && Holds(out, used, data)
      ensures |data| <= 12 * vol.geo.blockSize ==> SameIndexSlots(inode, out)
      ensures |data| < TWO_32 ==>
        files.Spends(BlocksFor(PtrsPerBlock(vol.geo), NumBlocks(|data|, vol.geo.blockSize)), ok)
    {
      hide Sized, TreeOk, MetaOk, OnlyFile, ViewOk, SlotPtr, BlockAt, FreeBlocksCount, Capacity, NumBlocks, NewIndex,
        BlocksFor, PathOf, SameOther, Whole, GetU32;
      var done, bs := 0, vol.geo.blockSize;
      ghost var ppb := PtrsPerBlock(vol.geo);
      CapacityLarge(vol.geo);
      NoBlocks(ppb);
      ghost var img0, roles0 := vol.disk[..], vol.roles;
      assert Laid(img0, vol.geo, vol.lay) by { ReadyIsLaid(inode, ino); }
      OnlyFileReflexive(vol.geo, vol.lay, img0, roles0, ino);
      full, out, used := false, inode, 0;
      SameOtherReflexive(inode);
      while done < |data|
        invariant files.Ready(out, ino) && Only(img0, roles0, ino) && SameOther(inode, out)
        invariant done <= |data| && (done == |data| || done == used * bs) && done <= used * bs < done + bs
        invariant Holds(out, used, data[..done])
        invariant |data| <= 12 * bs ==> SameIndexSlots(inode, out)
        invariant used > 0 ==> BlockAt(vol.disk[..], ppb, out, used - 1) != 0
        invariant |data| < TWO_32 ==> vol.FreeNow() + BlocksFor(ppb, used) >= old(vol.FreeNow())
        invariant |data| < TWO_32 ==> vol.InodesNow() == old(vol.InodesNow())
      {
        FewBlocks(used, bs, |data|);
        UsedWithin(used, bs, |data|);
        OneMoreBlock(ppb, used, NumBlocks(|data|, bs));
        var chunk := if |data| - done < bs then |data| - done else bs;
        ghost var img1, roles1, before := vol.disk[..], vol.roles, out;
        ok, full, out := WriteChunk(out, used, data[done..done + chunk], data[..done], ino);
        SameOtherTransitive(inode, before, out);
        OnlyFileTransitive(vol.geo, vol.lay, ino, img0, roles0, img1, roles1, vol.disk[..], vol.roles);
        if !ok { return; }
        assert data[..done] + data[done..done + chunk] == data[..done + chunk];
        OneMore(used, bs);
        done, used := done + chunk, used + 1;
      }
      CeilUnique(|data|, bs, used);
      assert data[..done] == data;
      ok := true;
    }

    /** `free_inode_blocks` on an inode without index blocks: the direct blocks are given back. */
    method FreeDirect(inode: Inode, ghost ino: nat) returns (out: Inode)
      requires Wired() && files.Ready(inode, ino)
      requires NoIndex(inode)
      modifies vol`sb, vol`roles, vol.disk, vol.gBuf
      ensures files.Ready(out, ino) && Only(old(vol.disk[..]), old(vol.roles), ino) && SameOther(inode, out)
      ensures forall i :: 0 <= i < 15 ==> SlotPtr(out, i) == 0
      ensures vol.FreeNow() == old(vol.FreeNow()) + Held(inode, 12) && vol.InodesNow() == old(vol.InodesNow())
    {
      hide Sized, TreeOk, MetaOk, ViewOk, GetU32, WithSlot, OnlyFile, SameOther;
      ghost var img0, roles0 := vol.disk[..], vol.roles;
      ReadyIsLaid(inode, ino);
      OnlyFileReflexive(vol.geo, vol.lay, img0, roles0, ino);
      out := inode;
      SameOtherReflexive(inode);
      var i := 0;
      while i < 12
        invariant i <= 12 && files.Ready(out, ino) && Only(img0, roles0, ino) && SameOther(inode, out)
        invariant vol.FreeNow() == old(vol.FreeNow()) + Held(inode, i) && vol.InodesNow() == old(vol.InodesNow())
        invariant forall j :: 0 <= j < 15 ==> SlotPtr(out, j) == if j < i then 0 else SlotPtr(inode, j)
      {
        if SlotPtr(out, i) != 0 {
          ghost var img1, roles1 := vol.disk[..], vol.roles;
          ghost var before := out;
          out := FreeSlot(out, i, ino);
          OnlyFileTransitive(vol.geo, vol.lay, ino, img0, roles0, img1, roles1, vol.disk[..], vol.roles);
          SameOtherTransitive(inode, before, out);
        }
        i := i + 1;
      }
    }

    lemma SameOtherReflexive(x: Inode)
      ensures SameOther(x, x)
    {}

    lemma SameOtherTransitive(x: Inode, y: Inode, z: Inode)
      requires SameOther(x, y) && SameOther(y, z)
      ensures SameOther(x, z)
    {}

    /** One direct block goes back to the allocator, and its slot is cleared. */
    method FreeSlot(inode: Inode, i: nat, ghost ino: nat) returns (out: Inode)
      requires Wired() && files.Ready(inode, ino) && i < 12 && SlotPtr(inode, i) != 0
      modifies vol`sb, vol`roles, vol.disk, vol.gBuf
      ensures files.Ready(out, ino) && Only(old(vol.disk[..]), old(vol.roles), ino) && SameOther(inode, out)
      ensures forall j :: 0 <= j < 15 ==> SlotPtr(out, j) == if j == i then 0 else SlotPtr(inode, j)
      ensures vol.FreeNow() == old(vol.FreeNow()) + 1 && vol.InodesNow() == old(vol.InodesNow())
    {
      hide Sized, Used, UsedInode, TreeOk, GroupOk, ReservedOk, InVolume, Slot, GetU32, LayoutOk, Node;
      var b := SlotPtr(inode, i);
      ghost var img, roles0, sb0 := vol.disk[..], vol.roles, vol.sb;
      DirectBlock(inode, i, ino);
      DropDirect(vol.geo, vol.lay, ino, sb0, View(img, roles0, inode), i);
      vol.roles := vol.roles - {b};
      vol.FreeBlock(b);
      out := WithSlot(inode, i, 0);
      forall j: nat | IsInode(vol.geo, j)
        ensures KeepsFile(vol.geo, vol.lay, img, vol.roles, vol.disk[..], vol.roles, j)
      {
        CountersKeepFiles(vol.geo, vol.lay, sb0, img, vol.disk[..], vol.roles, j);
      }
      CountersKeepBlocks(img, vol.disk[..], vol.roles, ino);
      NodesKeptBlocks(img, vol.disk[..], vol.geo, vol.roles, vol.roles, out, ino);
      forall j: nat | IsInode(vol.geo, j) && j != ino
        ensures KeepsFile(vol.geo, vol.lay, img, roles0, vol.disk[..], vol.roles, j) {
        assert KeepsFile(vol.geo, vol.lay, img, vol.roles, vol.disk[..], vol.roles, j);
      }
      forall j | 0 <= j < 15 ensures SlotPtr(out, j) == if j == i then 0 else SlotPtr(inode, j) {
        WithSlotPtr(inode, i, 0, j);
      }
      SlotKeepsOther(inode, i, 0);
    }

    /** A direct block is a taken block of the volume with its role. */
    lemma DirectBlock(inode: Inode, i: nat, ino: nat)
      requires Wired() && files.Ready(inode, ino) && i < 12 && SlotPtr(inode, i) != 0
      ensures var b := SlotPtr(inode, i);
              IsBlock(vol.geo, b) && b < vol.geo.totalBlocks && Used(vol.disk[..], vol.geo, vol.lay, b) &&
              b in vol.roles && vol.roles[b] == Tree(ino, [i])
    {
      hide Used, TreeOk, GroupOk, ReservedOk, InVolume, SuperOk, GetU32;
      files.SlotIsNode(vol.disk[..], inode, i);
      NodeHasRole(vol.disk[..], PtrsPerBlock(vol.geo), inode, ino, vol.roles, [i]);
      RoleInVolume(vol.geo, SlotPtr(inode, i));
    }

    /** Copies the file into the caller's buffer; holes read as zeros. */
    method ReadData(inode: Inode, buffer: array<byte>, ghost ino: nat)
      requires Wired() && files.Ready(inode, ino)
      requires Size(inode) <= buffer.Length && buffer != vol.gBuf
      modifies vol.gBuf, buffer
      ensures buffer[..Size(inode)] == Content(vol.disk[..], vol.geo, inode)
    {
      hide Sized, TreeOk, MetaOk, ViewOk, Whole, Chunk, GetU32, Size;
      var size, bs := Size(inode), vol.geo.blockSize;
      ghost var img := vol.disk[..];
      var done, k := 0, 0;
      WholeStep(img, vol.geo, inode, 0);
      while done < size
        invariant done <= size && (done == size || done == k * bs) && done <= k * bs < done + bs
        invariant buffer[..done] == Whole(img, vol.geo, inode, k)[..done]
      {
        var chunk := if size - done < bs then size - done else bs;
        ghost var before := buffer[..done];
        ReadChunk(inode, k, buffer, done, chunk, ino);
        WholeStep(img, vol.geo, inode, k);
        Joined(buffer[..done + chunk], before, Whole(img, vol.geo, inode, k), Chunk(img, vol.geo, inode, k), chunk);
        OneMore(k, bs);
        done, k := done + chunk, k + 1;
      }
      CeilUnique(size, bs, k);
    }

    /** One turn of the read loop: the first `n` bytes of block `k` go to `buffer + at`. */
    method ReadChunk(inode: Inode, k: nat, buffer: array<byte>, at: nat, n: nat, ghost ino: nat)
      requires Wired() && files.Ready(inode, ino)
      requires at + n <= buffer.Length && n <= vol.geo.blockSize && buffer != vol.gBuf
      modifies vol.gBuf, buffer
      ensures buffer[..at] == old(buffer[..at])
      ensures buffer[at..at + n] == Chunk(vol.disk[..], vol.geo, inode, k)[..n]
    {
      hide Sized, TreeOk, MetaOk, ViewOk, Chunk, BlockAt;
      var blk := files.GetInodeBlock(inode, k, ino);
      BlockChunk(inode, k, ino);
      ghost var img := vol.disk[..];
      ghost var c := Chunk(img, vol.geo, inode, k);
      if blk == 0 {
        forall i | 0 <= i < n { buffer[at + i] := 0; }
        assert buffer[at..at + n] == c[..n];
      } else {
        vol.ReadBlock(blk, vol.gBuf);
        assert vol.gBuf[..vol.geo.blockSize] == c;
        forall i | 0 <= i < n { buffer[at + i] := vol.gBuf[i]; }
        assert buffer[at..at + n] == vol.gBuf[..n] == c[..n];
      }
      assert vol.disk[..] == img;
    }

    lemma WholeStep(img: seq<Block>, geo: Geo, inode: Inode, k: nat)
      requires GeoOk(geo) && WfImage(img, geo)
      ensures Whole(img, geo, inode, 0) == []
      ensures Whole(img, geo, inode, k + 1) == Whole(img, geo, inode, k) + Chunk(img, geo, inode, k)
    {
      hide Sized, Chunk;
    }

    /** What block `k` of a file is, and that it lies in the volume. */
    lemma BlockChunk(inode: Inode, k: nat, ino: nat)
      requires Wired() && files.Ready(inode, ino)
      ensures PtrsPerBlock(vol.geo) > 0
      ensures var b := BlockAt(vol.disk[..], PtrsPerBlock(vol.geo), inode, k);
              if b == 0 then Chunk(vol.disk[..], vol.geo, inode, k) == Zeros(vol.geo.blockSize)
              else b < vol.disk.Length && Chunk(vol.disk[..], vol.geo, inode, k) == vol.disk[..][b] && b in vol.roles &&
                   vol.roles[b] == Tree(ino, PathOf(PtrsPerBlock(vol.geo), k)) && k < Capacity(PtrsPerBlock(vol.geo))
    {
      hide Sized, TreeOk, MetaOk, Node, PathOf, Capacity;
      var ppb := PtrsPerBlock(vol.geo);
      if k < Capacity(ppb) {
        PathOfIsLeaf(ppb, k);
        if BlockAt(vol.disk[..], ppb, inode, k) != 0 {
          NodeHasRole(vol.disk[..], ppb, inode, ino, vol.roles, PathOf(ppb, k));
        }
      }
    }
  }

  lemma PadIs(b: Block, c: seq<byte>)
    requires |c| <= |b| && b[..|c|] == c && forall i :: |c| <= i < |b| ==> b[i] == 0
    ensures b == c + Zeros(|b| - |c|)
  {}

  lemma Joined(s: seq<byte>, before: seq<byte>, w: seq<byte>, c: seq<byte>, n: nat)
    requires |s| == |w| + n && n <= |c| && before == w && s[..|w|] == before && s[|w|..|w| + n] == c[..n]
    ensures s == (w + c)[..|w| + n]
  {
    assert s == s[..|w|] + s[|w|..|w| + n];
  }

  /** One more chunk at the end. */
  lemma ChunkAdded(w: seq<byte>, d: seq<byte>, c: seq<byte>, z: seq<byte>)
    requires |w| == |d| && w[..|d|] == d
    ensures (w + (c + z))[..|d| + |c|] == d + c
  {
    assert w == d;
  }
}
