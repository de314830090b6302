/** Files on a mounted ext2 volume: the block map of an inode, read and extended through the shared
    scratch buffers. */
module Ext2Files {
  import opened Bytes
  import opened Ext2Tree
  import opened Ext2Meta
  import opened Ext2Grow
  import opened Ext2Space
  import opened Ext2Volume

  class Files {
    const vol: Volume

    constructor (volume: Volume)
      ensures vol == volume
    {
      vol := volume;
    }

    ghost function V(inode: Inode): View
      reads vol, vol.disk
    {
      View(vol.disk[..], vol.roles, inode)
    }

    /** The inode's tree is well formed on a volume whose bookkeeping agrees. */
    ghost predicate Ready(inode: Inode, ino: nat)
      reads vol, vol.disk
    {
      vol.Meta() && ViewOk(vol.geo, vol.lay, ino, V(inode))
    }

    // -------------------------------------------------------------- reading the block map

    /** `read_block(node, g_buf)` and the pointer in slot `i` of it. */
    method ReadPtr(node: nat, i: nat) returns (p: nat)
      requires vol.Shape() && node < vol.disk.Length && i < PtrsPerBlock(vol.geo)
      modifies vol.gBuf
      ensures p == Ptr(vol.disk[..][node], i)
    {
      vol.ReadBlock(node, vol.gBuf);
      p := GetU32(vol.gBuf[..vol.geo.blockSize], 4 * i);
    }

    /** One step down the tree. */
    lemma StepDown(inode: Inode, ino: nat, p: Path, i: nat)
      requires Ready(inode, ino) && ValidPath(PtrsPerBlock(vol.geo), p)
      ensures var q := Node(vol.disk[..], inode, p);
              q != 0 ==> q < vol.disk.Length &&
                         Node(vol.disk[..], inode, p + [i]) == Ptr(vol.disk[..][q], i)
      ensures Node(vol.disk[..], inode, p) == 0 ==> Node(vol.disk[..], inode, p + [i]) == 0
    {
      NodeSnoc(vol.disk[..], inode, p, i);
      if Node(vol.disk[..], inode, p) != 0 {
        NodeHasRole(vol.disk[..], PtrsPerBlock(vol.geo), inode, ino, vol.roles, p);
      }
    }

    /** Block `k` of the file, through one, two or three index blocks. */
    method GetInodeBlock(inode: Inode, k: nat, ghost ino: nat) returns (b: nat)
      requires Ready(inode, ino)
      modifies vol.gBuf
      ensures PtrsPerBlock(vol.geo) > 0 && b == BlockAt(vol.disk[..], PtrsPerBlock(vol.geo), inode, k)
    {
      hide TreeOk, MetaOk, Sized, Node, GetU32, Ptr, Capacity, PathOf, Square, Quot, Rem;
      var ppb := PtrsPerBlock(vol.geo);
      PathRanges(ppb, k);
      if k < 12 {
        SlotIsNode(vol.disk[..], inode, k);
        return SlotPtr(inode, k);
      }
      var a := k - 12;
      if a < ppb {
        b := Down1(inode, 12, a, ino);
        return;
      }
      a := a - ppb;
      if a < Square(ppb) {
        b := Down2(inode, 13, Quot(a, ppb), Rem(a, ppb), ino);
        return;
      }
      a := a - Square(ppb);
      if a < Square(ppb) * ppb {
        var rem := Rem(a, Square(ppb));
        b := Down3(inode, Quot(a, Square(ppb)), Quot(rem, ppb), Rem(rem, ppb), ino);
        return;
      }
      b := 0;
    }

    lemma SlotIsNode(img: seq<Block>, inode: Inode, x: nat)
      requires x < 15
      ensures Node(img, inode, [x]) == SlotPtr(inode, x)
    {}

    method Down1(inode: Inode, x: nat, i: nat, ghost ino: nat) returns (b: nat)
      requires Ready(inode, ino) && 12 <= x < 15 && i < PtrsPerBlock(vol.geo)
      modifies vol.gBuf
      ensures b == Node(vol.disk[..], inode, [x, i])
    {
      hide TreeOk, MetaOk, Sized, Node, GetU32, Ptr;
      SlotIsNode(vol.disk[..], inode, x);
      StepDown(inode, ino, [x], i);
      assert [x] + [i] == [x, i];
      if SlotPtr(inode, x) == 0 { return 0; }
      b := ReadPtr(SlotPtr(inode, x), i);
    }

    method Down2(inode: Inode, x: nat, i: nat, j: nat, ghost ino: nat) returns (b: nat)
      requires Ready(inode, ino) && 13 <= x < 15 && i < PtrsPerBlock(vol.geo) && j < PtrsPerBlock(vol.geo)
      modifies vol.gBuf
      ensures b == Node(vol.disk[..], inode, [x, i, j])
    {
      hide TreeOk, MetaOk, Sized, Node, GetU32, Ptr;
      var ind := Down1(inode, x, i, ino);
      StepDown(inode, ino, [x, i], j);
      assert [x, i] + [j] == [x, i, j];
      if ind == 0 { return 0; }
      b := ReadPtr(ind, j);
    }

    method Down3(inode: Inode, i: nat, j: nat, l: nat, ghost ino: nat) returns (b: nat)
      requires Ready(inode, ino)
      requires i < PtrsPerBlock(vol.geo) && j < PtrsPerBlock(vol.geo) && l < PtrsPerBlock(vol.geo)
      modifies vol.gBuf
      ensures b == Node(vol.disk[..], inode, [14, i, j, l])
    {
      hide TreeOk, MetaOk, Sized, Node, GetU32, Ptr;
      var ind := Down2(inode, 14, i, j, ino);
      StepDown(inode, ino, [14, i, j], l);
      assert [14, i, j] + [l] == [14, i, j, l];
      if ind == 0 { return 0; }
      b := ReadPtr(ind, l);
    }

    // -------------------------------------------------------------- extending the block map

    /** The block map may have grown index blocks, and nothing else happened. */
    twostate predicate Grown(inode: Inode, inode': Inode, ino: nat)
      reads vol, vol.disk
    {
      Ready(inode', ino) && Grows(vol.geo, vol.lay, ino, old(V(inode)), V(inode'))
    }

    /** A block taken by the allocator and not yet part of anything. */
    ghost predicate Spare(inode: Inode, b: nat)
      requires Laid(vol.disk[..], vol.geo, vol.lay)
      reads vol, vol.disk
    {
      IsSpare(vol.geo, vol.lay, V(inode), b)
    }

    /** At most `n` blocks were taken, and it takes more than there were to fail. No inode is. */
    twostate predicate Spends(n: nat, ok: bool)
      reads vol
    {
      vol.FreeNow() + n >= old(vol.FreeNow()) && (!ok ==> old(vol.FreeNow()) < n) &&
      vol.InodesNow() == old(vol.InodesNow())
    }

    /** `alloc_block_internal()`, cleared on the disk: a new index block. */
    method NewIndexBlock(ghost inode: Inode, ghost ino: nat) returns (ind: nat, ghost img1: seq<Block>)
      requires Ready(inode, ino)
      modifies vol`sb, vol.disk, vol.gBuf
      ensures vol.Shape() && |vol.sb| == SB_SIZE
      ensures ind == 0 ==> vol.disk[..] == old(vol.disk[..]) && vol.sb == old(vol.sb) && FreeBlocksCount(vol.sb) == 0
      ensures ind != 0 ==> Allocated(vol.geo, vol.lay, old(V(inode)), img1, vol.sb, ind)
      ensures ind != 0 ==> ZeroBlock(vol.disk[..][ind]) && vol.disk[..] == img1[ind := vol.disk[..][ind]]
      ensures if ind == 0 then old(vol.FreeNow()) == 0 else vol.FreeNow() + 1 == old(vol.FreeNow())
      ensures vol.InodesNow() == old(vol.InodesNow())
    {
      hide TreeOk, Sized, GetU32, Used, UsedInode, LayoutOk, GroupOk, UsedOk, ReservedOk;
      ind := vol.AllocBlock();
      img1 := vol.disk[..];
      if ind == 0 { return; }
      vol.ClearBuf(vol.gBuf);
      vol.WriteBlock(ind, vol.gBuf);
    }

    /** An empty slot of the inode is given an index block. */
    method EnsureRoot(inode: Inode, x: nat, ghost ino: nat) returns (ok: bool, out: Inode)
      requires Ready(inode, ino) && 12 <= x < 15
      modifies vol`sb, vol`roles, vol.disk, vol.gBuf
      ensures Grown(inode, out, ino)
      ensures ok ==> SlotPtr(out, x) != 0
      ensures !ok ==> |vol.sb| == SB_SIZE && FreeBlocksCount(vol.sb) == 0
      ensures Spends(Gap(old(vol.disk[..]), inode, [x]), ok)
    {
      hide TreeOk, Sized, GetU32, Used, UsedInode, LayoutOk, GroupOk, SuperOk, UsedOk, ReservedOk, WithSlot, Grows,
        SlotPtr;
      SlotIsNode(vol.disk[..], inode, x);
      ghost var a := V(inode);
      GrowsReflexive(vol.geo, vol.lay, ino, a);
      if SlotPtr(inode, x) != 0 { return true, inode; }
      var ind;
      ghost var img1;
      ind, img1 := NewIndexBlock(inode, ino);
      if ind == 0 { return false, inode; }
      out := WithSlot(inode, x, ind);
      RootGrows(vol.geo, vol.lay, ino, a, img1, vol.sb, ind, vol.disk[..][ind], x);
      vol.roles := vol.roles[ind := Tree(ino, [x])];
      GrowsIsOk(vol.geo, vol.lay, ino, a, V(out));
      ok := true;
    }

    /** An empty slot of the index block at path `p` is given an index block. The parent is held in `gBuf2`
        while the allocator uses `gBuf`. */
    method EnsureChild(inode: Inode, node: nat, i: nat, ghost p: Path, ghost ino: nat) returns (child: nat)
      requires Ready(inode, ino) && i < PtrsPerBlock(vol.geo)
      requires ValidPath(PtrsPerBlock(vol.geo), p) && |p| < Levels(p[0])
      requires node != 0 && node == Node(vol.disk[..], inode, p)
      modifies vol`sb, vol`roles, vol.disk, vol.gBuf, vol.gBuf2
      ensures Grown(inode, inode, ino)
      ensures child != 0 ==> child == Node(vol.disk[..], inode, p + [i])
      ensures child == 0 ==> |vol.sb| == SB_SIZE && FreeBlocksCount(vol.sb) == 0
      ensures Spends(Gap(old(vol.disk[..]), inode, p + [i]), child != 0)
    {
      hide TreeOk, Sized, GetU32, Used, UsedInode, LayoutOk, GroupOk, SuperOk, UsedOk, ReservedOk, Grows, Node, Ptr,
        Patch, ViewOk;
      ghost var a := V(inode);
      GrowsReflexive(vol.geo, vol.lay, ino, a);
      StepDown(inode, ino, p, i);
      PtrInBlock(node, i);
      vol.ReadBlock(node, vol.gBuf2);
      child := GetU32(vol.gBuf2[..vol.geo.blockSize], 4 * i);
      if child != 0 { return; }
      var ind;
      ghost var img1;
      ind, img1 := NewIndexBlock(inode, ino);
      if ind == 0 { return 0; }
      ghost var z := vol.disk[..][ind];
      vol.Store(vol.gBuf2, 4 * i, LittleEndian(ind, 4));
      vol.WriteBlock(node, vol.gBuf2);
      ChildGrows(vol.geo, vol.lay, ino, a, img1, vol.sb, ind, z, p, i);
      vol.roles := vol.roles[ind := Tree(ino, p + [i])];
      assert V(inode) ==
             View(img1[ind := z][node := WithPtr(a.img[node], i, ind)], a.roles[ind := Tree(ino, p + [i])], inode);
      GrowsIsOk(vol.geo, vol.lay, ino, a, V(inode));
      child := ind;
    }

    lemma PtrInBlock(node: nat, i: nat)
      requires vol.Shape() && node < vol.disk.Length && i < PtrsPerBlock(vol.geo)
      ensures 4 * i + 4 <= vol.geo.blockSize == |vol.disk[..][node]|
      ensures Ptr(vol.disk[..][node], i) == GetU32(vol.disk[..][node], 4 * i)
    {}

    /** The leaf pointer in slot `i` of the lowest index block. */
    method StorePtr(inode: Inode, node: nat, i: nat, b: nat, ghost p: Path, ghost ino: nat)
      requires Ready(inode, ino) && i < PtrsPerBlock(vol.geo) && Spare(inode, b)
      requires ValidPath(PtrsPerBlock(vol.geo), p) && |p| == Levels(p[0])
      requires node != 0 && node == Node(vol.disk[..], inode, p)
      modifies vol`roles, vol.disk, vol.gBuf
      ensures Ready(inode, ino) && Stored(vol.geo, vol.lay, ino, old(V(inode)), V(inode), p + [i], b)
    {
      hide TreeOk, Sized, GetU32, Used, UsedInode, LayoutOk, GroupOk, SuperOk, UsedOk, ReservedOk, Stored, Node, Ptr,
        Patch, ViewOk;
      ghost var a := V(inode);
      LeafStored(vol.geo, vol.lay, ino, a, vol.sb, p, i, b);
      PtrInBlock(node, i);
      vol.ReadBlock(node, vol.gBuf);
      vol.Store(vol.gBuf, 4 * i, LittleEndian(b, 4));
      vol.WriteBlock(node, vol.gBuf);
      vol.roles := vol.roles[b := Tree(ino, p + [i])];
      assert V(inode) == View(a.img[node := WithPtr(a.img[node], i, b)], a.roles[b := Tree(ino, p + [i])], inode);
      StoredIsOk(vol.geo, vol.lay, ino, a, V(inode), p + [i], b);
    }

    /** Makes `b` block `k` of the file, growing the index tree on the way. */
    method SetInodeBlock(inode: Inode, k: nat, b: nat, ghost ino: nat) returns (ok: bool, out: Inode)
      requires Ready(inode, ino) && Spare(inode, b)
      modifies vol`sb, vol`roles, vol.disk, vol.gBuf, vol.gBuf2
      ensures Ready(out, ino)
      ensures ok ==> PtrsPerBlock(vol.geo) > 0 && k < Capacity(PtrsPerBlock(vol.geo)) &&
                     Stored(vol.geo, vol.lay, ino, old(V(inode)), V(out), PathOf(PtrsPerBlock(vol.geo), k), b)
      ensures !ok ==> Grown(inode, out, ino) && Spare(out, b) && |vol.sb| == SB_SIZE &&
                      (k >= Capacity(PtrsPerBlock(vol.geo)) || FreeBlocksCount(vol.sb) == 0)
      ensures k < 12 ==> ok && out == WithSlot(inode, k, b)
      ensures PtrsPerBlock(vol.geo) > 0 && PathOf(PtrsPerBlock(vol.geo), k) != [] &&
        PathOf(PtrsPerBlock(vol.geo), k)[0] < 15
      ensures k < Capacity(PtrsPerBlock(vol.geo)) ==>
                Spends(Missing(old(vol.disk[..]), inode, PathOf(PtrsPerBlock(vol.geo), k)), ok)
      ensures k >= Capacity(PtrsPerBlock(vol.geo)) ==> Spends(0, true)
    {
      hide TreeOk, Sized, GetU32, Used, UsedInode, LayoutOk, GroupOk, UsedOk, ReservedOk, Stored, Node, Ptr, Patch,
        ViewOk, Grows, PathOf, Capacity, Quot, Rem, Square, IsSpare, PtrsPerBlock, Gap, FreeBlocksCount;
      out := inode;
      GrowsReflexive(vol.geo, vol.lay, ino, V(inode));
      BlocksOfImage(vol.disk[..], vol.geo);
      var ppb := PtrsPerBlock(vol.geo);
      PathRanges(ppb, k);
      PathShape(ppb, k);
      if k < 12 {
        out := SetDirect(inode, k, b, ino);
        return true, out;
      }
      var a := k - 12;
      if a < ppb {
        ok, out := SetSingle(inode, a, b, ino);
        return;
      }
      a := a - ppb;
      if a < Square(ppb) {
        ok, out := SetDouble(inode, Quot(a, ppb), Rem(a, ppb), b, ino);
        return;
      }
      a := a - Square(ppb);
      if a < Square(ppb) * ppb {
        var rem := Rem(a, Square(ppb));
        ok, out := SetTriple(inode, Quot(a, Square(ppb)), Quot(rem, ppb), Rem(rem, ppb), b, ino);
        return;
      }
      ok := false;
    }

    method SetDirect(inode: Inode, x: nat, b: nat, ghost ino: nat) returns (out: Inode)
      requires Ready(inode, ino) && Spare(inode, b) && x < 12
      modifies vol`roles
      ensures Ready(out, ino) && Stored(vol.geo, vol.lay, ino, old(V(inode)), V(out), [x], b) &&
        out == WithSlot(inode, x, b)
    {
      hide TreeOk, Sized, GetU32, Used, UsedInode, LayoutOk, GroupOk, SuperOk, UsedOk, ReservedOk, Stored, Node, ViewOk;
      out := WithSlot(inode, x, b);
      DirectStored(vol.geo, vol.lay, ino, V(inode), vol.sb, x, b);
      vol.roles := vol.roles[b := Tree(ino, [x])];
      StoredIsOk(vol.geo, vol.lay, ino, old(V(inode)), V(out), [x], b);
    }

    method SetSingle(inode: Inode, i: nat, b: nat, ghost ino: nat) returns (ok: bool, out: Inode)
      requires Ready(inode, ino) && Spare(inode, b) && i < PtrsPerBlock(vol.geo)
      modifies vol`sb, vol`roles, vol.disk, vol.gBuf, vol.gBuf2
      ensures Ready(out, ino)
      ensures ok ==> Stored(vol.geo, vol.lay, ino, old(V(inode)), V(out), [12, i], b)
      ensures !ok ==> Grown(inode, out, ino) && Spare(out, b) && |vol.sb| == SB_SIZE && FreeBlocksCount(vol.sb) == 0
      ensures Spends(Missing(old(vol.disk[..]), inode, [12, i]), ok)
    {
      hide TreeOk, Sized, GetU32, Used, UsedInode, LayoutOk, GroupOk, SuperOk, UsedOk, ReservedOk, Stored, Node, Ptr,
        Patch, ViewOk, Grows, IsSpare, PtrsPerBlock, Gap, FreeBlocksCount;
      assert [12, i][..1] == [12];
      ok, out := EnsureRoot(inode, 12, ino);
      StillSpare(ino, old(V(inode)), V(out), b);
      if !ok { return; }
      SlotIsNode(vol.disk[..], out, 12);
      ghost var m := V(out);
      StorePtr(out, SlotPtr(out, 12), i, b, [12], ino);
      assert [12] + [i] == [12, i];
      GrowsThenStored(vol.geo, vol.lay, ino, old(V(inode)), m, V(out), [12, i], b);
    }

    /** The last two levels below the index block `node` at path `p`. */
    method SetUnder(inode: Inode, node: nat, i: nat, j: nat, b: nat, ghost p: Path, ghost ino: nat) returns (ok: bool)
      requires Ready(inode, ino) && Spare(inode, b) && i < PtrsPerBlock(vol.geo) && j < PtrsPerBlock(vol.geo)
      requires ValidPath(PtrsPerBlock(vol.geo), p) && |p| + 1 == Levels(p[0])
      requires node != 0 && node == Node(vol.disk[..], inode, p)
      modifies vol`sb, vol`roles, vol.disk, vol.gBuf, vol.gBuf2
      ensures Ready(inode, ino)
      ensures ok ==> Stored(vol.geo, vol.lay, ino, old(V(inode)), V(inode), p + [i] + [j], b)
      ensures !ok ==> Grown(inode, inode, ino) && Spare(inode, b) && |vol.sb| == SB_SIZE && FreeBlocksCount(vol.sb) == 0
      ensures Spends(Gap(old(vol.disk[..]), inode, p + [i]), ok)
    {
      hide TreeOk, Sized, GetU32, Used, UsedInode, LayoutOk, GroupOk, SuperOk, UsedOk, ReservedOk, Stored, Node, Ptr,
        Patch, ViewOk, Grows, IsSpare, PtrsPerBlock, Gap, FreeBlocksCount;
      var ind := EnsureChild(inode, node, i, p, ino);
      StillSpare(ino, old(V(inode)), V(inode), b);
      if ind == 0 { return false; }
      ghost var m := V(inode);
      StorePtr(inode, ind, j, b, p + [i], ino);
      GrowsThenStored(vol.geo, vol.lay, ino, old(V(inode)), m, V(inode), p + [i] + [j], b);
      ok := true;
    }

    method SetDouble(inode: Inode, i: nat, j: nat, b: nat, ghost ino: nat) returns (ok: bool, out: Inode)
      requires Ready(inode, ino) && Spare(inode, b) && i < PtrsPerBlock(vol.geo) && j < PtrsPerBlock(vol.geo)
      modifies vol`sb, vol`roles, vol.disk, vol.gBuf, vol.gBuf2
      ensures Ready(out, ino)
      ensures ok ==> Stored(vol.geo, vol.lay, ino, old(V(inode)), V(out), [13, i, j], b)
      ensures !ok ==> Grown(inode, out, ino) && Spare(out, b) && |vol.sb| == SB_SIZE && FreeBlocksCount(vol.sb) == 0
      ensures Spends(Missing(old(vol.disk[..]), inode, [13, i, j]), ok)
    {
      hide TreeOk, Sized, GetU32, Used, UsedInode, LayoutOk, GroupOk, SuperOk, UsedOk, ReservedOk, Stored, Node, Ptr,
        Patch, ViewOk, Grows, IsSpare, PtrsPerBlock, Gap, FreeBlocksCount;
      assert [13, i, j][..1] == [13] && [13, i, j][..2] == [13] + [i];
      ok, out := EnsureRoot(inode, 13, ino);
      StillSpare(ino, old(V(inode)), V(out), b);
      if !ok { return; }
      SlotIsNode(vol.disk[..], out, 13);
      ghost var m := V(out);
      GapShrinks(vol.geo, vol.lay, ino, old(V(inode)), m, [13] + [i]);
      ok := SetUnder(out, SlotPtr(out, 13), i, j, b, [13], ino);
      assert [13] + [i] + [j] == [13, i, j];
      Compose(ino, old(V(inode)), m, V(out), [13, i, j], b, ok);
    }

    method SetTriple(inode: Inode, i: nat, j: nat, l: nat, b: nat, ghost ino: nat) returns (ok: bool, out: Inode)
      requires Ready(inode, ino) && Spare(inode, b)
      requires i < PtrsPerBlock(vol.geo) && j < PtrsPerBlock(vol.geo) && l < PtrsPerBlock(vol.geo)
      modifies vol`sb, vol`roles, vol.disk, vol.gBuf, vol.gBuf2
      ensures Ready(out, ino)
      ensures ok ==> Stored(vol.geo, vol.lay, ino, old(V(inode)), V(out), [14, i, j, l], b)
      ensures !ok ==> Grown(inode, out, ino) && Spare(out, b) && |vol.sb| == SB_SIZE && FreeBlocksCount(vol.sb) == 0
      ensures Spends(Missing(old(vol.disk[..]), inode, [14, i, j, l]), ok)
    {
      hide TreeOk, Sized, GetU32, Used, UsedInode, LayoutOk, GroupOk, SuperOk, UsedOk, ReservedOk, Stored, Node, Ptr,
        Patch, ViewOk, Grows, IsSpare, PtrsPerBlock, Gap, FreeBlocksCount;
      assert [14, i, j, l][..1] == [14] && [14, i, j, l][..2] == [14] + [i] && [14, i, j, l][..3] == [14, i] + [j];
      ok, out := EnsureRoot(inode, 14, ino);
      StillSpare(ino, old(V(inode)), V(out), b);
      if !ok { return; }
      SlotIsNode(vol.disk[..], out, 14);
      ghost var m := V(out);
      GapShrinks(vol.geo, vol.lay, ino, old(V(inode)), m, [14] + [i]);
      var dind := EnsureChild(out, SlotPtr(out, 14), i, [14], ino);
      ghost var n := V(out);
      StillSpare(ino, m, n, b);
      GrowsTransitive(vol.geo, vol.lay, ino, old(V(inode)), m, n);
      if dind == 0 { return false, out; }
      assert [14] + [i] == [14, i];
      GapShrinks(vol.geo, vol.lay, ino, old(V(inode)), n, [14, i] + [j]);
      ok := SetUnder(out, dind, j, l, b, [14, i], ino);
      assert [14, i] + [j] + [l] == [14, i, j, l];
      Compose(ino, old(V(inode)), n, V(out), [14, i, j, l], b, ok);
    }

    lemma Compose(ino: nat, a: View, m: View, z: View, s: Path, b: nat, ok: bool)
      requires Grows(vol.geo, vol.lay, ino, a, m) && b !in a.roles
      requires if ok then Stored(vol.geo, vol.lay, ino, m, z, s, b) else Grows(vol.geo, vol.lay, ino, m, z)
      ensures if ok then Stored(vol.geo, vol.lay, ino, a, z, s, b) else Grows(vol.geo, vol.lay, ino, a, z)
    {
      hide Grows, Stored;
      if ok {
        GrowsThenStored(vol.geo, vol.lay, ino, a, m, z, s, b);
      } else {
        GrowsTransitive(vol.geo, vol.lay, ino, a, m, z);
      }
    }

    lemma StillSpare(ino: nat, a: View, m: View, b: nat)
      requires Grows(vol.geo, vol.lay, ino, a, m) && ViewOk(vol.geo, vol.lay, ino, a) && IsSpare(vol.geo, vol.lay, a, b)
      ensures ViewOk(vol.geo, vol.lay, ino, m) && IsSpare(vol.geo, vol.lay, m, b) && b !in a.roles
    {
      hide TreeOk, Sized, Used, Grows;
      GrowsIsOk(vol.geo, vol.lay, ino, a, m);
      GrowsKeepsSpare(vol.geo, vol.lay, ino, a, m, b);
    }
  }
}
