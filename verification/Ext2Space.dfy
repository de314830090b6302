/** How many blocks a file takes: its data blocks, and the index blocks that lead to them. */
module Ext2Space {
  import opened Ext2Tree
  import opened Ext2Meta
  import opened Ext2Grow

  /** One index block is missing at this place. */
  function Gap(img: seq<Block>, inode: Inode, p: Path): nat
    requires p != [] && p[0] < 15
  {
    if Node(img, inode, p) == 0 then 1 else 0
  }

  /** The index blocks missing on the way to a place. */
  function Missing(img: seq<Block>, inode: Inode, p: Path): nat
    requires p != [] && p[0] < 15
  {
    (if |p| > 1 then Gap(img, inode, p[..1]) else 0) + (if |p| > 2 then Gap(img, inode, p[..2]) else 0) +
    (if |p| > 3 then Gap(img, inode, p[..3]) else 0)
  }

  /** Block `k` is the first one below the index block at level `l` of its path. */
  function Starts(ppb: nat, k: nat, l: nat): nat
    requires ppb > 0
  {
    var p := PathOf(ppb, k);
    if l < |p| && (k == 0 || !(p[..l] <= PathOf(ppb, k - 1))) then 1 else 0
  }

  /** The index blocks that block `k` needs and no block before it. */
  function NewIndex(ppb: nat, k: nat): nat
    requires ppb > 0
  {
    Starts(ppb, k, 1) + Starts(ppb, k, 2) + Starts(ppb, k, 3)
  }

  /** Data and index blocks of a file of `n` blocks. */
  function BlocksFor(ppb: nat, n: nat): nat
    requires ppb > 0
  {
    if n == 0 then 0 else BlocksFor(ppb, n - 1) + 1 + NewIndex(ppb, n - 1)
  }

  lemma {:induction false} BlocksForGrows(ppb: nat, m: nat, n: nat)
    requires ppb > 0 && m <= n
    ensures BlocksFor(ppb, m) <= BlocksFor(ppb, n)
    decreases n
  {
    hide NewIndex;
    if m < n { BlocksForGrows(ppb, m, n - 1); }
  }

  lemma OneMoreBlock(ppb: nat, k: nat, n: nat)
    requires ppb > 0 && k + 1 <= n
    ensures BlocksFor(ppb, k) + 1 + NewIndex(ppb, k) == BlocksFor(ppb, k + 1) <= BlocksFor(ppb, n)
  {
    hide NewIndex;
    BlocksForGrows(ppb, k + 1, n);
  }

  lemma NoBlocks(ppb: nat)
    requires ppb > 0
    ensures BlocksFor(ppb, 0) == 0
  {}

  /** Twelve blocks need no index, and as many more as a block has pointers need one. */
  lemma {:induction false} SmallFiles(ppb: nat, n: nat)
    requires 0 < ppb
    ensures n <= 12 ==> BlocksFor(ppb, n) == n
    ensures 12 < n <= 12 + ppb ==> BlocksFor(ppb, n) == n + 1
  {
    hide NewIndex;
    if 0 < n <= 12 + ppb {
      SmallFiles(ppb, n - 1);
      SmallIndex(ppb, n - 1);
    }
  }

  lemma SmallIndex(ppb: nat, k: nat)
    requires ppb > 0 && k < 12 + ppb
    ensures NewIndex(ppb, k) == if k == 12 then 1 else 0
  {
    hide Square, Quot, Rem;
    var p := PathOf(ppb, k);
    assert |p| <= 2;
    if k > 12 {
      assert PathOf(ppb, k - 1)[..1] == [12] == p[..1];
    } else if k == 12 {
      assert p[..1][0] == 12 && PathOf(ppb, 11) == [11];
      assert !(p[..1] <= PathOf(ppb, 11));
    }
  }

  lemma {:induction false} NodeAbove(img: seq<Block>, inode: Inode, p: Path, l: nat)
    requires p != [] && p[0] < 15 && 0 < l <= |p| && Node(img, inode, p) != 0
    ensures Node(img, inode, p[..l]) != 0
    decreases |p|
  {
    if l < |p| {
      NodeAbove(img, inode, p[..|p| - 1], l);
      assert p[..|p| - 1][..l] == p[..l];
    } else {
      assert p[..l] == p;
    }
  }

  /** When the block before is there, no more is missing than that. */
  lemma MissingAtMost(img: seq<Block>, ppb: nat, inode: Inode, k: nat)
    requires ppb > 0 && k < Capacity(ppb) && (k > 0 ==> BlockAt(img, ppb, inode, k - 1) != 0)
    ensures PathOf(ppb, k) != [] && PathOf(ppb, k)[0] < 15
    ensures Missing(img, inode, PathOf(ppb, k)) <= NewIndex(ppb, k)
  {
    hide PathOf, Capacity, Node;
    PathShape(ppb, k);
    if k > 0 {
      PathShape(ppb, k - 1);
      GapAtMost(img, ppb, inode, k, 1);
      GapAtMost(img, ppb, inode, k, 2);
      GapAtMost(img, ppb, inode, k, 3);
    }
  }

  lemma PathShape(ppb: nat, k: nat)
    requires ppb > 0
    ensures PathOf(ppb, k) != [] && PathOf(ppb, k)[0] < 15 && |PathOf(ppb, k)| <= 4
    ensures k == 0 ==> |PathOf(ppb, k)| == 1
  {}

  lemma GapAtMost(img: seq<Block>, ppb: nat, inode: Inode, k: nat, l: nat)
    requires ppb > 0 && 0 < k < Capacity(ppb) && BlockAt(img, ppb, inode, k - 1) != 0 && l > 0
    ensures l < |PathOf(ppb, k)| ==> PathOf(ppb, k)[0] < 15 && Gap(img, inode, PathOf(ppb, k)[..l]) <= Starts(ppb, k, l)
  {
    hide PathOf, Capacity, Node;
    PathShape(ppb, k);
    PathShape(ppb, k - 1);
    if l < |PathOf(ppb, k)| && PathOf(ppb, k)[..l] <= PathOf(ppb, k - 1) {
      NodeAbove(img, inode, PathOf(ppb, k - 1), l);
      assert PathOf(ppb, k - 1)[..l] == PathOf(ppb, k)[..l];
    }
  }

  /** Growing the tree fills gaps and makes none. */
  lemma GapShrinks(geo: Geo, lay: seq<GroupLay>, ino: nat, a: View, b: View, p: Path)
    requires Grows(geo, lay, ino, a, b) && ValidPath(PtrsPerBlock(geo), p)
    ensures Gap(b.img, b.inode, p) <= Gap(a.img, a.inode, p)
  {
    hide ViewOk, RolesGrow, BlocksKept, SameOther, Node;
    if Node(a.img, a.inode, p) != 0 { assert Node(b.img, b.inode, p) != 0; }
  }

  /** No file of 32 bits of bytes reaches the end of the block map. */
  lemma CapacityLarge(geo: Geo)
    requires GeoOk(geo)
    ensures Capacity(PtrsPerBlock(geo)) > 0x40_0001
  {
    hide Sized;
    if geo.blockSize == 1024 {
      assert Square(256) == 65536 && Square(256) * 256 == 0x100_0000;
    } else if geo.blockSize == 2048 {
      assert Square(512) == 262144 && Square(512) * 512 == 0x800_0000;
    } else {
      assert Square(1024) == 0x10_0000 && Square(1024) * 1024 == 0x4000_0000;
    }
  }
}
