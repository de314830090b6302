/** How a file's tree of index blocks grows: new index blocks are taken from the free ones, zeroed and
    linked, no leaf changes, and nothing outside the tree and the counters is touched. */
module Ext2Grow {
  import opened Bytes
  import opened Ext2Tree
  import opened Ext2Meta
  import opened Ext2Steps
  import opened Ext2Frames

  /** A file's tree: the disk, the roles of its blocks, and the inode as held in memory. */
  datatype View = View(img: seq<Block>, roles: map<nat, Role>, inode: Inode)

  ghost predicate ViewOk(geo: Geo, lay: seq<GroupLay>, ino: nat, a: View) {
    Laid(a.img, geo, lay) && TreeOk(a.img, PtrsPerBlock(geo), a.inode, ino, a.roles)
  }

  /** Everything in an inode but its block pointers. */
  ghost predicate SameOther(x: Inode, y: Inode) { y[..40] == x[..40] && y[100..] == x[100..] }

  /** Roles are kept, and a block with a new role was free and is now an index block of the file. */
  ghost predicate RolesGrow(geo: Geo, lay: seq<GroupLay>, ino: nat, a: View, b: View)
    requires Laid(a.img, geo, lay)
  {
    (forall x :: x in a.roles ==> x in b.roles && b.roles[x] == a.roles[x]) &&
    (forall x :: x in b.roles && x !in a.roles ==>
       IsIndex(b.roles[x], ino) && IsBlock(geo, x) && !Used(a.img, geo, lay, x))
  }

  /** A taken block that is neither a counter nor an index block of the file keeps its contents. */
  ghost predicate Settled(geo: Geo, lay: seq<GroupLay>, ino: nat, a: View, x: nat)
    requires Laid(a.img, geo, lay)
  {
    IsBlock(geo, x) && x < geo.totalBlocks && Used(a.img, geo, lay, x) &&
    !(x in a.roles && (IsCounter(a.roles[x]) || IsIndex(a.roles[x], ino)))
  }

  ghost predicate BlocksKept(geo: Geo, lay: seq<GroupLay>, ino: nat, a: View, b: View)
    requires Laid(a.img, geo, lay) && Laid(b.img, geo, lay)
  {
    (forall x: nat :: IsBlock(geo, x) && Used(a.img, geo, lay, x) ==> Used(b.img, geo, lay, x)) &&
    (forall x: nat :: Settled(geo, lay, ino, a, x) ==> b.img[x] == a.img[x]) &&
    (forall j: nat :: IsInode(geo, j) ==> (UsedInode(b.img, geo, lay, j) <==> UsedInode(a.img, geo, lay, j)))
  }

  /** No leaf changes, and no index block is replaced. */
  ghost predicate NodesKept(geo: Geo, a: View, b: View) {
    forall p: Path :: ValidPath(PtrsPerBlock(geo), p) && (IsLeaf(p) || Node(a.img, a.inode, p) != 0) ==>
      Node(b.img, b.inode, p) == Node(a.img, a.inode, p)
  }

  ghost predicate Grows(geo: Geo, lay: seq<GroupLay>, ino: nat, a: View, b: View) {
    ViewOk(geo, lay, ino, a) && ViewOk(geo, lay, ino, b) && SameOther(a.inode, b.inode) &&
    RolesGrow(geo, lay, ino, a, b) && BlocksKept(geo, lay, ino, a, b) && NodesKept(geo, a, b)
  }

  lemma GrowsReflexive(geo: Geo, lay: seq<GroupLay>, ino: nat, a: View)
    requires ViewOk(geo, lay, ino, a)
    ensures Grows(geo, lay, ino, a, a)
  {
    hide TreeOk, Laid, Used, UsedInode, Settled;
  }

  lemma GrowsIsOk(geo: Geo, lay: seq<GroupLay>, ino: nat, a: View, b: View)
    requires Grows(geo, lay, ino, a, b)
    ensures ViewOk(geo, lay, ino, a) && ViewOk(geo, lay, ino, b)
  {
    hide ViewOk, SameOther, RolesGrow, BlocksKept, NodesKept;
  }

  lemma GrowsTransitive(geo: Geo, lay: seq<GroupLay>, ino: nat, a: View, b: View, c: View)
    requires Grows(geo, lay, ino, a, b) && Grows(geo, lay, ino, b, c)
    ensures Grows(geo, lay, ino, a, c)
  {
    hide TreeOk, Sized, InVolume, Used, UsedInode, Node;
    forall x: nat | Settled(geo, lay, ino, a, x) ensures c.img[x] == a.img[x] {
      assert Settled(geo, lay, ino, b, x);
    }
  }

  /** A taken block that is not part of anything yet. */
  ghost predicate IsSpare(geo: Geo, lay: seq<GroupLay>, a: View, b: nat)
    requires Laid(a.img, geo, lay)
  {
    b != 0 && IsBlock(geo, b) && b < geo.totalBlocks && b !in a.roles && Used(a.img, geo, lay, b)
  }

  lemma GrowsKeepsSpare(geo: Geo, lay: seq<GroupLay>, ino: nat, a: View, b: View, v: nat)
    requires Grows(geo, lay, ino, a, b) && IsSpare(geo, lay, a, v)
    ensures IsSpare(geo, lay, b, v) && b.img[v] == a.img[v]
  {
    hide TreeOk, Sized, InVolume, Used, UsedInode, Node, NodesKept;
    assert Settled(geo, lay, ino, a, v);
  }

  // ---------------------------------------------------------------- linking a fresh index block

  /** What an allocation gave: block `ind` was free and is taken, only counters changed. */
  ghost predicate Allocated(geo: Geo, lay: seq<GroupLay>, a: View, img1: seq<Block>, sb1: seq<byte>, ind: nat)
    requires Laid(a.img, geo, lay)
  {
    MetaOk(img1, sb1, geo, lay, a.roles) && SameBeyondCounters(a.img, img1, a.roles) &&
    IsBlock(geo, ind) && ind < geo.totalBlocks && ind != 0 && ind !in a.roles && !Used(a.img, geo, lay, ind) &&
    (forall c: nat :: IsBlock(geo, c) ==> (Used(img1, geo, lay, c) <==> c == ind || Used(a.img, geo, lay, c))) &&
    (forall j: nat :: IsInode(geo, j) ==> (UsedInode(img1, geo, lay, j) <==> UsedInode(a.img, geo, lay, j)))
  }

  /** A disk that differs from a fresh allocation's only in `ind` and in index blocks of the file. */
  lemma FreshKept(geo: Geo, lay: seq<GroupLay>, ino: nat, a: View, img1: seq<Block>, sb1: seq<byte>, ind: nat,
                  img3: seq<Block>, inode3: Inode, r: Role)
    requires ViewOk(geo, lay, ino, a) && Allocated(geo, lay, a, img1, sb1, ind)
    requires WfImage(img3, geo) && IsIndex(r, ino)
    requires forall x :: 0 <= x < |img1| && x != ind && !(x in a.roles && IsIndex(a.roles[x], ino)) ==>
      img3[x] == img1[x]
    ensures MetaOk(img3, sb1, geo, lay, a.roles) && MetaOk(img3, sb1, geo, lay, a.roles[ind := r])
    ensures RolesGrow(geo, lay, ino, a, View(img3, a.roles[ind := r], inode3))
    ensures BlocksKept(geo, lay, ino, a, View(img3, a.roles[ind := r], inode3))
  {
    hide Sized, TreeOk, LayoutOk, GroupOk, SuperOk, UsedOk, ReservedOk, Used, UsedInode;
    MetaSame(img1, img3, sb1, geo, lay, a.roles);
    MetaRole(img3, sb1, geo, lay, a.roles, ind, r);
  }

  /** A zeroed block linked in slot `x` of the inode. */
  lemma RootGrows(geo: Geo, lay: seq<GroupLay>, ino: nat, a: View, img1: seq<Block>, sb1: seq<byte>, ind: nat,
                  z: Block, x: nat)
    requires ViewOk(geo, lay, ino, a) && Allocated(geo, lay, a, img1, sb1, ind)
    requires 12 <= x < 15 && SlotPtr(a.inode, x) == 0 && |z| == geo.blockSize && ZeroBlock(z)
    ensures var b := View(img1[ind := z], a.roles[ind := Tree(ino, [x])], WithSlot(a.inode, x, ind));
            Grows(geo, lay, ino, a, b) && MetaOk(b.img, sb1, geo, lay, b.roles) && SlotPtr(b.inode, x) == ind
  {
    hide Sized, LayoutOk, GroupOk, SuperOk, UsedOk, ReservedOk, Used, UsedInode, GetU32, TreeOk, Patch;
    BlockNumbersFit(geo);
    var img2 := img1[ind := z];
    var b := View(img2, a.roles[ind := Tree(ino, [x])], WithSlot(a.inode, x, ind));
    FreshKept(geo, lay, ino, a, img1, sb1, ind, img2, b.inode, Tree(ino, [x]));
    TreeSame(a.img, img2, PtrsPerBlock(geo), a.inode, ino, a.roles, a.roles);
    forall p: Path | ValidPath(PtrsPerBlock(geo), p)
      ensures Node(img2, b.inode, p) == AfterStore([x], ind, p, Node(img2, a.inode, p))
    {
      StoreInSlot(img2, PtrsPerBlock(geo), a.inode, x, ind, p);
    }
    TreeAfterStore(img2, img2, PtrsPerBlock(geo), a.inode, b.inode, ino, a.roles, [x], ind);
    BelowEmpty(geo, ino, View(img2, a.roles, a.inode), [x]);
    WithSlotPtr(a.inode, x, ind, x);
    SlotKeepsOther(a.inode, x, ind);
  }

  lemma SlotKeepsOther(inode: Inode, x: nat, v: nat)
    requires x < 15
    ensures SameOther(inode, WithSlot(inode, x, v))
  {
    hide GetU32;
    PatchWindow(inode, 40 + 4 * x, LittleEndian(v, 4), 0, 40);
    PatchWindow(inode, 40 + 4 * x, LittleEndian(v, 4), 100, 28);
  }

  /** Where a node is missing, everything below it is missing. */
  lemma {:induction false} BelowEmpty(geo: Geo, ino: nat, a: View, s: Path)
    requires ValidPath(PtrsPerBlock(geo), s) && Node(a.img, a.inode, s) == 0
    ensures forall p: Path :: ValidPath(PtrsPerBlock(geo), p) && s <= p ==> Node(a.img, a.inode, p) == 0
  {
    forall p: Path | ValidPath(PtrsPerBlock(geo), p) && s <= p ensures Node(a.img, a.inode, p) == 0 {
      BelowEmptyAt(geo, a, s, p);
    }
  }

  lemma {:induction false} BelowEmptyAt(geo: Geo, a: View, s: Path, p: Path)
    requires ValidPath(PtrsPerBlock(geo), s) && Node(a.img, a.inode, s) == 0 && ValidPath(PtrsPerBlock(geo), p) &&
      s <= p
    ensures Node(a.img, a.inode, p) == 0
    decreases |p|
  {
    if |s| < |p| {
      assert s <= p[..|p| - 1];
      BelowEmptyAt(geo, a, s, p[..|p| - 1]);
    } else {
      assert s == p;
    }
  }

  lemma BlocksOfImage(img: seq<Block>, geo: Geo)
    requires GeoOk(geo) && WfImage(img, geo)
    ensures BlocksOf(img, PtrsPerBlock(geo)) && PtrsPerBlock(geo) > 0 && geo.blockSize == 4 * PtrsPerBlock(geo)
  {
    hide Sized;
  }

  /** A zeroed block linked in slot `i` of the index block at path `p`. */
  lemma ChildGrows(geo: Geo, lay: seq<GroupLay>, ino: nat, a: View, img1: seq<Block>, sb1: seq<byte>, ind: nat,
                   z: Block, p: Path, i: nat)
    requires ViewOk(geo, lay, ino, a) && Allocated(geo, lay, a, img1, sb1, ind)
    requires |z| == geo.blockSize && ZeroBlock(z) && i < PtrsPerBlock(geo)
    requires ValidPath(PtrsPerBlock(geo), p) && |p| < Levels(p[0])
    requires Node(a.img, a.inode, p) != 0 && Node(a.img, a.inode, p + [i]) == 0
    ensures var q := Node(a.img, a.inode, p);
            q < |a.img| && |a.img[q]| == 4 * PtrsPerBlock(geo) &&
            var b := View(img1[ind := z][q := WithPtr(a.img[q], i, ind)], a.roles[ind := Tree(ino, p + [i])], a.inode);
            Grows(geo, lay, ino, a, b) && MetaOk(b.img, sb1, geo, lay, b.roles) &&
            Node(b.img, b.inode, p) == q && Node(b.img, b.inode, p + [i]) == ind
  {
    hide Sized, LayoutOk, GroupOk, SuperOk, UsedOk, ReservedOk, Used, UsedInode, GetU32, WithPtr, TreeOk, Node;
    var ppb, q, s := PtrsPerBlock(geo), Node(a.img, a.inode, p), p + [i];
    NodeHasRole(a.img, ppb, a.inode, ino, a.roles, p);
    BlocksOfImage(a.img, geo);
    BlockNumbersFit(geo);
    var img2 := img1[ind := z];
    var img3 := img2[q := WithPtr(a.img[q], i, ind)];
    var b := View(img3, a.roles[ind := Tree(ino, s)], a.inode);
    FreshKept(geo, lay, ino, a, img1, sb1, ind, img3, b.inode, Tree(ino, s));
    TreeSame(a.img, img2, ppb, a.inode, ino, a.roles, a.roles);
    BlocksOfImage(img2, geo);
    StoreInBlockAll(img2, ppb, a.inode, ino, a.roles, p, i, ind);
    TreeAfterStore(img2, img3, ppb, a.inode, a.inode, ino, a.roles, s, ind);
    BelowEmpty(geo, ino, View(img2, a.roles, a.inode), s);
  }

  // ---------------------------------------------------------------- storing a leaf

  /** The tree after `set_inode_block`: leaf `s` is `v`, every other leaf is as it was, the only blocks with
      new roles are `v` and fresh index blocks, and nothing else changed. */
  ghost predicate Stored(geo: Geo, lay: seq<GroupLay>, ino: nat, a: View, b: View, s: Path, v: nat) {
    ViewOk(geo, lay, ino, a) && ViewOk(geo, lay, ino, b) && SameOther(a.inode, b.inode) &&
    ValidPath(PtrsPerBlock(geo), s) && IsLeaf(s) &&
    (forall x :: x in a.roles ==> x in b.roles && b.roles[x] == a.roles[x]) &&
    v in b.roles && b.roles[v] == Tree(ino, s) &&
    (forall x :: x in b.roles && x !in a.roles && x != v ==>
       IsIndex(b.roles[x], ino) && IsBlock(geo, x) && !Used(a.img, geo, lay, x)) &&
    BlocksKept(geo, lay, ino, a, b) && LeafSet(geo, a, b, s, v)
  }

  ghost predicate LeafSet(geo: Geo, a: View, b: View, s: Path, v: nat)
    requires s != [] && s[0] < 15
  {
    Node(b.img, b.inode, s) == v &&
    forall p: Path :: ValidPath(PtrsPerBlock(geo), p) && p != s && (IsLeaf(p) || Node(a.img, a.inode, p) != 0) ==>
      Node(b.img, b.inode, p) == Node(a.img, a.inode, p)
  }

  lemma StoredIsOk(geo: Geo, lay: seq<GroupLay>, ino: nat, a: View, b: View, s: Path, v: nat)
    requires Stored(geo, lay, ino, a, b, s, v)
    ensures ViewOk(geo, lay, ino, a) && ViewOk(geo, lay, ino, b)
  {
    hide ViewOk, SameOther, BlocksKept, LeafSet, Used;
  }

  lemma GrowsThenStored(geo: Geo, lay: seq<GroupLay>, ino: nat, a: View, m: View, b: View, s: Path, v: nat)
    requires Grows(geo, lay, ino, a, m) && Stored(geo, lay, ino, m, b, s, v) && v !in a.roles
    ensures Stored(geo, lay, ino, a, b, s, v)
  {
    hide TreeOk, Sized, InVolume, Used, UsedInode, Node;
    forall x: nat | Settled(geo, lay, ino, a, x) ensures b.img[x] == a.img[x] {
      assert Settled(geo, lay, ino, m, x);
    }
  }

  /** A leaf pointer in the inode itself. */
  lemma DirectStored(geo: Geo, lay: seq<GroupLay>, ino: nat, a: View, sb: seq<byte>, x: nat, v: nat)
    requires ViewOk(geo, lay, ino, a) && MetaOk(a.img, sb, geo, lay, a.roles) && x < 12
    requires v != 0 && v < geo.totalBlocks && IsBlock(geo, v) && v !in a.roles && Used(a.img, geo, lay, v)
    ensures var b := View(a.img, a.roles[v := Tree(ino, [x])], WithSlot(a.inode, x, v));
            Stored(geo, lay, ino, a, b, [x], v) && MetaOk(b.img, sb, geo, lay, b.roles)
  {
    hide Sized, LayoutOk, GroupOk, SuperOk, UsedOk, ReservedOk, Used, UsedInode, GetU32, TreeOk, Patch;
    BlockNumbersFit(geo);
    var b := View(a.img, a.roles[v := Tree(ino, [x])], WithSlot(a.inode, x, v));
    MetaRole(a.img, sb, geo, lay, a.roles, v, Tree(ino, [x]));
    forall p: Path | ValidPath(PtrsPerBlock(geo), p)
      ensures Node(b.img, b.inode, p) == AfterStore([x], v, p, Node(a.img, a.inode, p))
    {
      StoreInSlot(a.img, PtrsPerBlock(geo), a.inode, x, v, p);
    }
    TreeAfterStore(a.img, a.img, PtrsPerBlock(geo), a.inode, b.inode, ino, a.roles, [x], v);
    SlotKeepsOther(a.inode, x, v);
  }

  /** A leaf pointer in slot `i` of the index block at path `p`. */
  lemma LeafStored(geo: Geo, lay: seq<GroupLay>, ino: nat, a: View, sb: seq<byte>, p: Path, i: nat, v: nat)
    requires ViewOk(geo, lay, ino, a) && MetaOk(a.img, sb, geo, lay, a.roles)
    requires ValidPath(PtrsPerBlock(geo), p) && |p| == Levels(p[0]) && i < PtrsPerBlock(geo)
    requires Node(a.img, a.inode, p) != 0
    requires v != 0 && v < geo.totalBlocks && IsBlock(geo, v) && v !in a.roles && Used(a.img, geo, lay, v)
    ensures var q := Node(a.img, a.inode, p);
            q < |a.img| && |a.img[q]| == 4 * PtrsPerBlock(geo) &&
            var b := View(a.img[q := WithPtr(a.img[q], i, v)], a.roles[v := Tree(ino, p + [i])], a.inode);
            Stored(geo, lay, ino, a, b, p + [i], v) && MetaOk(b.img, sb, geo, lay, b.roles)
  {
    hide Sized, LayoutOk, GroupOk, SuperOk, UsedOk, ReservedOk, Used, UsedInode, GetU32, WithPtr, TreeOk, Node;
    var ppb, q, s := PtrsPerBlock(geo), Node(a.img, a.inode, p), p + [i];
    NodeHasRole(a.img, ppb, a.inode, ino, a.roles, p);
    BlocksOfImage(a.img, geo);
    BlockNumbersFit(geo);
    var img3 := a.img[q := WithPtr(a.img[q], i, v)];
    MetaSame(a.img, img3, sb, geo, lay, a.roles);
    MetaRole(img3, sb, geo, lay, a.roles, v, Tree(ino, s));
    StoreInBlockAll(a.img, ppb, a.inode, ino, a.roles, p, i, v);
    TreeAfterStore(a.img, img3, ppb, a.inode, a.inode, ino, a.roles, s, v);
  }
}
