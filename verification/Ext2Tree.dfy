/** The block map of an ext2 inode: twelve direct pointers and three trees of index blocks of depth one,
    two and three. A node is named by its path: the slot in the inode, then a slot in each index block. */
module Ext2Tree {
  import opened Bytes

  type Block = seq<byte>
  type Inode = s: seq<byte> | |s| == 128 witness seq(128, _ => 0)
  type Path = seq<nat>

  /** What a block is for. Every block has at most one role, so no block is shared. */
  datatype Role =
    | Super
    | Descriptors(i: nat)
    | BlockBitmap(group: nat)
    | InodeBitmap(group: nat)
    | InodeTable(group: nat, i: nat)
    | Tree(ino: nat, path: Path)

  // ---------------------------------------------------------------- nodes

  function SlotPtr(inode: Inode, r: nat): nat
    requires r < 15
  {
    GetU32(inode, 40 + 4 * r)
  }

  function WithSlot(inode: Inode, r: nat, v: nat): (w: Inode)
    requires r < 15
  {
    PutU32(inode, 40 + 4 * r, v)
  }

  function Ptr(b: Block, i: nat): nat {
    if 4 * i + 4 <= |b| then GetU32(b, 4 * i) else 0
  }

  function WithPtr(b: Block, i: nat, v: nat): (c: Block)
    requires 4 * i + 4 <= |b|
    ensures |c| == |b|
  {
    PutU32(b, 4 * i, v)
  }

  function Levels(r: nat): nat {
    if r < 12 then 0 else r - 11
  }

  predicate ValidPath(ppb: nat, p: Path) {
    p != [] && p[0] < 15 && |p| <= 1 + Levels(p[0]) && forall i :: 1 <= i < |p| ==> p[i] < ppb
  }

  predicate IsLeaf(p: Path)
    requires p != []
  {
    |p| == 1 + Levels(p[0])
  }

  /** The block at path `p`, or 0 when a pointer on the way is 0. */
  function Node(img: seq<Block>, inode: Inode, p: Path): nat
    requires p != [] && p[0] < 15
  {
    if |p| == 1 then SlotPtr(inode, p[0])
    else
      var q := Node(img, inode, p[..|p| - 1]);
      if q == 0 || q >= |img| then 0 else Ptr(img[q], p[|p| - 1])
  }

  ghost predicate NodeOk(img: seq<Block>, inode: Inode, ino: nat, roles: map<nat, Role>, p: Path)
    requires p != [] && p[0] < 15
  {
    var b := Node(img, inode, p);
    b != 0 ==> b < |img| && b in roles && roles[b] == Tree(ino, p)
  }

  /** Every node of the inode has the role its path gives it: the index blocks form a tree. */
  ghost predicate TreeOk(img: seq<Block>, ppb: nat, inode: Inode, ino: nat, roles: map<nat, Role>) {
    forall p: Path :: ValidPath(ppb, p) ==> NodeOk(img, inode, ino, roles, p)
  }

  ghost predicate BlocksOf(img: seq<Block>, ppb: nat) {
    forall b :: 0 <= b < |img| ==> |img[b]| == 4 * ppb
  }

  // ---------------------------------------------------------------- block index and path

  function Square(n: nat): (m: nat)
    ensures n > 0 ==> m > 0
  {
    n * n
  }

  function Capacity(ppb: nat): nat { 12 + ppb + Square(ppb) + Square(ppb) * ppb }

  function Quot(x: nat, y: nat): nat
    requires y > 0
  {
    x / y
  }

  function Rem(x: nat, y: nat): (r: nat)
    requires y > 0
    ensures r < y
  {
    x % y
  }

  function PathOf(ppb: nat, k: nat): Path
    requires ppb > 0
  {
    if k < 12 then [k]
    else
      var a := k - 12;
      if a < ppb then [12, a]
      else
        var b := a - ppb;
        var n := Square(ppb);
        if b < n then [13, Quot(b, ppb), Rem(b, ppb)]
        else
          var c: nat := b - n;
          [14, Quot(c, n), Quot(Rem(c, n), ppb), Rem(Rem(c, n), ppb)]
  }

  lemma MulMonotone(x: nat, y: nat, a: nat)
    requires x <= y
    ensures a * x <= a * y
  {}

  lemma DivBelow(x: nat, a: nat, b: nat)
    requires a > 0 && x < a * b
    ensures x / a < b
    ensures x == a * (x / a) + x % a
  {
    if x / a >= b { MulMonotone(b, x / a, a); }
  }

  lemma PathOfIsLeaf(ppb: nat, k: nat)
    requires 0 < ppb && k < Capacity(ppb)
    ensures ValidPath(ppb, PathOf(ppb, k)) && IsLeaf(PathOf(ppb, k))
  {
    var n := Square(ppb);
    if k >= 12 + ppb {
      var b := k - 12 - ppb;
      if b < n {
        DivBelow(b, ppb, ppb);
      } else {
        var c := b - n;
        DivBelow(c, n, ppb);
        DivBelow(c % n, ppb, ppb);
      }
    }
  }

  /** Different block indices name different leaves. */
  lemma PathOfInjective(ppb: nat, j: nat, k: nat)
    requires 0 < ppb && j < Capacity(ppb) && k < Capacity(ppb) && PathOf(ppb, j) == PathOf(ppb, k)
    ensures j == k
  {
    var n := Square(ppb);
    if k >= 12 + ppb {
      var p := PathOf(ppb, k);
      var b, a := k - 12 - ppb, j - 12 - ppb;
      if b < n {
        assert p[0] == 13 && a < n;
        DivBelow(b, ppb, ppb);
        DivBelow(a, ppb, ppb);
      } else {
        assert p[0] == 14 && a >= n;
        DivBelow(b - n, n, ppb);
        DivBelow(a - n, n, ppb);
        DivBelow((b - n) % n, ppb, ppb);
        DivBelow((a - n) % n, ppb, ppb);
      }
    }
  }

  /** The path of an index, range by range, as the block-map code computes it. */
  lemma PathRanges(ppb: nat, k: nat)
    requires ppb > 0
    ensures k < 12 ==> k < Capacity(ppb) && PathOf(ppb, k) == [k]
    ensures 12 <= k < 12 + ppb ==> k < Capacity(ppb) && PathOf(ppb, k) == [12, k - 12]
    ensures var a := k - 12 - ppb;
            0 <= a < Square(ppb) ==>
              k < Capacity(ppb) && Quot(a, ppb) < ppb && PathOf(ppb, k) == [13, Quot(a, ppb), Rem(a, ppb)]
    ensures var n, a := Square(ppb), k - 12 - ppb - Square(ppb);
            0 <= a < n * ppb ==>
              k < Capacity(ppb) && Quot(a, n) < ppb && Quot(Rem(a, n), ppb) < ppb &&
              PathOf(ppb, k) == [14, Quot(a, n), Quot(Rem(a, n), ppb), Rem(Rem(a, n), ppb)]
    ensures k - 12 - ppb - Square(ppb) >= Square(ppb) * ppb ==> k >= Capacity(ppb)
  {
    var a, n := k - 12 - ppb, Square(ppb);
    if 0 <= a < n { DivBelow(a, ppb, ppb); }
    if 0 <= a - n < n * ppb {
      DivBelow(a - n, n, ppb);
      DivBelow((a - n) % n, ppb, ppb);
    }
  }

  /** `get_inode_block`, as a function: block `k` of the file, or 0. */
  function BlockAt(img: seq<Block>, ppb: nat, inode: Inode, k: nat): nat
    requires ppb > 0
  {
    if k < Capacity(ppb) then Node(img, inode, PathOf(ppb, k)) else 0
  }

  // ---------------------------------------------------------------- what writes leave alone

  /** No index block of inode `ino` differs. */
  ghost predicate SameIndex(img: seq<Block>, img': seq<Block>, roles: map<nat, Role>, ino: nat) {
    |img'| == |img| &&
    forall b :: b in roles && b < |img| && IsIndex(roles[b], ino) ==> img'[b] == img[b]
  }

  predicate IsIndex(r: Role, ino: nat) {
    r.Tree? && r.ino == ino && r.path != [] && !IsLeaf(r.path)
  }

  lemma {:induction false} NodeSame(img: seq<Block>, img': seq<Block>, ppb: nat, inode: Inode, ino: nat,
                                    roles: map<nat, Role>, p: Path)
    requires TreeOk(img, ppb, inode, ino, roles) && SameIndex(img, img', roles, ino) && ValidPath(ppb, p)
    ensures Node(img', inode, p) == Node(img, inode, p)
    decreases |p|
  {
    if |p| > 1 {
      var q := p[..|p| - 1];
      NodeSame(img, img', ppb, inode, ino, roles, q);
      assert NodeOk(img, inode, ino, roles, q);
    }
  }

  lemma TreeSame(img: seq<Block>, img': seq<Block>, ppb: nat, inode: Inode, ino: nat, roles: map<nat, Role>,
                 roles': map<nat, Role>)
    requires TreeOk(img, ppb, inode, ino, roles) && SameIndex(img, img', roles, ino)
    requires forall b :: b in roles && roles[b].Tree? && roles[b].ino == ino ==> b in roles' && roles'[b] == roles[b]
    ensures TreeOk(img', ppb, inode, ino, roles')
    ensures forall p :: ValidPath(ppb, p) ==> Node(img', inode, p) == Node(img, inode, p)
  {
    forall p: Path | ValidPath(ppb, p)
      ensures NodeOk(img', inode, ino, roles', p) && Node(img', inode, p) == Node(img, inode, p)
    {
      NodeSame(img, img', ppb, inode, ino, roles, p);
      assert NodeOk(img, inode, ino, roles, p);
    }
  }

  // ---------------------------------------------------------------- linking a new node

  ghost predicate ZeroBlock(b: Block) {
    forall i :: 0 <= i < |b| ==> b[i] == 0
  }

  lemma WithPtrPtr(b: Block, i: nat, v: nat, j: nat)
    requires 4 * i + 4 <= |b| && v < TWO_32
    ensures Ptr(WithPtr(b, i, v), j) == if j == i then v else Ptr(b, j)
  {
    PutGet32(b, 4 * i, v);
    PatchKeepsWords(b, 4 * i, LittleEndian(v, 4), 4 * j);
  }

  lemma WithSlotPtr(inode: Inode, r: nat, v: nat, j: nat)
    requires r < 15 && j < 15 && v < TWO_32
    ensures SlotPtr(WithSlot(inode, r, v), j) == if j == r then v else SlotPtr(inode, j)
  {
    PutGet32(inode, 40 + 4 * r, v);
    PatchKeepsWords(inode, 40 + 4 * r, LittleEndian(v, 4), 40 + 4 * j);
  }

  lemma ZeroBlockPtr(b: Block, j: nat)
    requires ZeroBlock(b)
    ensures Ptr(b, j) == 0
  {
    if 4 * j + 4 <= |b| { ZeroWord(b, 4 * j); }
  }

  /** What storing pointer `v` at path `s` does to the node at path `r`: `s` itself becomes `v`, what hangs
      below `s` is empty, and every other node stays. */
  function AfterStore(s: Path, v: nat, r: Path, before: nat): nat {
    if r == s then v else if s <= r then 0 else before
  }

  ghost predicate CanHang(img: seq<Block>, s: Path, v: nat)
    requires s != []
  {
    v < TWO_32 && (v == 0 || IsLeaf(s) || (v < |img| && ZeroBlock(img[v])))
  }

  /** Storing a pointer in the index block at path `p`. */
  lemma {:induction false} StoreInBlock(img: seq<Block>, ppb: nat, inode: Inode, ino: nat, roles: map<nat, Role>,
                                        p: Path, i: nat, v: nat, r: Path)
    requires BlocksOf(img, ppb) && TreeOk(img, ppb, inode, ino, roles)
    requires ValidPath(ppb, p) && !IsLeaf(p) && i < ppb && ValidPath(ppb, r)
    requires var q := Node(img, inode, p); q != 0 && q != v
    requires CanHang(img, p + [i], v)
    ensures var q := Node(img, inode, p);
            q < |img| &&
            Node(img[q := WithPtr(img[q], i, v)], inode, r) == AfterStore(p + [i], v, r, Node(img, inode, r))
    decreases |r|
  {
    hide TreeOk, GetU32, WithPtr, Ptr, ZeroBlock;
    NodeHasRole(img, ppb, inode, ino, roles, p);
    if |r| > 1 {
      var r0, last := r[..|r| - 1], r[|r| - 1];
      assert r == r0 + [last];
      StoreInBlock(img, ppb, inode, ino, roles, p, i, v, r0);
      StoreBelow(img, ppb, inode, ino, roles, p, i, v, r0, last);
    }
  }

  lemma NodeSnoc(img: seq<Block>, inode: Inode, p: Path, i: nat)
    requires p != [] && p[0] < 15
    ensures var q := Node(img, inode, p);
            Node(img, inode, p + [i]) == if q == 0 || q >= |img| then 0 else Ptr(img[q], i)
  {
    assert (p + [i])[..|p|] == p;
  }

  /** One step down: if the store did to `r0` what it should, it does so to the children of `r0`. */
  lemma StoreBelow(img: seq<Block>, ppb: nat, inode: Inode, ino: nat, roles: map<nat, Role>,
                   p: Path, i: nat, v: nat, r0: Path, last: nat)
    requires BlocksOf(img, ppb) && TreeOk(img, ppb, inode, ino, roles)
    requires ValidPath(ppb, p) && i < ppb && ValidPath(ppb, r0) && CanHang(img, p + [i], v)
    requires p + [i] <= r0 + [last] && p + [i] != r0 + [last] ==> !IsLeaf(p + [i])
    requires var q := Node(img, inode, p);
             q != 0 && q != v && q < |img| && HasIndexRole(roles, q, ino, p) &&
             Node(img[q := WithPtr(img[q], i, v)], inode, r0) == AfterStore(p + [i], v, r0, Node(img, inode, r0))
    ensures var q := Node(img, inode, p);
            Node(img[q := WithPtr(img[q], i, v)], inode, r0 + [last]) ==
            AfterStore(p + [i], v, r0 + [last], Node(img, inode, r0 + [last]))
  {
    hide TreeOk, GetU32, WithPtr, Ptr, Node, ZeroBlock, BlocksOf, IsLeaf, Levels;
    var q, s, r, x := Node(img, inode, p), p + [i], r0 + [last], Node(img, inode, r0);
    BlockFits(img, ppb, q, i);
    NodeSnoc(img, inode, r0, last);
    NodeSnoc(img[q := WithPtr(img[q], i, v)], inode, r0, last);
    PrefixSnoc(s, r0, last);
    SnocInjective(p, i, r0, last);
    if s <= r0 {
      if r0 == s && v != 0 { ZeroBlockPtr(img[v], last); }
    } else if x != 0 {
      NodeHasRole(img, ppb, inode, ino, roles, r0);
      if x == q { WithPtrPtr(img[q], i, v, last); }
    } else {
      assert r0 != p;
    }
  }

  lemma SnocInjective(p: Path, i: nat, r: Path, j: nat)
    ensures p + [i] == r + [j] <==> p == r && i == j
  {
    assert (p + [i])[..|p|] == p && (r + [j])[..|r|] == r;
    assert (p + [i])[|p|] == i && (r + [j])[|r|] == j;
  }

  lemma PrefixSnoc(s: Path, r: Path, last: nat)
    ensures s <= r + [last] <==> s <= r || s == r + [last]
    ensures s <= r ==> s != r + [last]
  {
    if s <= r + [last] && |s| == |r| + 1 { assert s == r + [last]; }
    if s <= r + [last] && |s| <= |r| { assert forall j :: 0 <= j < |s| ==> s[j] == (r + [last])[j] == r[j]; }
  }

  lemma BlockFits(img: seq<Block>, ppb: nat, q: nat, i: nat)
    requires BlocksOf(img, ppb) && q < |img| && i < ppb
    ensures 4 * i + 4 <= |img[q]|
  {}

  lemma StoreInBlockAll(img: seq<Block>, ppb: nat, inode: Inode, ino: nat, roles: map<nat, Role>, p: Path, i: nat,
      v: nat)
    requires BlocksOf(img, ppb) && TreeOk(img, ppb, inode, ino, roles)
    requires ValidPath(ppb, p) && !IsLeaf(p) && i < ppb
    requires var q := Node(img, inode, p); q != 0 && q != v
    requires CanHang(img, p + [i], v)
    ensures var q := Node(img, inode, p);
            q < |img| && HasIndexRole(roles, q, ino, p) &&
            forall r: Path :: ValidPath(ppb, r) ==>
              Node(img[q := WithPtr(img[q], i, v)], inode, r) == AfterStore(p + [i], v, r, Node(img, inode, r))
  {
    hide TreeOk, CanHang, AfterStore, WithPtr;
    NodeHasRole(img, ppb, inode, ino, roles, p);
    forall r: Path | ValidPath(ppb, r)
      ensures Node(img[Node(img, inode, p) := WithPtr(img[Node(img, inode, p)], i, v)], inode, r) ==
              AfterStore(p + [i], v, r, Node(img, inode, r))
    {
      StoreInBlock(img, ppb, inode, ino, roles, p, i, v, r);
    }
  }

  ghost predicate HasIndexRole(roles: map<nat, Role>, q: nat, ino: nat, p: Path) {
    q in roles && roles[q] == Tree(ino, p)
  }

  lemma NodeHasRole(img: seq<Block>, ppb: nat, inode: Inode, ino: nat, roles: map<nat, Role>, p: Path)
    requires TreeOk(img, ppb, inode, ino, roles) && ValidPath(ppb, p) && Node(img, inode, p) != 0
    ensures Node(img, inode, p) < |img| && HasIndexRole(roles, Node(img, inode, p), ino, p)
  {
    assert NodeOk(img, inode, ino, roles, p);
  }

  /** Storing a pointer in the inode itself. */
  lemma {:induction false} StoreInSlot(img: seq<Block>, ppb: nat, inode: Inode, x: nat, v: nat, r: Path)
    requires x < 15 && ValidPath(ppb, r) && CanHang(img, [x], v)
    ensures Node(img, WithSlot(inode, x, v), r) == AfterStore([x], v, r, Node(img, inode, r))
    decreases |r|
  {
    WithSlotPtr(inode, x, v, r[0]);
    if |r| > 1 {
      var r0, last := r[..|r| - 1], r[|r| - 1];
      StoreInSlot(img, ppb, inode, x, v, r0);
      if r0 == [x] && v != 0 { ZeroBlockPtr(img[v], last); }
    }
  }

  /** The tree after a store of a block that had no role: it gains exactly that node. */
  lemma TreeAfterStore(img: seq<Block>, img': seq<Block>, ppb: nat, inode: Inode, inode': Inode, ino: nat,
                       roles: map<nat, Role>, s: Path, v: nat)
    requires TreeOk(img, ppb, inode, ino, roles) && |img'| == |img| && s != [] && v < |img|
    requires forall r: Path :: ValidPath(ppb, r) ==> Node(img', inode', r) == AfterStore(s, v, r, Node(img, inode, r))
    requires v != 0 ==> v !in roles
    ensures TreeOk(img', ppb, inode', ino, if v == 0 then roles else roles[v := Tree(ino, s)])
  {
    var roles' := if v == 0 then roles else roles[v := Tree(ino, s)];
    forall r: Path | ValidPath(ppb, r) ensures NodeOk(img', inode', ino, roles', r) {
      assert NodeOk(img, inode, ino, roles, r);
    }
  }
}
