/** What a volume stores: for every live inode, a file's bytes or a directory's map from names to inodes;
    and which changes of the disk leave an inode's part of that alone. */
module Ext2State {
  import opened Bytes
  import opened Ext2Tree
  import opened Ext2Meta
  import opened Ext2Steps
  import opened Ext2Frames
  import opened Ext2Grow
  import opened Ext2Records
  import opened Ext2Names

  datatype Obj = File(data: seq<byte>) | Dir(names: map<Name, nat>)

  const S_IFDIR: nat := 4
  const ROOT_INO: nat := 2

  /** The type bits of `i_mode`. */
  function FileType(inode: Inode): nat { GetU16(inode, 0) / 0x1000 }
  function Size(inode: Inode): nat { GetU32(inode, 4) }
  predicate IsDir(inode: Inode) { FileType(inode) == S_IFDIR }

  /** The number of blocks that `size` bytes take. */
  function NumBlocks(size: nat, bs: nat): nat
    requires bs > 0
  {
    (size + bs - 1) / bs
  }

  /** Block `k` of a file; zeros where the map has a hole. */
  ghost function Chunk(img: seq<Block>, geo: Geo, inode: Inode, k: nat): (c: Block)
    requires GeoOk(geo) && WfImage(img, geo)
    ensures |c| == geo.blockSize
  {
    var b := BlockAt(img, PtrsPerBlock(geo), inode, k);
    if b == 0 || b >= |img| then Zeros(geo.blockSize) else img[b]
  }

  /** The first `n` blocks of a file. */
  ghost function Whole(img: seq<Block>, geo: Geo, inode: Inode, n: nat): (s: seq<byte>)
    requires GeoOk(geo) && WfImage(img, geo)
    ensures |s| == n * geo.blockSize
  {
    if n == 0 then []
    else
      OneMore(n - 1, geo.blockSize);
      Whole(img, geo, inode, n - 1) + Chunk(img, geo, inode, n - 1)
  }

  /** The bytes of a file. */
  ghost function Content(img: seq<Block>, geo: Geo, inode: Inode): (s: seq<byte>)
    requires GeoOk(geo) && WfImage(img, geo)
    ensures |s| == Size(inode)
  {
    CeilCovers(Size(inode), geo.blockSize);
    Whole(img, geo, inode, NumBlocks(Size(inode), geo.blockSize))[..Size(inode)]
  }

  lemma CeilCovers(size: nat, bs: nat)
    requires bs > 0
    ensures size <= NumBlocks(size, bs) * bs < size + bs
  {
    DivBounds(size + bs - 1, bs);
  }

  lemma CeilUnique(size: nat, bs: nat, n: nat)
    requires bs > 0 && size <= n * bs < size + bs
    ensures NumBlocks(size, bs) == n
  {
    DivModUnique(size + bs - 1, n, size + bs - 1 - n * bs, bs);
  }

  /** The records of the first `n` blocks of a directory. */
  ghost function DirRecs(img: seq<Block>, geo: Geo, inode: Inode, n: nat): seq<Rec>
    requires GeoOk(geo) && WfImage(img, geo)
  {
    if n == 0 then [] else DirRecs(img, geo, inode, n - 1) + Recs(Chunk(img, geo, inode, n - 1), 0)
  }

  ghost function AllRecs(img: seq<Block>, geo: Geo, inode: Inode): seq<Rec>
    requires GeoOk(geo) && WfImage(img, geo)
  {
    DirRecs(img, geo, inode, NumBlocks(Size(inode), geo.blockSize))
  }

  /** A directory: whole blocks, each spelled by records, no name twice, with "." and a parent. */
  ghost predicate DirOk(img: seq<Block>, geo: Geo, inode: Inode)
    requires GeoOk(geo) && WfImage(img, geo)
  {
    var n := NumBlocks(Size(inode), geo.blockSize);
    IsDir(inode) && 0 < n <= Capacity(PtrsPerBlock(geo)) && Size(inode) == n * geo.blockSize &&
    (forall k: nat :: k < n ==> DirChunk(img, geo, inode, k)) &&
    Unique(AllRecs(img, geo, inode)) && DOT_NAME in Names(AllRecs(img, geo, inode)) &&
    HasParent(Recs(Chunk(img, geo, inode, 0), 0))
  }

  ghost predicate DirChunk(img: seq<Block>, geo: Geo, inode: Inode, k: nat)
    requires GeoOk(geo) && WfImage(img, geo)
  {
    BlockAt(img, PtrsPerBlock(geo), inode, k) != 0 && DirBlock(Chunk(img, geo, inode, k))
  }

  /** What inode `ino` stores. */
  ghost function ObjectOf(img: seq<Block>, geo: Geo, inode: Inode): Obj
    requires GeoOk(geo) && WfImage(img, geo)
  {
    if IsDir(inode) then Dir(Names(AllRecs(img, geo, inode))) else File(Content(img, geo, inode))
  }

  // ---------------------------------------------------------------- live inodes

  /** Inode `j` is taken, its blocks form a tree of its own, and a directory is well formed. */
  ghost predicate InodeOk(img: seq<Block>, geo: Geo, lay: seq<GroupLay>, roles: map<nat, Role>, j: nat)
    requires Laid(img, geo, lay)
  {
    IsInode(geo, j) && UsedInode(img, geo, lay, j) &&
    var inode := Slot(img, geo, lay, j);
    TreeOk(img, PtrsPerBlock(geo), inode, j, roles) && (IsDir(inode) ==> DirOk(img, geo, inode))
  }

  /** The inodes in use that the tree of names consists of. */
  ghost predicate LiveOk(img: seq<Block>, geo: Geo, lay: seq<GroupLay>, roles: map<nat, Role>, live: set<nat>)
    requires Laid(img, geo, lay)
  {
    forall j :: j in live ==> InodeOk(img, geo, lay, roles, j)
  }

  ghost function TreeOf(img: seq<Block>, geo: Geo, lay: seq<GroupLay>, live: set<nat>): (t: map<nat, Obj>)
    requires Laid(img, geo, lay) && forall j :: j in live ==> IsInode(geo, j)
    ensures t.Keys == live
  {
    map j | j in live :: ObjectOf(img, geo, Slot(img, geo, lay, j))
  }

  // ---------------------------------------------------------------- what stays

  /** The blocks of inode `j` keep their roles and contents. */
  ghost predicate KeepsBlocks(img: seq<Block>, roles: map<nat, Role>, img': seq<Block>, roles': map<nat, Role>,
      j: nat) {
    |img'| == |img| &&
    forall x :: x in roles && roles[x].Tree? && roles[x].ino == j ==>
      x in roles' && roles'[x] == roles[x] && (x < |img| ==> img'[x] == img[x])
  }

  ghost predicate KeepsFile(geo: Geo, lay: seq<GroupLay>, img: seq<Block>, roles: map<nat, Role>,
                            img': seq<Block>, roles': map<nat, Role>, j: nat)
    requires Laid(img, geo, lay) && Laid(img', geo, lay) && IsInode(geo, j)
  {
    Slot(img', geo, lay, j) == Slot(img, geo, lay, j) && KeepsBlocks(img, roles, img', roles', j) &&
    (UsedInode(img, geo, lay, j) ==> UsedInode(img', geo, lay, j))
  }

  /** Every inode but `ino` is left alone. */
  ghost predicate KeepsOthers(geo: Geo, lay: seq<GroupLay>, img: seq<Block>, roles: map<nat, Role>,
                              img': seq<Block>, roles': map<nat, Role>, ino: nat)
    requires Laid(img, geo, lay) && Laid(img', geo, lay)
  {
    forall j: nat :: IsInode(geo, j) && j != ino ==> KeepsFile(geo, lay, img, roles, img', roles', j)
  }

  lemma NodesKeptBlocks(img: seq<Block>, img': seq<Block>, geo: Geo, roles: map<nat, Role>, roles': map<nat, Role>,
                        inode: Inode, j: nat)
    requires GeoOk(geo) && WfImage(img, geo) && WfImage(img', geo)
    requires TreeOk(img, PtrsPerBlock(geo), inode, j, roles) && KeepsBlocks(img, roles, img', roles', j)
    ensures TreeOk(img', PtrsPerBlock(geo), inode, j, roles')
    ensures forall k: nat :: BlockAt(img', PtrsPerBlock(geo), inode, k) == BlockAt(img, PtrsPerBlock(geo), inode, k)
    ensures forall k: nat :: Chunk(img', geo, inode, k) == Chunk(img, geo, inode, k)
  {
    hide Sized, TreeOk, Node, PathOf, Capacity, IsLeaf;
    var ppb := PtrsPerBlock(geo);
    TreeSame(img, img', ppb, inode, j, roles, roles');
    forall k: nat
      ensures BlockAt(img', ppb, inode, k) == BlockAt(img, ppb, inode, k)
      ensures Chunk(img', geo, inode, k) == Chunk(img, geo, inode, k)
    {
      if k < Capacity(ppb) {
        PathOfIsLeaf(ppb, k);
        if Node(img, inode, PathOf(ppb, k)) != 0 { NodeHasRole(img, ppb, inode, j, roles, PathOf(ppb, k)); }
      }
    }
  }

  /** The same chunks make the same file, and the same directory. */
  lemma {:induction false} SameChunks(img: seq<Block>, inode: Inode, img': seq<Block>, inode': Inode, geo: Geo, n: nat)
    requires GeoOk(geo) && WfImage(img, geo) && WfImage(img', geo)
    requires forall k: nat :: k < n ==> Chunk(img', geo, inode', k) == Chunk(img, geo, inode, k)
    ensures Whole(img', geo, inode', n) == Whole(img, geo, inode, n)
    ensures DirRecs(img', geo, inode', n) == DirRecs(img, geo, inode, n)
  {
    hide Sized, Chunk;
    if n > 0 { SameChunks(img, inode, img', inode', geo, n - 1); }
  }

  /** An inode whose blocks are left alone is as good as before and stores the same. */
  lemma ObjectKept(img: seq<Block>, img': seq<Block>, geo: Geo, lay: seq<GroupLay>, roles: map<nat, Role>,
                   roles': map<nat, Role>, j: nat)
    requires Laid(img, geo, lay) && Laid(img', geo, lay) && InodeOk(img, geo, lay, roles, j)
    requires KeepsFile(geo, lay, img, roles, img', roles', j)
    ensures InodeOk(img', geo, lay, roles', j)
    ensures var inode := Slot(img, geo, lay, j); ObjectOf(img', geo, inode) == ObjectOf(img, geo, inode)
  {
    hide Sized, TreeOk, Chunk, UsedInode, Slot, BlockAt, Recs, InVolume, Names, Unique;
    var inode := Slot(img, geo, lay, j);
    var n := NumBlocks(Size(inode), geo.blockSize);
    NodesKeptBlocks(img, img', geo, roles, roles', inode, j);
    SameChunks(img, inode, img', inode, geo, n);
    if IsDir(inode) {
      forall k: nat | k < n ensures DirChunk(img', geo, inode, k) { assert DirChunk(img, geo, inode, k); }
    }
  }

  /** Inode `ino` reads the same in both images. */
  ghost predicate SameSlot(img': seq<Block>, geo: Geo, lay: seq<GroupLay>, img: seq<Block>, ino: nat)
    requires Laid(img, geo, lay) && Laid(img', geo, lay)
  {
    IsInode(geo, ino) ==> Slot(img', geo, lay, ino) == Slot(img, geo, lay, ino)
  }

  /** What a change leaves of the tree: everything but inode `e`. */
  lemma LivesKept(img: seq<Block>, img': seq<Block>, geo: Geo, lay: seq<GroupLay>, roles: map<nat, Role>,
                  roles': map<nat, Role>, live: set<nat>, e: nat)
    requires Laid(img, geo, lay) && Laid(img', geo, lay) && LiveOk(img, geo, lay, roles, live)
    requires KeepsOthers(geo, lay, img, roles, img', roles', e)
    ensures forall j :: j in live ==> IsInode(geo, j)
    ensures forall j :: j in live && j != e ==>
              InodeOk(img', geo, lay, roles', j) && TreeOf(img', geo, lay, live)[j] == TreeOf(img, geo, lay, live)[j]
  {
    hide Laid, InodeOk, KeepsFile, ObjectOf, Slot;
    forall j | j in live ensures IsInode(geo, j) { InodeIs(img, geo, lay, roles, j); }
    forall j | j in live && j != e
      ensures InodeOk(img', geo, lay, roles', j) && TreeOf(img', geo, lay, live)[j] == TreeOf(img, geo, lay, live)[j]
    {
      assert KeepsFile(geo, lay, img, roles, img', roles', j);
      ObjectKept(img, img', geo, lay, roles, roles', j);
      SlotKept(img, img', geo, lay, roles, roles', j);
    }
  }

  /** When the inode worked on is not live, nothing of the tree changes. */
  lemma AllLivesKept(img: seq<Block>, img': seq<Block>, geo: Geo, lay: seq<GroupLay>, roles: map<nat, Role>,
                     roles': map<nat, Role>, live: set<nat>, e: nat)
    requires Laid(img, geo, lay) && Laid(img', geo, lay) && LiveOk(img, geo, lay, roles, live) && e !in live
    requires KeepsOthers(geo, lay, img, roles, img', roles', e)
    ensures forall j :: j in live ==> IsInode(geo, j)
    ensures LiveOk(img', geo, lay, roles', live) && TreeOf(img', geo, lay, live) == TreeOf(img, geo, lay, live)
  {
    hide Laid, InodeOk, KeepsFile, TreeOf;
    LivesKept(img, img', geo, lay, roles, roles', live, e);
  }

  lemma InodeIs(img: seq<Block>, geo: Geo, lay: seq<GroupLay>, roles: map<nat, Role>, j: nat)
    requires Laid(img, geo, lay) && InodeOk(img, geo, lay, roles, j)
    ensures IsInode(geo, j)
  {
    hide Laid, TreeOk, DirOk;
  }

  lemma SlotKept(img: seq<Block>, img': seq<Block>, geo: Geo, lay: seq<GroupLay>, roles: map<nat, Role>,
      roles': map<nat, Role>, j: nat)
    requires Laid(img, geo, lay) && Laid(img', geo, lay) && IsInode(geo, j) &&
      KeepsFile(geo, lay, img, roles, img', roles', j)
    ensures Slot(img', geo, lay, j) == Slot(img, geo, lay, j)
  {
    hide Laid, Slot, KeepsBlocks, UsedInode;
  }

  /** A step that keeps every taken block outside counters and the index blocks of `ino` leaves the other
      inodes alone. */
  lemma StepKeepsOthers(geo: Geo, lay: seq<GroupLay>, ino: nat, sb: seq<byte>, a: View, b: View)
    requires MetaOk(a.img, sb, geo, lay, a.roles) && Laid(b.img, geo, lay) && BlocksKept(geo, lay, ino, a, b)
    requires forall x :: x in a.roles ==> x in b.roles && b.roles[x] == a.roles[x]
    ensures KeepsOthers(geo, lay, a.img, a.roles, b.img, b.roles, ino) && SameSlot(b.img, geo, lay, a.img, ino)
  {
    hide Sized, Used, UsedInode, GroupOk, SuperOk, ReservedOk, InVolume;
    forall j: nat | IsInode(geo, j)
      ensures Slot(b.img, geo, lay, j) == Slot(a.img, geo, lay, j)
      ensures j != ino ==> KeepsFile(geo, lay, a.img, a.roles, b.img, b.roles, j)
    {
      TableRole(geo, lay, a.roles, j);
      InodePlace(geo, lay, j);
      RoleSettled(geo, lay, ino, sb, a, TableBlock(geo, lay, j));
      forall x | x in a.roles && a.roles[x].Tree? && a.roles[x].ino == j && j != ino
        ensures x < |a.img| ==> b.img[x] == a.img[x]
      {
        RoleSettled(geo, lay, ino, sb, a, x);
      }
    }
  }

  lemma RoleSettled(geo: Geo, lay: seq<GroupLay>, ino: nat, sb: seq<byte>, a: View, x: nat)
    requires MetaOk(a.img, sb, geo, lay, a.roles) && x in a.roles && !IsCounter(a.roles[x]) && !IsIndex(a.roles[x], ino)
    ensures Settled(geo, lay, ino, a, x)
  {
    hide Used, GroupOk, SuperOk, ReservedOk, InVolume;
    RoleInVolume(geo, x);
  }

  lemma RoleInVolume(geo: Geo, x: nat)
    requires GeoOk(geo) && geo.firstDataBlock <= x < geo.totalBlocks
    ensures IsBlock(geo, x)
  {}

  /** Apart from blocks of inode `ino`, blocks that were nobody's, and counters, nothing changed; and no inode
      was taken or given back. */
  ghost predicate OnlyFile(geo: Geo, lay: seq<GroupLay>, img: seq<Block>, roles: map<nat, Role>,
                           img': seq<Block>, roles': map<nat, Role>, ino: nat)
  {
    Laid(img, geo, lay) && Laid(img', geo, lay) && KeepsOthers(geo, lay, img, roles, img', roles', ino) &&
    forall j: nat :: IsInode(geo, j) ==> (UsedInode(img', geo, lay, j) <==> UsedInode(img, geo, lay, j))
  }

  lemma OnlyFileReflexive(geo: Geo, lay: seq<GroupLay>, img: seq<Block>, roles: map<nat, Role>, ino: nat)
    requires Laid(img, geo, lay)
    ensures OnlyFile(geo, lay, img, roles, img, roles, ino)
  {
    hide Laid, Slot, UsedInode;
  }

  lemma OnlyFileTransitive(geo: Geo, lay: seq<GroupLay>, ino: nat, img: seq<Block>, roles: map<nat, Role>,
                           img1: seq<Block>, roles1: map<nat, Role>, img2: seq<Block>, roles2: map<nat, Role>)
    requires OnlyFile(geo, lay, img, roles, img1, roles1, ino) && OnlyFile(geo, lay, img1, roles1, img2, roles2, ino)
    ensures OnlyFile(geo, lay, img, roles, img2, roles2, ino)
  {
    hide Laid, Slot, UsedInode;
    forall j: nat | IsInode(geo, j) && j != ino ensures KeepsFile(geo, lay, img, roles, img2, roles2, j) {
      assert KeepsFile(geo, lay, img, roles, img1, roles1, j) && KeepsFile(geo, lay, img1, roles1, img2, roles2, j);
    }
  }

  // ---------------------------------------------------------------- the inode's own fields

  function WithSize(inode: Inode, v: nat): Inode { PutU32(inode, 4, v) }
  function Sectors(inode: Inode): nat { GetU32(inode, 28) }
  function WithSectors(inode: Inode, v: nat): Inode { PutU32(inode, 28, v) }

  /** A cleared inode with mode and link count set. */
  function NewInode(mode: nat, links: nat): Inode { PutU16(PutU16(seq(128, _ => 0), 0, mode), 26, links) }

  lemma NewInodeIs(mode: nat, links: nat)
    requires mode < TWO_16
    ensures FileType(NewInode(mode, links)) == mode / 0x1000
    ensures forall i :: 0 <= i < 15 ==> SlotPtr(NewInode(mode, links), i) == 0
  {
    hide GetU16, GetU32, Patch, LittleEndian;
    var z: seq<byte> := seq(128, _ => 0);
    var x := PutU16(z, 0, mode);
    PutGet16(z, 0, mode);
    PatchKeepsWords(x, 26, LittleEndian(links, 2), 0);
    forall i | 0 <= i < 15 ensures SlotPtr(NewInode(mode, links), i) == 0 {
      PatchKeepsWords(z, 0, LittleEndian(mode, 2), 40 + 4 * i);
      PatchKeepsWords(x, 26, LittleEndian(links, 2), 40 + 4 * i);
      ZeroWord(z, 40 + 4 * i);
    }
  }

  ghost predicate SamePointers(x: Inode, y: Inode) { y[40..100] == x[40..100] }

  lemma SizeAndSectors(inode: Inode, size: nat, sectors: nat)
    requires size < TWO_32
    ensures var x := WithSectors(WithSize(inode, size), sectors);
            Size(x) == size && FileType(x) == FileType(inode) && SamePointers(inode, x)
  {
    hide GetU16, GetU32, Patch, LittleEndian;
    var y := WithSize(inode, size);
    FieldWritten(inode, 4, size);
    FieldWritten(y, 28, sectors);
    PutGet32(inode, 4, size);
  }

  /** A field in front of the pointers is written: the pointers, and the fields elsewhere, stay. */
  lemma FieldWritten(inode: Inode, off: nat, v: nat)
    requires off == 4 || off == 28
    ensures var x := PutU32(inode, off, v);
            SamePointers(inode, x) && FileType(x) == FileType(inode) && (off == 28 ==> Size(x) == Size(inode))
  {
    hide GetU16, GetU32, Patch, LittleEndian;
    var s := LittleEndian(v, 4);
    PatchKeepsWords(inode, off, s, 0);
    PatchKeepsWords(inode, off, s, 4);
    PatchWindow(inode, off, s, 40, 60);
  }

  function WithLinks(inode: Inode, n: nat): Inode { PutU16(inode, 26, n) }
  function Links(inode: Inode): nat { GetU16(inode, 26) }

  lemma LinksWritten(inode: Inode, n: nat)
    ensures var x := WithLinks(inode, n);
            SamePointers(inode, x) && FileType(x) == FileType(inode) && Size(x) == Size(inode)
  {
    hide GetU16, GetU32, Patch, LittleEndian;
    var s := LittleEndian(n, 2);
    PatchKeepsWords(inode, 26, s, 0);
    PatchKeepsWords(inode, 26, s, 4);
    PatchWindow(inode, 26, s, 40, 60);
  }

  /** Growing the block map keeps size and format. */
  lemma OtherFields(x: Inode, y: Inode)
    requires SameOther(x, y)
    ensures Size(y) == Size(x) && FileType(y) == FileType(x)
  {
    assert x[0..2] == x[..40][0..2] && y[0..2] == y[..40][0..2];
    assert x[4..8] == x[..40][4..8] && y[4..8] == y[..40][4..8];
  }

  lemma WindowOfWindow(s: seq<byte>, a: nat, n: nat, o: nat, m: nat)
    requires a + n <= |s| && o + m <= n
    ensures s[a..a + n][o..o + m] == s[a + o..a + o + m]
  {
    var t, u := s[a..a + n][o..o + m], s[a + o..a + o + m];
    forall i | 0 <= i < m ensures t[i] == u[i] {
      assert t[i] == s[a..a + n][o + i] == s[a + (o + i)];
    }
  }

  lemma SameSlotPtr(x: Inode, y: Inode, r: nat)
    requires SamePointers(x, y) && r < 15
    ensures SlotPtr(y, r) == SlotPtr(x, r)
  {
    WindowOfWindow(x, 40, 60, 4 * r, 4);
    WindowOfWindow(y, 40, 60, 4 * r, 4);
  }

  lemma {:induction false} SameNodes(img: seq<Block>, x: Inode, y: Inode, p: Path)
    requires SamePointers(x, y) && p != [] && p[0] < 15
    ensures Node(img, y, p) == Node(img, x, p)
    decreases |p|
  {
    if |p| == 1 {
      SameSlotPtr(x, y, p[0]);
    } else {
      SameNodes(img, x, y, p[..|p| - 1]);
    }
  }

  /** The pointers decide the blocks. */
  lemma PointersDecide(img: seq<Block>, geo: Geo, x: Inode, y: Inode, ino: nat, roles: map<nat, Role>)
    requires GeoOk(geo) && WfImage(img, geo) && SamePointers(x, y)
    ensures TreeOk(img, PtrsPerBlock(geo), x, ino, roles) ==> TreeOk(img, PtrsPerBlock(geo), y, ino, roles)
    ensures forall k: nat :: BlockAt(img, PtrsPerBlock(geo), y, k) == BlockAt(img, PtrsPerBlock(geo), x, k)
    ensures forall k: nat :: Chunk(img, geo, y, k) == Chunk(img, geo, x, k)
  {
    hide Sized, Node, PathOf, Capacity, SamePointers;
    var ppb := PtrsPerBlock(geo);
    forall p: Path | ValidPath(ppb, p) ensures Node(img, y, p) == Node(img, x, p) { SameNodes(img, x, y, p); }
    forall k: nat
      ensures BlockAt(img, ppb, y, k) == BlockAt(img, ppb, x, k) && Chunk(img, geo, y, k) == Chunk(img, geo, x, k)
    {
      if k < Capacity(ppb) { PathOfIsLeaf(ppb, k); }
    }
    if TreeOk(img, ppb, x, ino, roles) {
      forall p: Path | ValidPath(ppb, p) ensures NodeOk(img, y, ino, roles, p) { assert NodeOk(img, x, ino, roles, p); }
    }
  }

  /** `write_inode` is work on that inode alone. */
  lemma InodeWritten(geo: Geo, lay: seq<GroupLay>, ino: nat, sb: seq<byte>, img: seq<Block>, roles: map<nat, Role>,
      inode: Inode)
    requires MetaOk(img, sb, geo, lay, roles) && IsInode(geo, ino)
    ensures var img' := WithInode(img, geo, lay, ino, inode);
            MetaOk(img', sb, geo, lay, roles) && OnlyFile(geo, lay, img, roles, img', roles, ino) &&
            Slot(img', geo, lay, ino) == inode && KeepsBlocks(img, roles, img', roles, ino)
  {
    hide Sized, Used, UsedInode, GroupOk, SuperOk, ReservedOk, UsedOk, InVolume, LayoutOk, Slot, Patch;
    var img' := WithInode(img, geo, lay, ino, inode);
    TableRole(geo, lay, roles, ino);
    InodePlace(geo, lay, ino);
    InodeIsNumbered(geo, ino);
    WithInodeSlots(img, geo, lay, roles, ino, inode, ino);
    MetaSame(img, img', sb, geo, lay, roles);
    forall j: nat | IsInode(geo, j) && j != ino ensures KeepsFile(geo, lay, img, roles, img', roles, j) {
      WithInodeSlots(img, geo, lay, roles, ino, inode, j);
    }
  }
}
