/** What one changed or added block does to a whole directory. */
module Ext2DirFacts {
  import opened Bytes
  import opened Ext2Tree
  import opened Ext2Meta
  import opened Ext2Frames
  import opened Ext2Records
  import opened Ext2Names
  import opened Ext2State

  /** The bytes a record needs: header and name, rounded up to four. */
  function Needed(nameLen: nat): (n: nat)
    ensures 8 + nameLen <= n < 12 + nameLen && n % 4 == 0
  {
    (8 + nameLen + 3) / 4 * 4
  }

  /** A record that can take a new name: free and long enough, or in use with enough slack behind it. */
  predicate Fits(r: Rec, nameLen: nat) {
    if r.ino == 0 then r.len >= Needed(nameLen) else r.len >= Needed(|r.name|) + Needed(nameLen)
  }

  /** The records that stand for `r` after it took the new name. */
  function Placed(r: Rec, ino: nat, name: Name, kind: nat): seq<Rec>
    requires Fits(r, |name|)
  {
    if r.ino == 0 then [Rec(ino, r.len, name, kind)]
    else [r.(len := Needed(|r.name|)), Rec(ino, r.len - Needed(|r.name|), name, kind)]
  }

  lemma PlacedIs(r: Rec, ino: nat, name: Name, kind: nat)
    requires Fits(r, |name|) && ino != 0 && name != DOTDOT_NAME && name !in Names([r])
    ensures var mid := Placed(r, ino, name, kind);
            Unique(mid) && Names(mid) == Names([r])[name := ino] &&
            (Parents(mid) == Parents([r]) || (Parents([r]) == [0] && Parents(mid) == []))
  {
    hide Names, Parents, Unique;
    if r.ino == 0 {
      ReuseIs(r, Rec(ino, r.len, name, kind));
    } else {
      SplitIs(r, Needed(|r.name|), Rec(ino, r.len - Needed(|r.name|), name, kind));
    }
  }

  /** The records after the entry at index `i` was removed: it becomes slack of the one before it, or free. */
  function Removed(recs: seq<Rec>, i: nat): seq<Rec>
    requires i < |recs|
  {
    if i > 0 then recs[..i - 1] + [recs[i - 1].(len := recs[i - 1].len + recs[i].len)] + recs[i + 1..]
    else [recs[0].(ino := 0)] + recs[1..]
  }

  // ---------------------------------------------------------------- the blocks of a directory

  /** The records of blocks `lo` to `n - 1`. */
  ghost function DirRange(img: seq<Block>, geo: Geo, inode: Inode, lo: nat, n: nat): seq<Rec>
    requires GeoOk(geo) && WfImage(img, geo)
    decreases n - lo
  {
    if lo >= n then [] else Recs(Chunk(img, geo, inode, lo), 0) + DirRange(img, geo, inode, lo + 1, n)
  }

  lemma {:induction false} DirRecsAt(img: seq<Block>, geo: Geo, inode: Inode, lo: nat, n: nat)
    requires GeoOk(geo) && WfImage(img, geo) && lo <= n
    ensures DirRecs(img, geo, inode, n) == DirRecs(img, geo, inode, lo) + DirRange(img, geo, inode, lo, n)
    decreases n - lo
  {
    hide Sized, Chunk, Recs;
    if lo < n {
      DirRecsAt(img, geo, inode, lo + 1, n);
    }
  }

  lemma {:induction false} DirRangeSame(img: seq<Block>, inode: Inode, img': seq<Block>, inode': Inode, geo: Geo,
      lo: nat, n: nat)
    requires GeoOk(geo) && WfImage(img, geo) && WfImage(img', geo)
    requires forall j: nat :: lo <= j ==> Chunk(img', geo, inode', j) == Chunk(img, geo, inode, j)
    ensures DirRange(img', geo, inode', lo, n) == DirRange(img, geo, inode, lo, n)
    decreases n - lo
  {
    hide Sized, Chunk, Recs;
    if lo < n { DirRangeSame(img, inode, img', inode', geo, lo + 1, n); }
  }

  /** Block `k` changed, the others did not. */
  lemma OneBlockChanged(img: seq<Block>, inode: Inode, img': seq<Block>, inode': Inode, geo: Geo, k: nat, n: nat)
    requires GeoOk(geo) && WfImage(img, geo) && WfImage(img', geo) && k < n
    requires forall j: nat :: j != k ==> Chunk(img', geo, inode', j) == Chunk(img, geo, inode, j)
    ensures DirRecs(img, geo, inode, n) ==
            DirRecs(img, geo, inode, k) + Recs(Chunk(img, geo, inode, k), 0) + DirRange(img, geo, inode, k + 1, n)
    ensures DirRecs(img', geo, inode', n) ==
            DirRecs(img, geo, inode, k) + Recs(Chunk(img', geo, inode', k), 0) + DirRange(img, geo, inode, k + 1, n)
  {
    hide Sized, Chunk, Recs, DirRecs, DirRange;
    DirRecsSplit(img, geo, inode, k, n);
    DirRecsSplit(img', geo, inode', k, n);
    SameChunks(img, inode, img', inode', geo, k);
    DirRangeSame(img, inode, img', inode', geo, k + 1, n);
  }

  lemma DirRecsSplit(img: seq<Block>, geo: Geo, inode: Inode, k: nat, n: nat)
    requires GeoOk(geo) && WfImage(img, geo) && k < n
    ensures DirRecs(img, geo, inode, n) ==
            DirRecs(img, geo, inode, k) + Recs(Chunk(img, geo, inode, k), 0) + DirRange(img, geo, inode, k + 1, n)
  {
    hide Sized, Chunk, Recs;
    DirRecsAt(img, geo, inode, k, n);
    var x, y, z := DirRecs(img, geo, inode, k), Recs(Chunk(img, geo, inode, k), 0), DirRange(img, geo, inode, k + 1, n);
    assert x + (y + z) == x + y + z;
  }

  /** Rewriting a data block of a file is work on that file alone, and changes that chunk alone. */
  lemma BlockRewritten(geo: Geo, lay: seq<GroupLay>, ino: nat, sb: seq<byte>, img: seq<Block>, roles: map<nat, Role>,
                       inode: Inode, k: nat, c: Block)
    requires MetaOk(img, sb, geo, lay, roles) && TreeOk(img, PtrsPerBlock(geo), inode, ino, roles) &&
      |c| == geo.blockSize
    requires BlockAt(img, PtrsPerBlock(geo), inode, k) != 0
    ensures var blk := BlockAt(img, PtrsPerBlock(geo), inode, k);
            blk < |img| && blk in roles && roles[blk].Tree? && roles[blk].ino == ino &&
            var img' := img[blk := c];
            MetaOk(img', sb, geo, lay, roles) && TreeOk(img', PtrsPerBlock(geo), inode, ino, roles) &&
            OnlyFile(geo, lay, img, roles, img', roles, ino) && Chunk(img', geo, inode, k) == c &&
            SameSlot(img', geo, lay, img, ino) &&
            (forall j: nat :: j != k ==> Chunk(img', geo, inode, j) == Chunk(img, geo, inode, j)) &&
            (forall j: nat :: BlockAt(img', PtrsPerBlock(geo), inode, j) == BlockAt(img, PtrsPerBlock(geo), inode, j))
  {
    hide Sized, Used, UsedInode, GroupOk, SuperOk, ReservedOk, UsedOk, InVolume, LayoutOk, TreeOk, PathOf, Capacity,
      Node;
    var ppb, blk := PtrsPerBlock(geo), BlockAt(img, PtrsPerBlock(geo), inode, k);
    PathOfIsLeaf(ppb, k);
    NodeHasRole(img, ppb, inode, ino, roles, PathOf(ppb, k));
    var img' := img[blk := c];
    MetaSame(img, img', sb, geo, lay, roles);
    TreeSame(img, img', ppb, inode, ino, roles, roles);
    RewriteKeepsOthers(geo, lay, ino, sb, img, roles, blk, c);
    forall j: nat | j != k
      ensures Chunk(img', geo, inode, j) == Chunk(img, geo, inode, j)
    {
      if j < Capacity(ppb) {
        PathOfIsLeaf(ppb, j);
        if PathOf(ppb, j) == PathOf(ppb, k) { PathOfInjective(ppb, j, k); }
        if Node(img, inode, PathOf(ppb, j)) != 0 { NodeHasRole(img, ppb, inode, ino, roles, PathOf(ppb, j)); }
      }
    }
    forall j: nat ensures BlockAt(img', ppb, inode, j) == BlockAt(img, ppb, inode, j) {
      if j < Capacity(ppb) { PathOfIsLeaf(ppb, j); }
    }
  }

  lemma RewriteKeepsOthers(geo: Geo, lay: seq<GroupLay>, ino: nat, sb: seq<byte>, img: seq<Block>,
                           roles: map<nat, Role>, blk: nat, c: Block)
    requires MetaOk(img, sb, geo, lay, roles) && |c| == geo.blockSize && blk < |img|
    requires blk in roles && roles[blk].Tree? && roles[blk].ino == ino
    ensures Laid(img[blk := c], geo, lay) && OnlyFile(geo, lay, img, roles, img[blk := c], roles, ino)
    ensures SameSlot(img[blk := c], geo, lay, img, ino)
  {
    hide Sized, Used, UsedInode, GroupOk, SuperOk, ReservedOk, UsedOk, InVolume, LayoutOk;
    var img' := img[blk := c];
    MetaSame(img, img', sb, geo, lay, roles);
    forall j: nat | IsInode(geo, j)
      ensures Slot(img', geo, lay, j) == Slot(img, geo, lay, j)
      ensures j != ino ==> KeepsFile(geo, lay, img, roles, img', roles, j)
    {
      TableRole(geo, lay, roles, j);
      InodePlace(geo, lay, j);
    }
  }

  // ---------------------------------------------------------------- the directory as a map

  /** What the directory refers to as its parent. */
  ghost function ParentOf(img: seq<Block>, geo: Geo, inode: Inode): nat
    requires GeoOk(geo) && WfImage(img, geo) && HasParent(Recs(Chunk(img, geo, inode, 0), 0))
  {
    Parents(Recs(Chunk(img, geo, inode, 0), 0))[0]
  }

  lemma ParentIsNamed(img: seq<Block>, geo: Geo, inode: Inode)
    requires GeoOk(geo) && WfImage(img, geo) && DirOk(img, geo, inode)
    ensures DOTDOT_NAME in Names(AllRecs(img, geo, inode))
    ensures Names(AllRecs(img, geo, inode))[DOTDOT_NAME] == ParentOf(img, geo, inode)
  {
    hide Sized, Chunk, Recs, Unique, Names, Parents, Capacity, NumBlocks, DirRange, Size;
    var n := NumBlocks(Size(inode), geo.blockSize);
    DirRecsSplit(img, geo, inode, 0, n);
    var first, rest := Recs(Chunk(img, geo, inode, 0), 0), DirRange(img, geo, inode, 1, n);
    assert DirRecs(img, geo, inode, 0) + first + rest == first + rest;
    ParentsSplit(first, rest);
    ParentIsName(first + rest);
  }

  /** The directory is well formed, stands for `names`, and keeps its parent. */
  ghost predicate DirIs(img: seq<Block>, geo: Geo, inode: Inode, names: map<Name, nat>, parent: nat) {
    GeoOk(geo) && WfImage(img, geo) && DirOk(img, geo, inode) && Names(AllRecs(img, geo, inode)) == names &&
    ParentOf(img, geo, inode) == parent
  }

  /** The same blocks make the same directory. */
  lemma DirMoved(img: seq<Block>, img': seq<Block>, geo: Geo, inode: Inode, inode': Inode)
    requires GeoOk(geo) && WfImage(img, geo) && WfImage(img', geo) && DirOk(img, geo, inode)
    requires Size(inode') == Size(inode) && FileType(inode') == FileType(inode)
    requires forall j: nat :: Chunk(img', geo, inode', j) == Chunk(img, geo, inode, j)
    requires forall j: nat :: BlockAt(img', PtrsPerBlock(geo), inode', j) == BlockAt(img, PtrsPerBlock(geo), inode, j)
    ensures DirIs(img', geo, inode', Names(AllRecs(img, geo, inode)), ParentOf(img, geo, inode))
  {
    hide Sized, Chunk, Recs, Spells, Unique, Names, Parents, Capacity, NumBlocks, BlockAt, Size, FileType;
    var n := NumBlocks(Size(inode), geo.blockSize);
    SameChunks(img, inode, img', inode', geo, n);
    forall j: nat | j < n ensures DirChunk(img', geo, inode', j) { assert DirChunk(img, geo, inode, j); }
  }

  /** Only block `k` of the directory changed, and the inode's size and format did not. */
  ghost predicate BlockChanged(img: seq<Block>, inode: Inode, img': seq<Block>, inode': Inode, geo: Geo, k: nat)
    requires GeoOk(geo) && WfImage(img, geo) && WfImage(img', geo)
  {
    Size(inode') == Size(inode) && FileType(inode') == FileType(inode) && k < NumBlocks(Size(inode), geo.blockSize) &&
    (forall j: nat :: j != k ==> Chunk(img', geo, inode', j) == Chunk(img, geo, inode, j)) &&
    (forall j: nat :: BlockAt(img', PtrsPerBlock(geo), inode', j) == BlockAt(img, PtrsPerBlock(geo), inode, j))
  }

  /** In block `k` the records `mid` became `mid'`; if that is good for the map as a whole, the directory stays
      well formed. */
  lemma DirAfter(img: seq<Block>, inode: Inode, img': seq<Block>, inode': Inode, geo: Geo, k: nat,
                 pre: seq<Rec>, mid: seq<Rec>, mid': seq<Rec>, post: seq<Rec>)
    requires GeoOk(geo) && WfImage(img, geo) && WfImage(img', geo) && DirOk(img, geo, inode)
    requires BlockChanged(img, inode, img', inode', geo, k)
    requires Recs(Chunk(img, geo, inode, k), 0) == pre + mid + post &&
      Spells(Chunk(img', geo, inode', k), pre + mid' + post)
    requires Parents(mid') == Parents(mid) || (Parents(mid) == [0] && Parents(mid') == [])
    requires var x := DirRecs(img, geo, inode, k) + pre;
             var y := post + DirRange(img, geo, inode, k + 1, NumBlocks(Size(inode), geo.blockSize));
             Unique(x + mid' + y) && DOT_NAME in Names(x + mid' + y)
    ensures var x := DirRecs(img, geo, inode, k) + pre;
            var y := post + DirRange(img, geo, inode, k + 1, NumBlocks(Size(inode), geo.blockSize));
            AllRecs(img, geo, inode) == x + mid + y && AllRecs(img', geo, inode') == x + mid' + y
    ensures DirOk(img', geo, inode') && ParentOf(img', geo, inode') == ParentOf(img, geo, inode)
  {
    hide Sized, Chunk, Recs, Spells, Unique, Names, Parents, DirRecs, DirRange, Capacity, NumBlocks, BlockAt, Size,
      FileType;
    var n := NumBlocks(Size(inode), geo.blockSize);
    OneBlockChanged(img, inode, img', inode', geo, k, n);
    SpellsRecs(Chunk(img', geo, inode', k), pre + mid' + post);
    Regroup5(DirRecs(img, geo, inode, k), pre, mid, post, DirRange(img, geo, inode, k + 1, n));
    Regroup5(DirRecs(img, geo, inode, k), pre, mid', post, DirRange(img, geo, inode, k + 1, n));
    forall j: nat | j < n ensures DirChunk(img', geo, inode', j) { assert DirChunk(img, geo, inode, j); }
    if k == 0 { ParentKept(pre, mid, mid', post); }
  }

  lemma Regroup5(a: seq<Rec>, b: seq<Rec>, c: seq<Rec>, d: seq<Rec>, e: seq<Rec>)
    ensures a + (b + c + d) + e == (a + b) + c + (d + e)
  {}

  /** A record of block `k` took the new name: the map gains exactly it. */
  lemma NameAdded(img: seq<Block>, inode: Inode, img': seq<Block>, inode': Inode, geo: Geo, k: nat, i: nat,
                  ino: nat, name: Name, kind: nat)
    requires GeoOk(geo) && WfImage(img, geo) && WfImage(img', geo) && DirOk(img, geo, inode)
    requires BlockChanged(img, inode, img', inode', geo, k)
    requires var recs := Recs(Chunk(img, geo, inode, k), 0);
             i < |recs| && Fits(recs[i], |name|) &&
             Spells(Chunk(img', geo, inode', k), recs[..i] + Placed(recs[i], ino, name, kind) + recs[i + 1..])
    requires ino != 0 && name != DOTDOT_NAME && name !in Names(AllRecs(img, geo, inode))
    ensures DirIs(img', geo, inode', Names(AllRecs(img, geo, inode))[name := ino], ParentOf(img, geo, inode))
  {
    hide Sized, Chunk, Recs, Spells, Unique, Names, Parents, DirRecs, DirRange, Capacity, NumBlocks, BlockChanged,
      BlockAt, Size, FileType, Placed, Fits;
    var recs, n := Recs(Chunk(img, geo, inode, k), 0), NumBlocks(Size(inode), geo.blockSize);
    var pre, mid, mid', post := recs[..i], [recs[i]], Placed(recs[i], ino, name, kind), recs[i + 1..];
    assert recs == pre + mid + post;
    var x, y := DirRecs(img, geo, inode, k) + pre, post + DirRange(img, geo, inode, k + 1, n);
    KIsBlock(img, inode, img', inode', geo, k);
    AllRecsAt(img, geo, inode, k, n, pre, mid, post);
    MidName(x, mid, y, name);
    PlacedIs(recs[i], ino, name, kind);
    InsertName(x, mid, mid', y, name, ino);
    DirAfter(img, inode, img', inode', geo, k, pre, mid, mid', post);
  }

  lemma AllRecsAt(img: seq<Block>, geo: Geo, inode: Inode, k: nat, n: nat, pre: seq<Rec>, mid: seq<Rec>, post: seq<Rec>)
    requires GeoOk(geo) && WfImage(img, geo) && k < n && Recs(Chunk(img, geo, inode, k), 0) == pre + mid + post
    ensures DirRecs(img, geo, inode, n) ==
            (DirRecs(img, geo, inode, k) + pre) + mid + (post + DirRange(img, geo, inode, k + 1, n))
  {
    hide Sized, Chunk, Recs, DirRecs, DirRange;
    DirRecsSplit(img, geo, inode, k, n);
    Regroup5(DirRecs(img, geo, inode, k), pre, mid, post, DirRange(img, geo, inode, k + 1, n));
  }

  /** A name that no record holds is not held by a run of them. */
  lemma MidName(x: seq<Rec>, mid: seq<Rec>, y: seq<Rec>, name: Name)
    ensures name !in Names(x + mid + y) ==> name !in Names(mid)
    ensures Unique(x + mid + y) ==> Unique(mid)
  {
    hide Names, Unique;
    NamesSplit(x + mid, y);
    NamesSplit(x, mid);
    UniqueSplit(x + mid, y);
    UniqueSplit(x, mid);
  }

  /** The record of a name was taken out of block `k`: the map loses exactly that name. */
  lemma NameRemoved(img: seq<Block>, inode: Inode, img': seq<Block>, inode': Inode, geo: Geo, k: nat, i: nat,
      name: Name)
    requires GeoOk(geo) && WfImage(img, geo) && WfImage(img', geo) && DirOk(img, geo, inode)
    requires BlockChanged(img, inode, img', inode', geo, k)
    requires var recs := Recs(Chunk(img, geo, inode, k), 0);
             i < |recs| && Matches(recs[i], name) && Spells(Chunk(img', geo, inode', k), Removed(recs, i))
    requires name != DOTDOT_NAME && name != DOT_NAME
    ensures name in Names(AllRecs(img, geo, inode))
    ensures DirIs(img', geo, inode', Names(AllRecs(img, geo, inode)) - {name}, ParentOf(img, geo, inode))
  {
    hide Sized, Chunk, Recs, Spells, Unique, Names, Parents, DirRecs, DirRange, Capacity, NumBlocks, BlockChanged,
      BlockAt, Size, FileType;
    var recs, n := Recs(Chunk(img, geo, inode, k), 0), NumBlocks(Size(inode), geo.blockSize);
    KIsBlock(img, inode, img', inode', geo, k);
    DirRecsSplit(img, geo, inode, k, n);
    MidName(DirRecs(img, geo, inode, k), recs, DirRange(img, geo, inode, k + 1, n), name);
    var pre, mid, mid', post := RemovedIs(recs, i, name);
    var x, y := DirRecs(img, geo, inode, k) + pre, post + DirRange(img, geo, inode, k + 1, n);
    AllRecsAt(img, geo, inode, k, n, pre, mid, post);
    RemoveName(x, mid, mid', y, name);
    NamesOfMid(x, mid, y, name);
    DirAfter(img, inode, img', inode', geo, k, pre, mid, mid', post);
  }

  /** Removing a record concerns it and the one before it. */
  lemma RemovedIs(recs: seq<Rec>, i: nat, name: Name)
      returns (pre: seq<Rec>, mid: seq<Rec>, mid': seq<Rec>, post: seq<Rec>)
    requires i < |recs| && Matches(recs[i], name) && name != DOTDOT_NAME && Unique(recs)
    ensures recs == pre + mid + post && Removed(recs, i) == pre + mid' + post
    ensures name in Names(mid) && Unique(mid') && Names(mid') == Names(mid) - {name} && Parents(mid') == Parents(mid)
  {
    hide Unique, Names, Parents;
    if i > 0 {
      var p, r := recs[i - 1], recs[i];
      pre, mid, mid', post := recs[..i - 1], [p, r], [p.(len := p.len + r.len)], recs[i + 1..];
      assert recs == pre + mid + post;
      MidName(pre, mid, post, name);
      MergeIs(p, r, p.len + r.len);
    } else {
      pre, mid, mid', post := [], [recs[0]], [recs[0].(ino := 0)], recs[1..];
      FreeFirstIs(recs[0]);
    }
  }

  lemma KIsBlock(img: seq<Block>, inode: Inode, img': seq<Block>, inode': Inode, geo: Geo, k: nat)
    requires GeoOk(geo) && WfImage(img, geo) && WfImage(img', geo) && BlockChanged(img, inode, img', inode', geo, k)
    ensures k < NumBlocks(Size(inode), geo.blockSize)
  {
    hide Sized, Chunk, BlockAt;
  }

  lemma NamesOfMid(x: seq<Rec>, mid: seq<Rec>, y: seq<Rec>, name: Name)
    requires name in Names(mid)
    ensures name in Names(x + mid + y)
  {
    hide Names;
    NamesSplit(x + mid, y);
    NamesSplit(x, mid);
  }

  /** A new last block holding one record: the map gains its name. */
  lemma NameAppended(img: seq<Block>, inode: Inode, img': seq<Block>, inode': Inode, geo: Geo, n: nat, r: Rec)
    requires GeoOk(geo) && WfImage(img, geo) && WfImage(img', geo) && DirOk(img, geo, inode)
    requires n == NumBlocks(Size(inode), geo.blockSize) < Capacity(PtrsPerBlock(geo))
    requires Size(inode') == (n + 1) * geo.blockSize && FileType(inode') == FileType(inode)
    requires forall j: nat :: j < n ==> Chunk(img', geo, inode', j) == Chunk(img, geo, inode, j)
    requires forall j: nat :: j < n ==>
               BlockAt(img', PtrsPerBlock(geo), inode', j) == BlockAt(img, PtrsPerBlock(geo), inode, j)
    requires BlockAt(img', PtrsPerBlock(geo), inode', n) != 0 && Spells(Chunk(img', geo, inode', n), [r])
    requires r.ino != 0 && r.name != DOTDOT_NAME && r.name !in Names(AllRecs(img, geo, inode))
    ensures DirIs(img', geo, inode', Names(AllRecs(img, geo, inode))[r.name := r.ino], ParentOf(img, geo, inode))
  {
    hide Sized, Chunk, Recs, Spells, Unique, Names, Parents, Capacity, NumBlocks, BlockAt, Size, FileType;
    CeilUnique((n + 1) * geo.blockSize, geo.blockSize, n + 1);
    SpellsRecs(Chunk(img', geo, inode', n), [r]);
    SameChunks(img, inode, img', inode', geo, n);
    OneRec(r);
    UniqueSplit(DirRecs(img, geo, inode, n), [r]);
    NamesSplit(DirRecs(img, geo, inode, n), [r]);
    forall j: nat | j < n + 1 ensures DirChunk(img', geo, inode', j) {
      if j < n { assert DirChunk(img, geo, inode, j); }
    }
  }

  // ---------------------------------------------------------------- a new directory's block

  const FT_DIR: nat := 2

  /** The bytes of a record with its name, without padding behind it. */
  function RecBytes(ino: nat, len: nat, name: Name, kind: nat): (s: seq<byte>)
    requires |name| < 256 && kind < 256
    ensures |s| == 8 + |name|
  {
    LittleEndian(ino, 4) + LittleEndian(len, 2) + [|name|, kind] + name
  }

  lemma RecBytesIs(b: Block, off: nat, ino: nat, len: nat, name: Name, kind: nat)
    requires |name| < 256 && kind < 256 && ino < TWO_32 && len < TWO_16 && 8 + |name| <= len && off + len <= |b|
    requires b[off..off + 8 + |name|] == RecBytes(ino, len, name, kind)
    ensures RecIs(b, off, Rec(ino, len, name, kind))
  {
    hide LittleEndian, Number;
    var n := 8 + |name|;
    WordSizes();
    NumberOfLittleEndian(ino, 4);
    NumberOfLittleEndian(len, 2);
    RecBytesParts(ino, len, name, kind);
    WindowOfWindow(b, off, n, 0, 4);
    WindowOfWindow(b, off, n, 4, 2);
    WindowOfWindow(b, off, n, 6, 2);
    WindowOfWindow(b, off, n, 8, |name|);
    TwoBytes(b, off + 6, [|name|, kind]);
  }

  lemma RecBytesParts(ino: nat, len: nat, name: Name, kind: nat)
    requires |name| < 256 && kind < 256
    ensures var s := RecBytes(ino, len, name, kind);
            s[0..4] == LittleEndian(ino, 4) && s[4..6] == LittleEndian(len, 2) && s[6..8] == [|name|, kind] &&
            s[8..8 + |name|] == name
  {
    hide LittleEndian;
  }

  /** "." and "..", as `create_dir` and `format` write them. */
  function DotBytes(ino: nat, parent: nat, bs: nat): (s: seq<byte>)
    requires bs >= 24
    ensures |s| == 22
  {
    RecBytes(ino, 12, DOT_NAME, FT_DIR) + [0, 0, 0] + RecBytes(parent, bs - 12, DOTDOT_NAME, FT_DIR)
  }

  function DotRecs(ino: nat, parent: nat, bs: nat): seq<Rec>
    requires bs >= 24
  {
    [Rec(ino, 12, DOT_NAME, FT_DIR), Rec(parent, bs - 12, DOTDOT_NAME, FT_DIR)]
  }

  lemma DotBlockIs(b: Block, ino: nat, parent: nat)
    requires 24 <= |b| < TWO_16 && ino < TWO_32 && parent < TWO_32 && b[..22] == DotBytes(ino, parent, |b|)
    ensures Spells(b, DotRecs(ino, parent, |b|))
  {
    hide RecBytes, RecIs, Seg;
    var d := DotBytes(ino, parent, |b|);
    assert b[0..9] == b[..22][0..9] == d[0..9] == RecBytes(ino, 12, DOT_NAME, FT_DIR);
    assert b[12..22] == b[..22][12..22] == d[12..22] == RecBytes(parent, |b| - 12, DOTDOT_NAME, FT_DIR);
    RecBytesIs(b, 0, ino, 12, DOT_NAME, FT_DIR);
    RecBytesIs(b, 12, parent, |b| - 12, DOTDOT_NAME, FT_DIR);
    SegTwo(b, 0, Rec(ino, 12, DOT_NAME, FT_DIR), Rec(parent, |b| - 12, DOTDOT_NAME, FT_DIR));
  }

  lemma DotNames(ino: nat, parent: nat, bs: nat)
    requires bs >= 24 && ino != 0 && parent != 0
    ensures var recs := DotRecs(ino, parent, bs);
            Unique(recs) && Names(recs) == map[DOT_NAME := ino, DOTDOT_NAME := parent] && Parents(recs) == [parent]
  {
    hide Names, Unique, Parents;
    var r, s := Rec(ino, 12, DOT_NAME, FT_DIR), Rec(parent, bs - 12, DOTDOT_NAME, FT_DIR);
    OneRec(r);
    OneRec(s);
    TwoRecs(r, s);
  }

  /** An inode with one block that holds the dots is a directory. */
  lemma NewDirIs(img: seq<Block>, geo: Geo, inode: Inode, ino: nat, parent: nat)
    requires GeoOk(geo) && WfImage(img, geo) && 0 < ino < TWO_32 && 0 < parent < TWO_32
    requires IsDir(inode) && Size(inode) == geo.blockSize && BlockAt(img, PtrsPerBlock(geo), inode, 0) != 0
    requires Chunk(img, geo, inode, 0)[..22] == DotBytes(ino, parent, geo.blockSize)
    ensures DirIs(img, geo, inode, map[DOT_NAME := ino, DOTDOT_NAME := parent], parent)
  {
    hide Sized, Chunk, Recs, Spells, Unique, Names, Parents, BlockAt, DotRecs, DotBytes;
    DotBlockIs(Chunk(img, geo, inode, 0), ino, parent);
    SpellsRecs(Chunk(img, geo, inode, 0), DotRecs(ino, parent, geo.blockSize));
    DotNames(ino, parent, geo.blockSize);
    CeilUnique(geo.blockSize, geo.blockSize, 1);
    assert DirRecs(img, geo, inode, 0) == [];
    assert AllRecs(img, geo, inode) == DotRecs(ino, parent, geo.blockSize);
    assert DirChunk(img, geo, inode, 0);
  }
}
