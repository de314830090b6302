/** What the rest of the file system may do without disturbing the bookkeeping: write blocks that are not
    counters, and give roles to blocks that were taken. */
module Ext2Frames {
  import opened Bytes
  import opened Ext2Tree
  import opened Ext2Meta
  import opened Ext2Steps

  /** The counter blocks are the same in both images. */
  ghost predicate SameCounters(img: seq<Block>, img': seq<Block>, roles: map<nat, Role>) {
    |img'| == |img| && forall x :: x in roles && x < |img| && IsCounter(roles[x]) ==> img'[x] == img[x]
  }

  lemma {:induction false} SumsSame(img: seq<Block>, img': seq<Block>, geo: Geo, lay: seq<GroupLay>,
                                    roles: map<nat, Role>, n: nat)
    requires Laid(img, geo, lay) && Laid(img', geo, lay) && LayoutOk(geo, lay, roles) && SameCounters(img, img', roles)
    requires n <= geo.groups
    ensures ClearBlocks(img', geo, lay, n) == ClearBlocks(img, geo, lay, n)
    ensures ClearInodes(img', geo, lay, n) == ClearInodes(img, geo, lay, n)
  {
    hide Sized, LayoutOk, SameCounters, ClearCount, WfImage, Desc;
    if n > 0 {
      SumsSame(img, img', geo, lay, roles, n - 1);
      BitmapsSame(img, img', geo, lay, roles, n - 1);
    }
  }

  lemma BitmapsSame(img: seq<Block>, img': seq<Block>, geo: Geo, lay: seq<GroupLay>, roles: map<nat, Role>, g: nat)
    requires Laid(img, geo, lay) && Laid(img', geo, lay) && LayoutOk(geo, lay, roles) && SameCounters(img, img', roles)
    requires g < geo.groups
    ensures InVolume(geo, lay[g], g) && img'[lay[g].bb] == img[lay[g].bb] && img'[lay[g].ib] == img[lay[g].ib]
    ensures Desc(img', geo, g) == Desc(img, geo, g)
  {
    hide Sized;
    assert GroupPlaced(geo, lay[g], g, roles);
    assert InVolume(geo, lay[g], g);
    DescPlace(geo, lay, roles, g);
  }

  /** Everything the bookkeeping says depends on the counter blocks alone. */
  lemma MetaSame(img: seq<Block>, img': seq<Block>, sb: seq<byte>, geo: Geo, lay: seq<GroupLay>, roles: map<nat, Role>)
    requires MetaOk(img, sb, geo, lay, roles) && WfImage(img', geo) && SameCounters(img, img', roles)
    ensures MetaOk(img', sb, geo, lay, roles)
    ensures forall b: nat :: IsBlock(geo, b) ==> (Used(img', geo, lay, b) <==> Used(img, geo, lay, b))
    ensures forall ino: nat :: IsInode(geo, ino) ==> (UsedInode(img', geo, lay, ino) <==> UsedInode(img, geo, lay, ino))
  {
    hide Sized, Bit, ClearCount, GetU16, GetU32, Desc;
    LayoutIsLaid(img', geo, lay, roles);
    SumsSame(img, img', geo, lay, roles, geo.groups);
    forall g: nat | g < geo.groups ensures GroupOk(img', geo, lay, g) {
      assert GroupOk(img, geo, lay, g);
      BitmapsSame(img, img', geo, lay, roles, g);
    }
    forall b: nat | IsBlock(geo, b) ensures Used(img', geo, lay, b) <==> Used(img, geo, lay, b) {
      BlockIsNumbered(geo, b);
      BitmapsSame(img, img', geo, lay, roles, GroupOfBlock(geo, b));
    }
    forall ino: nat | IsInode(geo, ino) ensures UsedInode(img', geo, lay, ino) <==> UsedInode(img, geo, lay, ino) {
      InodeIsNumbered(geo, ino);
      BitmapsSame(img, img', geo, lay, roles, GroupOfInode(geo, ino));
    }
    assert HasRole(roles, geo.firstDataBlock, Super);
  }

  /** A taken block may be given a role. */
  lemma MetaRole(img: seq<Block>, sb: seq<byte>, geo: Geo, lay: seq<GroupLay>, roles: map<nat, Role>, b: nat, r: Role)
    requires MetaOk(img, sb, geo, lay, roles) && IsBlock(geo, b) && b < geo.totalBlocks && b !in roles
    requires Used(img, geo, lay, b) && r.Tree?
    ensures MetaOk(img, sb, geo, lay, roles[b := r])
  {
    hide Sized, GroupOk, SuperOk, ReservedOk, Used;
    LayoutExtends(geo, lay, roles, b, r);
  }

  lemma LayoutExtends(geo: Geo, lay: seq<GroupLay>, roles: map<nat, Role>, b: nat, r: Role)
    requires geo.blockSize > 0 && LayoutOk(geo, lay, roles) && b !in roles && geo.firstDataBlock <= b < geo.totalBlocks
    ensures LayoutOk(geo, lay, roles[b := r])
  {
    forall g: nat | g < geo.groups ensures GroupPlaced(geo, lay[g], g, roles[b := r]) {
      assert GroupPlaced(geo, lay[g], g, roles);
      forall j: nat | j < TableBlocks(geo) ensures HasRole(roles[b := r], lay[g].it + j, InodeTable(g, j)) {
        assert HasRole(roles, lay[g].it + j, InodeTable(g, j));
      }
    }
    forall i: nat | i < DescBlocks(geo) ensures HasRole(roles[b := r], geo.firstDataBlock + 1 + i, Descriptors(i)) {
      assert HasRole(roles, geo.firstDataBlock + 1 + i, Descriptors(i));
    }
  }

  /** The role of a tree block may be dropped, before the block is freed. */
  lemma MetaDrop(img: seq<Block>, sb: seq<byte>, geo: Geo, lay: seq<GroupLay>, roles: map<nat, Role>, b: nat)
    requires MetaOk(img, sb, geo, lay, roles) && b in roles && roles[b].Tree?
    ensures MetaOk(img, sb, geo, lay, roles - {b})
  {
    hide Sized, GroupOk, SuperOk, ReservedOk, Used;
    var less := roles - {b};
    forall g: nat | g < geo.groups ensures GroupPlaced(geo, lay[g], g, less) {
      assert GroupPlaced(geo, lay[g], g, roles);
      forall j: nat | j < TableBlocks(geo) ensures HasRole(less, lay[g].it + j, InodeTable(g, j)) {
        assert HasRole(roles, lay[g].it + j, InodeTable(g, j));
      }
    }
    forall i: nat | i < DescBlocks(geo) ensures HasRole(less, geo.firstDataBlock + 1 + i, Descriptors(i)) {
      assert HasRole(roles, geo.firstDataBlock + 1 + i, Descriptors(i));
    }
    assert HasRole(roles, geo.firstDataBlock, Super);
  }
}
