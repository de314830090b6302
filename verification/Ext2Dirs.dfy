/** Directories on the disk: finding, adding and removing a name. The blocks are scanned and rewritten through
    `dirBuf`; a directory that is full grows by a block. */
module Ext2Dirs {
  import opened Bytes
  import opened Ext2Tree
  import opened Ext2Meta
  import opened Ext2Grow
  import opened Ext2Volume
  import opened Ext2Files
  import opened Ext2Records
  import opened Ext2Names
  import opened Ext2Space
  import opened Ext2State
  import opened Ext2Data
  import opened Ext2DirFacts

  class Directories {
    const vol: Volume
    const files: Files
    const data: FileData

    ghost predicate Wired() { files.vol == vol && data.vol == vol && data.files == files }

    constructor (volume: Volume)
      ensures vol == volume && Wired()
      ensures fresh(files) && fresh(data)
    {
      var blockMap := new Files(volume);
      vol, files := volume, blockMap;
      data := new FileData(volume, blockMap);
    }

    // -------------------------------------------------------------- one block, in `dirBuf`

    function Buf(): (b: Block)
      requires vol.Shape()
      reads vol.disk, vol.dirBuf
      ensures |b| == vol.geo.blockSize
    {
      vol.dirBuf[..vol.geo.blockSize]
    }

    /** The inode of the first record in use with this name. */
    method ScanForName(name: Name) returns (ino: nat)
      requires vol.Shape() && DirBlock(Buf()) && |name| <= 255
      ensures ino == Lookup(Recs(Buf(), 0), name)
    {
      hide Spells, OffsetOf, GetU16, GetU32;
      ghost var b, recs := Buf(), Recs(Buf(), 0);
      var off := 0;
      ghost var i := 0;
      assert OffsetOf(recs, 0) == 0 by { OffsetZero(recs); }
      while off + 8 <= vol.geo.blockSize
        invariant i <= |recs| && off == OffsetOf(recs, i)
        invariant Lookup(recs, name) == Lookup(recs[i..], name)
        decreases |recs| - i
      {
        AtRecord(b, recs, i);
        var len := GetU16(vol.dirBuf[..vol.geo.blockSize], off + 4);
        if len < 8 { break; }
        if off + len > vol.geo.blockSize { break; }
        assert recs[i..][0] == recs[i] && recs[i..][1..] == recs[i + 1..];
        if GetU32(vol.dirBuf[..vol.geo.blockSize], off) != 0 && vol.dirBuf[off + 6] as nat == |name| &&
           vol.dirBuf[off + 8..off + 8 + |name|] == name {
          assert b[off + 8..off + 8 + |name|] == vol.dirBuf[off + 8..off + 8 + |name|];
          return GetU32(vol.dirBuf[..vol.geo.blockSize], off);
        }
        off := off + len;
        i := i + 1;
      }
      OffsetBound(b, recs, i);
      AtEnd(b, recs, i);
      ino := 0;
    }

    lemma OffsetZero(recs: seq<Rec>)
      ensures OffsetOf(recs, 0) == 0
    {}

    /** While the scan is inside the block it stands on a record. */
    lemma AtRecord(b: Block, recs: seq<Rec>, i: nat)
      requires Spells(b, recs) && i <= |recs| && OffsetOf(recs, i) + 8 <= |b|
      ensures i < |recs| && RecIs(b, OffsetOf(recs, i), recs[i]) && recs[i].len >= 8
      ensures OffsetOf(recs, i + 1) == OffsetOf(recs, i) + recs[i].len <= |b|
    {
      OffsetBound(b, recs, i);
      RecHere(b, recs, i);
      OffsetBound(b, recs, i + 1);
    }

    /** The scan leaves the block behind its last record. */
    lemma AtEnd(b: Block, recs: seq<Rec>, i: nat)
      requires Spells(b, recs) && i <= |recs| && OffsetOf(recs, i) + 8 > |b|
      ensures i == |recs|
    {
      if i < |recs| { RecHere(b, recs, i); }
    }

    /** Takes the first record that can hold the new name. */
    method PlaceInBlock(ino: nat, name: Name, kind: nat) returns (placed: bool, ghost i: nat)
      requires vol.Shape() && DirBlock(Buf()) && |name| <= 255 && ino < TWO_32 && kind < 256
      modifies vol.dirBuf
      ensures var recs := old(Recs(Buf(), 0));
              (forall j :: 0 <= j < |recs| && (placed ==> j < i) ==> !Fits(recs[j], |name|)) &&
              if placed
              then i < |recs| && Fits(recs[i], |name|) &&
                   Spells(Buf(), recs[..i] + Placed(recs[i], ino, name, kind) + recs[i + 1..])
              else Buf() == old(Buf())
    {
      hide Spells, OffsetOf, GetU16, GetU32;
      ghost var b, recs := Buf(), Recs(Buf(), 0);
      var needed := Needed(|name|);
      var off := 0;
      i := 0;
      OffsetZero(recs);
      while off + 8 <= vol.geo.blockSize
        invariant i <= |recs| && off == OffsetOf(recs, i) && Buf() == b
        invariant forall j :: 0 <= j < i ==> !Fits(recs[j], |name|)
        decreases |recs| - i
      {
        AtRecord(b, recs, i);
        var len := GetU16(vol.dirBuf[..vol.geo.blockSize], off + 4);
        if len < 8 { break; }
        if off + len > vol.geo.blockSize { break; }
        var own := Needed(vol.dirBuf[off + 6]);
        var used := GetU32(vol.dirBuf[..vol.geo.blockSize], off);
        assert |recs[i].name| == vol.dirBuf[off + 6] as nat && recs[i].ino == used && recs[i].len == len;
        if used == 0 && len >= needed {
          Reuse(recs, i, off, ino, name, kind);
          return true, i;
        } else if used != 0 && len >= own + needed {
          Split(recs, i, off, own, ino, name, kind);
          return true, i;
        }
        off := off + len;
        i := i + 1;
      }
      OffsetBound(b, recs, i);
      AtEnd(b, recs, i);
      placed := false;
    }

    method Reuse(ghost recs: seq<Rec>, ghost i: nat, off: nat, ino: nat, name: Name, kind: nat)
      requires vol.Shape() && |name| <= 255 && ino < TWO_32 && kind < 256
      requires Spells(Buf(), recs) && i < |recs| && off == OffsetOf(recs, i) && recs[i].ino == 0 &&
        Fits(recs[i], |name|)
      modifies vol.dirBuf
      ensures Spells(Buf(), recs[..i] + Placed(recs[i], ino, name, kind) + recs[i + 1..])
    {
      hide Spells, OffsetOf, GetU16, GetU32, Patch;
      ghost var b := Buf();
      ghost var n := Rec(ino, recs[i].len, name, kind);
      RecHere(b, recs, i);
      ReuseBytes(b, recs, i, n);
      var len := GetU16(vol.dirBuf[..vol.geo.blockSize], off + 4);
      vol.Store(vol.dirBuf, off, LittleEndian(ino, 4));
      vol.Store(vol.dirBuf, off + 6, [|name|, kind]);
      vol.Store(vol.dirBuf, off + 8, name);
      vol.Store(vol.dirBuf, off + 8 + |name|, Zeros(len - 8 - |name|));
    }

    method Split(ghost recs: seq<Rec>, ghost i: nat, off: nat, own: nat, ino: nat, name: Name, kind: nat)
      requires vol.Shape() && |name| <= 255 && ino < TWO_32 && kind < 256
      requires Spells(Buf(), recs) && i < |recs| && off == OffsetOf(recs, i) && recs[i].ino != 0 &&
        Fits(recs[i], |name|)
      requires own == Needed(|recs[i].name|)
      modifies vol.dirBuf
      ensures Spells(Buf(), recs[..i] + Placed(recs[i], ino, name, kind) + recs[i + 1..])
    {
      hide Spells, OffsetOf, GetU16, GetU32, Patch, PutRec, Sized;
      ghost var b := Buf();
      ghost var n := Rec(ino, recs[i].len - own, name, kind);
      RecHere(b, recs, i);
      SplitBytes(b, recs, i, own, n);
      var oldLen := GetU16(vol.dirBuf[..vol.geo.blockSize], off + 4);
      vol.Store(vol.dirBuf, off + 4, LittleEndian(own, 2));
      WriteRecord(off + own, ino, oldLen - own, name, kind);
    }

    /** Header, name and padding of a new record. */
    method WriteRecord(off: nat, ino: nat, len: nat, name: Name, kind: nat)
      requires vol.Shape() && |name| <= 255 && kind < 256 && 8 + |name| <= len && off + len <= vol.geo.blockSize
      modifies vol.dirBuf
      ensures Buf() == PutRec(old(Buf()), off, Rec(ino, len, name, kind))
    {
      hide GetU16, GetU32, Patch, LittleEndian, Sized;
      vol.Store(vol.dirBuf, off, LittleEndian(ino, 4));
      vol.Store(vol.dirBuf, off + 4, LittleEndian(len, 2));
      vol.Store(vol.dirBuf, off + 6, [|name|, kind]);
      vol.Store(vol.dirBuf, off + 8, name);
      vol.Store(vol.dirBuf, off + 8 + |name|, Zeros(len - 8 - |name|));
    }

    /** Takes the name out of the block: its record becomes slack of the one before it, or, at the start of the
        block, a free record. */
    method RemoveFromBlock(name: Name) returns (ino: nat, ghost i: nat)
      requires vol.Shape() && DirBlock(Buf())
      modifies vol.dirBuf
      ensures ino == Lookup(old(Recs(Buf(), 0)), name)
      ensures var recs := old(Recs(Buf(), 0));
              if ino != 0
              then i < |recs| && Matches(recs[i], name) && recs[i].ino == ino && Spells(Buf(), Removed(recs, i))
              else Buf() == old(Buf())
    {
      hide Spells, OffsetOf, GetU16, GetU32;
      ghost var b, recs := Buf(), Recs(Buf(), 0);
      var off, prev := 0, -1;
      i := 0;
      OffsetZero(recs);
      while off + 8 <= vol.geo.blockSize
        invariant i <= |recs| && off == OffsetOf(recs, i) && Buf() == b
        invariant prev == if i == 0 then -1 else OffsetOf(recs, i - 1) as int
        invariant Lookup(recs, name) == Lookup(recs[i..], name)
        decreases |recs| - i
      {
        AtRecord(b, recs, i);
        var len := GetU16(vol.dirBuf[..vol.geo.blockSize], off + 4);
        if len < 8 { break; }
        if off + len > vol.geo.blockSize { break; }
        assert recs[i..][0] == recs[i] && recs[i..][1..] == recs[i + 1..];
        if GetU32(vol.dirBuf[..vol.geo.blockSize], off) != 0 && vol.dirBuf[off + 6] as nat == |name| &&
           vol.dirBuf[off + 8..off + 8 + |name|] == name {
          assert b[off + 8..off + 8 + |name|] == vol.dirBuf[off + 8..off + 8 + |name|];
          ino := GetU32(vol.dirBuf[..vol.geo.blockSize], off);
          TakeOut(recs, i, prev, off, len);
          return;
        }
        prev := off;
        off := off + len;
        i := i + 1;
      }
      OffsetBound(b, recs, i);
      AtEnd(b, recs, i);
      ino := 0;
    }

    method TakeOut(ghost recs: seq<Rec>, ghost i: nat, prev: int, off: nat, len: nat)
      requires vol.Shape() && Spells(Buf(), recs) && i < |recs| && off == OffsetOf(recs, i) && len == recs[i].len
      requires prev == if i == 0 then -1 else OffsetOf(recs, i - 1) as int
      modifies vol.dirBuf
      ensures Spells(Buf(), Removed(recs, i))
    {
      hide Spells, OffsetOf, GetU16, GetU32, Patch, Sized;
      if prev >= 0 {
        MergeAway(recs, i, prev, len);
      } else {
        OffsetZero(recs);
        FreeBytes(Buf(), recs);
        vol.Store(vol.dirBuf, off, LittleEndian(0, 4));
      }
    }

    /** `pd->rec_len += de->rec_len` */
    method MergeAway(ghost recs: seq<Rec>, ghost i: nat, prev: nat, len: nat)
      requires vol.Shape() && Spells(Buf(), recs) && 0 < i < |recs| && prev == OffsetOf(recs, i - 1) &&
        len == recs[i].len
      modifies vol.dirBuf
      ensures Spells(Buf(), Removed(recs, i))
    {
      hide Spells, OffsetOf, GetU16, GetU32, Patch, Sized;
      MergeBytes(Buf(), recs, i);
      RecHere(Buf(), recs, i - 1);
      var prevLen := GetU16(vol.dirBuf[..vol.geo.blockSize], prev + 4);
      var sum := (prevLen + len) % TWO_16;
      assert sum == recs[i - 1].len + recs[i].len;
      vol.Store(vol.dirBuf, prev + 4, LittleEndian(sum, 2));
    }

    // -------------------------------------------------------------- a whole directory

    /** The inode as it is on the disk. */
    ghost function SlotOf(ino: nat): Inode
      requires vol.Meta() && IsInode(vol.geo, ino)
      reads vol, vol.disk
    {
      Slot(vol.disk[..], vol.geo, vol.lay, ino)
    }

    ghost predicate DirReady(dir: nat)
      reads vol, vol.disk
    {
      vol.Meta() && IsInode(vol.geo, dir) && files.vol == vol && files.Ready(SlotOf(dir), dir) &&
      DirOk(vol.disk[..], vol.geo, SlotOf(dir))
    }

    ghost function NamesOf(dir: nat): map<Name, nat>
      requires vol.Meta() && IsInode(vol.geo, dir)
      reads vol, vol.disk
    {
      Names(AllRecs(vol.disk[..], vol.geo, SlotOf(dir)))
    }

    /** The directory stands for `names` now, and only it was worked on. */
    ghost predicate DirBecame(dir: nat, img: seq<Block>, roles: map<nat, Role>, names: map<Name, nat>, parent: nat)
      reads vol, vol.disk
    {
      DirReady(dir) && data.vol == vol && data.Only(img, roles, dir) &&
      DirIs(vol.disk[..], vol.geo, SlotOf(dir), names, parent)
    }

    /** `find_dir_entry`: what the directory's map says of the name; 0 for no such name, an empty or overlong
        name, or an inode that is no directory. */
    method FindDirEntry(dir: nat, name: Name) returns (ino: nat)
      requires Wired() && vol.Meta()
      requires IsInode(vol.geo, dir) ==> files.Ready(SlotOf(dir), dir) && (IsDir(SlotOf(dir)) ==> DirReady(dir))
      modifies vol.gBuf, vol.dirBuf
      ensures ino == if IsInode(vol.geo, dir) && IsDir(SlotOf(dir)) && 0 < |name| <= 255 && name in NamesOf(dir)
                     then NamesOf(dir)[name] else 0
    {
      hide Sized, TreeOk, MetaOk, ViewOk, GetU32, GetU16, Chunk, Recs, Lookup, Names, Unique, Spells, BlockAt, FileType,
        Size, Capacity;
      var ok, inode := vol.ReadInode(dir);
      if !ok { return 0; }
      if FileType(inode) != S_IFDIR { return 0; }
      if |name| == 0 || |name| > 255 { return 0; }
      ghost var img := vol.disk[..];
      var n := NumBlocks(Size(inode), vol.geo.blockSize);
      LookupIsNames(AllRecs(img, vol.geo, inode), name);
      var b := 0;
      assert Lookup(DirRecs(img, vol.geo, inode, 0), name) == 0 by { NoRecs(name); }
      while b < n
        invariant b <= n && vol.disk[..] == img && Lookup(DirRecs(img, vol.geo, inode, b), name) == 0
      {
        assert DirChunk(img, vol.geo, inode, b);
        var blk := files.GetInodeBlock(inode, b, dir);
        data.BlockChunk(inode, b, dir);
        LookupSplit(DirRecs(img, vol.geo, inode, b), Recs(Chunk(img, vol.geo, inode, b), 0), name);
        if blk != 0 {
          vol.ReadBlock(blk, vol.dirBuf);
          ino := ScanForName(name);
          if ino != 0 {
            FoundIn(img, inode, b, n, name);
            return;
          }
        }
        b := b + 1;
      }
      ino := 0;
    }

    lemma NoRecs(name: Name)
      ensures Lookup([], name) == 0
    {}

    /** The name found first is the one the whole directory has. */
    lemma FoundIn(img: seq<Block>, inode: Inode, b: nat, n: nat, name: Name)
      requires GeoOk(vol.geo) && WfImage(img, vol.geo) && b < n
      requires Lookup(DirRecs(img, vol.geo, inode, b), name) == 0
      requires Lookup(Recs(Chunk(img, vol.geo, inode, b), 0), name) != 0
      ensures Lookup(DirRecs(img, vol.geo, inode, n), name) == Lookup(Recs(Chunk(img, vol.geo, inode, b), 0), name)
    {
      hide Sized, Chunk, Recs, Lookup, DirRecs, DirRange;
      var x, y, z := DirRecs(img, vol.geo, inode, b), Recs(Chunk(img, vol.geo, inode, b), 0),
        DirRange(img, vol.geo, inode, b + 1, n);
      DirRecsSplit(img, vol.geo, inode, b, n);
      LookupSplit(x + y, z, name);
      LookupSplit(x, y, name);
    }

    /** Writes `dirBuf` back to block `b` of the directory. */
    method Rewrite(dir: nat, inode: Inode, b: nat, blk: nat)
      requires Wired() && DirReady(dir) && inode == SlotOf(dir) && b < NumBlocks(Size(inode), vol.geo.blockSize)
      requires blk != 0 && PtrsPerBlock(vol.geo) > 0 && blk == BlockAt(vol.disk[..], PtrsPerBlock(vol.geo), inode, b)
      modifies vol.disk
      ensures vol.Meta() && files.Ready(inode, dir) && SlotOf(dir) == inode &&
        data.Only(old(vol.disk[..]), vol.roles, dir)
      ensures BlockChanged(old(vol.disk[..]), inode, vol.disk[..], inode, vol.geo, b)
      ensures Chunk(vol.disk[..], vol.geo, inode, b) == old(Buf()) && vol.dirBuf[..] == old(vol.dirBuf[..])
    {
      hide Sized, TreeOk, MetaOk, GetU32, Chunk, BlockAt, Size, DirOk, Slot;
      BlockRewritten(vol.geo, vol.lay, dir, vol.sb, vol.disk[..], vol.roles, inode, b, Buf());
      vol.WriteBlock(blk, vol.dirBuf);
    }

    lemma AfterRemove(dir: nat, img: seq<Block>, inode: Inode, b: nat, i: nat, name: Name)
      requires Wired() && vol.Meta() && IsInode(vol.geo, dir) && SlotOf(dir) == inode && files.Ready(inode, dir)
      requires WfImage(img, vol.geo) && DirOk(img, vol.geo, inode)
      requires BlockChanged(img, inode, vol.disk[..], inode, vol.geo, b)
      requires var recs := Recs(Chunk(img, vol.geo, inode, b), 0);
               i < |recs| && Matches(recs[i], name) && Spells(Chunk(vol.disk[..], vol.geo, inode, b), Removed(recs, i))
      requires name != DOTDOT_NAME && name != DOT_NAME
      ensures DirReady(dir) &&
              DirIs(vol.disk[..], vol.geo, inode, Names(AllRecs(img, vol.geo, inode)) - {name},
                ParentOf(img, vol.geo, inode))
    {
      hide Sized, TreeOk, MetaOk, ViewOk, Chunk, Recs, Names, Unique, Spells, BlockAt, Size, DirOk, BlockChanged,
        Removed, AllRecs;
      NameRemoved(img, inode, vol.disk[..], inode, vol.geo, b, i, name);
    }

    /** `remove_dir_entry` */
    method RemoveDirEntry(dir: nat, name: Name) returns (ok: bool, ino: nat)
      requires Wired() && DirReady(dir) && name != DOT_NAME && name != DOTDOT_NAME
      modifies vol.disk, vol.gBuf, vol.dirBuf
      ensures vol.Meta() && ok == (name in old(NamesOf(dir)))
      ensures ok ==> ino == old(NamesOf(dir))[name] &&
                     DirBecame(dir, old(vol.disk[..]), vol.roles, old(NamesOf(dir)) - {name},
                               old(ParentOf(vol.disk[..], vol.geo, SlotOf(dir))))
      ensures !ok ==> vol.disk[..] == old(vol.disk[..])
    {
      hide Sized, TreeOk, MetaOk, ViewOk, GetU32, GetU16, Chunk, Recs, Lookup, Names, Unique, Spells, BlockAt, FileType,
        Size, Capacity;
      ok, ino := false, 0;
      var readable, inode := vol.ReadInode(dir);
      if !readable { return; }
      ghost var img := vol.disk[..];
      var n := NumBlocks(Size(inode), vol.geo.blockSize);
      LookupIsNames(AllRecs(img, vol.geo, inode), name);
      var b := 0;
      assert Lookup(DirRecs(img, vol.geo, inode, 0), name) == 0 by { NoRecs(name); }
      while b < n
        invariant b <= n && vol.disk[..] == img && Lookup(DirRecs(img, vol.geo, inode, b), name) == 0
        invariant vol.Meta() && IsInode(vol.geo, dir)
      {
        assert DirChunk(img, vol.geo, inode, b);
        var blk := files.GetInodeBlock(inode, b, dir);
        data.BlockChunk(inode, b, dir);
        LookupSplit(DirRecs(img, vol.geo, inode, b), Recs(Chunk(img, vol.geo, inode, b), 0), name);
        if blk != 0 {
          vol.ReadBlock(blk, vol.dirBuf);
          ghost var i;
          ino, i := RemoveFromBlock(name);
          if ino != 0 {
            FoundIn(img, inode, b, n, name);
            Rewrite(dir, inode, b, blk);
            AfterRemove(dir, img, inode, b, i, name);
            return true, ino;
          }
        }
        b := b + 1;
      }
      ok := false;
    }

    /** A record of block `b` took the new name. */
    lemma AfterAdd(dir: nat, img: seq<Block>, inode: Inode, b: nat, i: nat, ino: nat, name: Name, kind: nat)
      requires Wired() && vol.Meta() && IsInode(vol.geo, dir) && SlotOf(dir) == inode && files.Ready(inode, dir)
      requires WfImage(img, vol.geo) && DirOk(img, vol.geo, inode)
      requires BlockChanged(img, inode, vol.disk[..], inode, vol.geo, b)
      requires var recs := Recs(Chunk(img, vol.geo, inode, b), 0);
               i < |recs| && Fits(recs[i], |name|) &&
               Spells(Chunk(vol.disk[..], vol.geo, inode, b), recs[..i] + Placed(recs[i], ino, name, kind) +
                 recs[i + 1..])
      requires ino != 0 && name != DOTDOT_NAME && name !in Names(AllRecs(img, vol.geo, inode))
      ensures DirReady(dir) &&
              DirIs(vol.disk[..], vol.geo, inode, Names(AllRecs(img, vol.geo, inode))[name := ino],
                ParentOf(img, vol.geo, inode))
    {
      hide Sized, TreeOk, MetaOk, ViewOk, Chunk, Recs, Names, Unique, Spells, BlockAt, Size, DirOk, BlockChanged,
        AllRecs, Fits, Placed;
      NameAdded(img, inode, vol.disk[..], inode, vol.geo, b, i, ino, name, kind);
    }

    /** `add_dir_entry` for a name the directory does not hold: the first record with room takes it, or a new
        block does. */
    method AddDirEntry(dir: nat, ino: nat, name: Name, kind: nat) returns (ok: bool)
      requires Wired() && DirReady(dir) && 0 < ino < TWO_32 && kind < 256
      requires name != DOTDOT_NAME && name !in NamesOf(dir)
      modifies vol`sb, vol`roles, vol.disk, vol.gBuf, vol.gBuf2, vol.dirBuf
      ensures DirBecame(dir, old(vol.disk[..]), old(vol.roles),
                        if ok then old(NamesOf(dir))[name := ino] else old(NamesOf(dir)),
                        old(ParentOf(vol.disk[..], vol.geo, SlotOf(dir))))
      ensures files.Spends(4, ok || |name| > 255)
    {
      hide Sized, TreeOk, MetaOk, ViewOk, GetU32, GetU16, Chunk, Recs, Names, Unique, Spells, BlockAt, FileType, Size,
        Capacity, OnlyFile, Slot, AllRecs;
      ok := false;
      data.ReadyIsLaid(SlotOf(dir), dir);
      OnlyFileReflexive(vol.geo, vol.lay, vol.disk[..], vol.roles, dir);
      var readable, inode := vol.ReadInode(dir);
      if !readable { return; }
      if |name| > 255 { return; }
      ghost var img, roles := vol.disk[..], vol.roles;
      var n := NumBlocks(Size(inode), vol.geo.blockSize);
      var b := 0;
      while b < n
        invariant b <= n && vol.disk[..] == img && DirReady(dir) && vol.roles == roles && vol.sb == old(vol.sb)
      {
        assert DirChunk(img, vol.geo, inode, b);
        var blk := files.GetInodeBlock(inode, b, dir);
        data.BlockChunk(inode, b, dir);
        if blk != 0 {
          vol.ReadBlock(blk, vol.dirBuf);
          ghost var i;
          ok, i := PlaceInBlock(ino, name, kind);
          if ok {
            Rewrite(dir, inode, b, blk);
            AfterAdd(dir, img, inode, b, i, ino, name, kind);
            return;
          }
        }
        b := b + 1;
      }
      ok := GrowDirectory(dir, inode, n, ino, name, kind);
    }

    /** A new block with one record that fills it. */
    method NewDirBlock(dir: nat, inode: Inode, ino: nat, name: Name, kind: nat) returns (blk: nat)
      requires Wired() && DirReady(dir) && inode == SlotOf(dir)
      requires ino < TWO_32 && kind < 256 && |name| <= 255
      modifies vol`sb, vol.disk, vol.gBuf, vol.dirBuf
      ensures files.Ready(inode, dir) && data.Only(old(vol.disk[..]), vol.roles, dir)
      ensures SameSlot(vol.disk[..], vol.geo, vol.lay, old(vol.disk[..]), dir) &&
        data.SameBlocks(old(vol.disk[..]), inode)
      ensures blk != 0 ==> files.Spare(inode, blk) &&
                           Spells(vol.disk[..][blk], [Rec(ino, vol.geo.blockSize, name, kind)])
      ensures files.Spends(1, blk != 0)
    {
      hide Sized, Used, UsedInode, GroupOk, ReservedOk, UsedOk, InVolume, LayoutOk, TreeOk, Slot, GetU32, GetU16, Chunk,
        BlockAt, DirOk, Spells;
      ghost var a, was := files.V(inode), vol.sb;
      blk := vol.AllocBlock();
      ghost var img1 := vol.disk[..];
      if blk == 0 {
        data.ReadyIsLaid(inode, dir);
        OnlyFileReflexive(vol.geo, vol.lay, vol.disk[..], vol.roles, dir);
        return;
      }
      vol.ClearBuf(vol.dirBuf);
      FillOneRecord(ino, name, kind);
      vol.WriteBlock(blk, vol.dirBuf);
      BlockFilled(vol.geo, vol.lay, dir, was, a, img1, vol.sb, blk, Buf());
      NodesKeptBlocks(a.img, vol.disk[..], vol.geo, vol.roles, vol.roles, inode, dir);
    }

    method FillOneRecord(ino: nat, name: Name, kind: nat)
      requires vol.Shape() && ZeroBlock(Buf()) && ino < TWO_32 && kind < 256 && |name| <= 255
      modifies vol.dirBuf
      ensures Spells(Buf(), [Rec(ino, vol.geo.blockSize, name, kind)])
    {
      hide GetU16, GetU32, Patch, Sized, PutRec;
      ghost var z, r := Buf(), Rec(ino, vol.geo.blockSize, name, kind);
      PutRecOnZeros(z, r);
      PutRecIs(z, 0, r);
      SegOne(PutRec(z, 0, r), 0, r);
      vol.Store(vol.dirBuf, 0, LittleEndian(ino, 4));
      vol.Store(vol.dirBuf, 4, LittleEndian(vol.geo.blockSize, 2));
      vol.Store(vol.dirBuf, 6, [|name|, kind]);
      vol.Store(vol.dirBuf, 8, name);
    }

    /** The directory gets a block that holds the new name and nothing else. */
    method GrowDirectory(dir: nat, inode: Inode, n: nat, ino: nat, name: Name, kind: nat) returns (ok: bool)
      requires Wired() && DirReady(dir) && inode == SlotOf(dir) && n == NumBlocks(Size(inode), vol.geo.blockSize)
      requires 0 < ino < TWO_32 && kind < 256 && |name| <= 255 && name != DOTDOT_NAME && name !in NamesOf(dir)
      modifies vol`sb, vol`roles, vol.disk, vol.gBuf, vol.gBuf2, vol.dirBuf
      ensures DirBecame(dir, old(vol.disk[..]), old(vol.roles),
                        if ok then old(NamesOf(dir))[name := ino] else old(NamesOf(dir)),
                        old(ParentOf(vol.disk[..], vol.geo, SlotOf(dir))))
      ensures files.Spends(4, ok)
    {
      hide Sized, TreeOk, MetaOk, ViewOk, GetU32, GetU16, Chunk, Recs, Names, Unique, Spells, BlockAt, Capacity,
        OnlyFile, Slot, AllRecs, DirOk, IsSpare, Size, FileType, NumBlocks, FreeBlocksCount, Node, PathOf;
      DirBlocksFew(inode, n);
      ghost var img, roles := vol.disk[..], vol.roles;
      ok := false;
      var blk := NewDirBlock(dir, inode, ino, name, kind);
      ghost var img1 := vol.disk[..];
      DirMoved(img, img1, vol.geo, inode, inode);
      if blk == 0 { return; }
      var out;
      ok, out := data.LinkBlock(inode, n, blk, dir);
      OnlyFileTransitive(vol.geo, vol.lay, dir, img, roles, img1, roles, vol.disk[..], vol.roles);
      if !ok {
        DirMoved(img1, vol.disk[..], vol.geo, inode, inode);
        return;
      }
      ghost var img2, roles2 := vol.disk[..], vol.roles;
      GrownFits(dir, img, inode, out, n, blk);
      OtherFields(inode, out);
      out := data.SetSize(dir, out, (n + 1) * vol.geo.blockSize, (Sectors(out) + vol.geo.blockSize / 512) % TWO_32);
      OnlyFileTransitive(vol.geo, vol.lay, dir, img, roles, img2, roles2, vol.disk[..], vol.roles);
      NameAppended(img, inode, vol.disk[..], out, vol.geo, n, Rec(ino, vol.geo.blockSize, name, kind));
    }

    lemma DirBlocksFew(inode: Inode, n: nat)
      requires GeoOk(vol.geo) && n == NumBlocks(Size(inode), vol.geo.blockSize)
      ensures n < Capacity(PtrsPerBlock(vol.geo))
    {
      hide Capacity, Sized;
      CapacityLarge(vol.geo);
    }

    /** All `n + 1` blocks are there, so the new size fits its field. */
    lemma GrownFits(dir: nat, img: seq<Block>, inode: Inode, out: Inode, n: nat, blk: nat)
      requires Wired() && files.Ready(out, dir) && WfImage(img, vol.geo) && DirOk(img, vol.geo, inode) && blk != 0
      requires n == NumBlocks(Size(inode), vol.geo.blockSize) && n < Capacity(PtrsPerBlock(vol.geo))
      requires forall j: nat :: j < n ==>
                 BlockAt(vol.disk[..], PtrsPerBlock(vol.geo), out, j) == BlockAt(img, PtrsPerBlock(vol.geo), inode, j)
      requires BlockAt(vol.disk[..], PtrsPerBlock(vol.geo), out, n) == blk
      ensures (n + 1) * vol.geo.blockSize < TWO_32
    {
      hide Sized, TreeOk, Chunk, Recs, Names, Unique, Spells, BlockAt, Capacity, NumBlocks, GroupOk, SuperOk, UsedOk,
        ReservedOk;
      forall j: nat | j < n + 1 ensures BlockAt(vol.disk[..], PtrsPerBlock(vol.geo), out, j) != 0 {
        if j < n { assert DirChunk(img, vol.geo, inode, j); }
      }
      FileFits(vol.geo, vol.disk[..], out, dir, vol.roles, n + 1);
    }

    /** `i_links_count++` of a directory, written back. */
    method AddLink(dir: nat)
      requires Wired() && DirReady(dir)
      modifies vol.disk, vol.gBuf
      ensures DirBecame(dir, old(vol.disk[..]), vol.roles, old(NamesOf(dir)),
        old(ParentOf(vol.disk[..], vol.geo, SlotOf(dir))))
    {
      hide Sized, TreeOk, MetaOk, GetU32, GetU16, Chunk, Recs, Names, Unique, Spells, BlockAt, Capacity, OnlyFile, Slot,
        AllRecs, DirOk, Size, FileType, NumBlocks, SamePointers;
      var readable, inode := vol.ReadInode(dir);
      ghost var img := vol.disk[..];
      data.ReadyIsLaid(inode, dir);
      OnlyFileReflexive(vol.geo, vol.lay, img, vol.roles, dir);
      LinksWritten(inode, (Links(inode) + 1) % TWO_16);
      var more := WithLinks(inode, (Links(inode) + 1) % TWO_16);
      PointersDecide(img, vol.geo, inode, more, dir, vol.roles);
      data.PutInode(dir, more);
      DirMoved(img, vol.disk[..], vol.geo, inode, more);
    }
  }
}
