/** The file system's calls: paths are split and resolved, files are written, read and deleted. Each call is
    proved against the tree of names that the volume stands for. */
module Ext2Api {
  import opened Bytes
  import opened Ext2Tree
  import opened Ext2Meta
  import opened Ext2Steps
  import opened Ext2Grow
  import opened Ext2Space
  import opened Ext2Volume
  import opened Ext2Files
  import opened Ext2Records
  import opened Ext2Names
  import opened Ext2State
  import opened Ext2Data
  import opened Ext2DirFacts
  import opened Ext2Dirs
  import opened Ext2Paths
  import opened Ext2Trees

  const FT_REG_FILE: nat := 1

  /** `Beyond`: the kernel goes on in a way that is not part of this model. */
  datatype Outcome = Done | Refused | Beyond

  class FileSystem {
    const vol: Volume
    const dirs: Directories
    var current: nat
    ghost var live: set<nat>

    ghost predicate Wired() { dirs.vol == vol && dirs.Wired() }

    /** The bookkeeping agrees and every live inode is in order. */
    ghost predicate Sound()
      reads this, vol, vol.disk
    {
      Wired() && vol.Meta() && LiveOk(vol.disk[..], vol.geo, vol.lay, vol.roles, live) &&
      forall j :: j in live ==> IsInode(vol.geo, j)
    }

    /** What the volume stands for. */
    ghost function Contents(): (t: FsTree)
      requires Sound()
      reads this, vol, vol.disk
      ensures t.Keys == live
    {
      TreeOf(vol.disk[..], vol.geo, vol.lay, live)
    }

    ghost predicate Good()
      reads this, vol, vol.disk
    {
      Sound() && TreeWf(Contents()) && current in live && Contents()[current].Dir? && NoneReserved()
    }

    /** The reserved inodes hold no files. */
    ghost predicate NoneReserved()
      requires Sound()
      reads this, vol, vol.disk
    {
      forall f :: f in live && Contents()[f].File? ==> f >= vol.geo.firstIno
    }

    ghost predicate IsDirectory(d: nat)
      reads this, vol, vol.disk
    {
      Sound() && d in live && Contents()[d].Dir?
    }

    ghost function NamesIn(d: nat): map<Name, nat>
      requires IsDirectory(d)
      reads this, vol, vol.disk
    {
      Contents()[d].names
    }

    ghost predicate IsFile(f: nat)
      reads this, vol, vol.disk
    {
      Sound() && f in live && Contents()[f].File?
    }

    ghost function DataOf(f: nat): seq<byte>
      requires IsFile(f)
      reads this, vol, vol.disk
    {
      Contents()[f].data
    }

    constructor (volume: Volume, dir: nat, ghost inodes: set<nat>)
      requires volume.Meta() && LiveOk(volume.disk[..], volume.geo, volume.lay, volume.roles, inodes)
      requires forall j :: j in inodes ==> IsInode(volume.geo, j)
      requires TreeWf(TreeOf(volume.disk[..], volume.geo, volume.lay, inodes))
      requires var t := TreeOf(volume.disk[..], volume.geo, volume.lay, inodes);
               dir in inodes && t[dir].Dir? && forall f :: f in inodes && t[f].File? ==> f >= volume.geo.firstIno
      ensures Good() && vol == volume && current == dir && live == inodes
    {
      hide MetaOk, LiveOk, TreeWf, TreeOf, Sized, WfImage;
      vol, current, live := volume, dir, inodes;
      dirs := new Directories(volume);
    }

    // -------------------------------------------------------------- paths

    /** `split_path` */
    method SplitPath(path: seq<byte>) returns (parent: seq<byte>, name: Name)
      ensures parent == Cut(Front(Strip(path)), MAX_PARENT) && name == Cut(Back(Strip(path)), MAX_COMPONENT)
    {
      hide LastStart;
      var p := path;
      if p != [] && IsSep(p[0]) { p := p[1..]; }
      var last := AfterLastSep(p);
      var len := last;
      if len > 0 && IsSep(p[len - 1]) { len := len - 1; }
      parent := p[..if len < MAX_PARENT then len else MAX_PARENT];
      name := p[last..if |p| - last < MAX_COMPONENT then |p| else last + MAX_COMPONENT];
    }

    method AfterLastSep(p: seq<byte>) returns (last: nat)
      ensures last == LastStart(p)
    {
      hide LastStart;
      last := 0;
      var i := 0;
      while i < |p|
        invariant i <= |p| && last == LastStart(p[..i])
      {
        LastStartStep(p, i);
        if IsSep(p[i]) { last := i + 1; }
        i := i + 1;
      }
      assert p[..i] == p;
    }

    /** The inode of the first record named "..", free or not. */
    method ScanForParent() returns (found: bool, ino: nat)
      requires Wired() && vol.Shape() && DirBlock(dirs.Buf())
      ensures found == (Parents(Recs(dirs.Buf(), 0)) != [])
      ensures found ==> ino == Parents(Recs(dirs.Buf(), 0))[0]
    {
      hide Spells, OffsetOf, GetU16, GetU32;
      ghost var b, recs := dirs.Buf(), Recs(dirs.Buf(), 0);
      var off := 0;
      ghost var i := 0;
      dirs.OffsetZero(recs);
      while off + 8 <= vol.geo.blockSize
        invariant i <= |recs| && off == OffsetOf(recs, i)
        invariant Parents(recs) == Parents(recs[i..])
        decreases |recs| - i
      {
        dirs.AtRecord(b, recs, i);
        var len := GetU16(vol.dirBuf[..vol.geo.blockSize], off + 4);
        if len < 8 { break; }
        if off + len > vol.geo.blockSize { break; }
        assert recs[i..][0] == recs[i] && recs[i..][1..] == recs[i + 1..];
        DotDotBytes(b, off, recs[i]);
        if vol.dirBuf[off + 6] == 2 && vol.dirBuf[off + 8] == DOT && vol.dirBuf[off + 9] == DOT {
          return true, GetU32(vol.dirBuf[..vol.geo.blockSize], off);
        }
        off := off + len;
        i := i + 1;
      }
      OffsetBound(b, recs, i);
      dirs.AtEnd(b, recs, i);
      found, ino := false, 0;
    }

    /** A live inode as the directory and file layers need it. */
    lemma LiveInode(j: nat)
      requires Sound() && j in live
      ensures IsInode(vol.geo, j) && vol.Meta() && dirs.files.Ready(dirs.SlotOf(j), j)
      ensures IsDir(dirs.SlotOf(j)) <==> Contents()[j].Dir?
      ensures Contents()[j].Dir? ==> dirs.DirReady(j) && dirs.NamesOf(j) == Contents()[j].names
      ensures Contents()[j].File? ==> Content(vol.disk[..], vol.geo, dirs.SlotOf(j)) == Contents()[j].data
    {
      hide TreeOk, DirOk, AllRecs, Content, Slot, UsedInode, FileType, GroupOk, SuperOk, UsedOk, ReservedOk, LayoutOk,
        Sized, WfImage, InVolume;
      assert InodeOk(vol.disk[..], vol.geo, vol.lay, vol.roles, j);
    }

    method LookUp(dir: nat, name: Name) returns (ino: nat)
      requires Sound() && dir in live && 0 < |name| <= 255
      modifies vol.gBuf, vol.dirBuf
      ensures ino == if IsDirectory(dir) && name in NamesIn(dir) then NamesIn(dir)[name] else 0
    {
      hide MetaOk, TreeOk, ViewOk, DirOk, LiveOk, TreeOf, Sized, WfImage;
      LiveInode(dir);
      ino := dirs.FindDirEntry(dir, name);
    }

    /** The first block of a directory holds its parent. */
    lemma FirstBlock(dir: nat)
      requires IsDirectory(dir)
      ensures IsInode(vol.geo, dir) && vol.Meta() && dirs.files.Ready(dirs.SlotOf(dir), dir) &&
        0 < PtrsPerBlock(vol.geo)
      ensures BlockAt(vol.disk[..], PtrsPerBlock(vol.geo), dirs.SlotOf(dir), 0) != 0
      ensures var recs := Recs(Chunk(vol.disk[..], vol.geo, dirs.SlotOf(dir), 0), 0);
              DirBlock(Chunk(vol.disk[..], vol.geo, dirs.SlotOf(dir), 0)) && Parents(recs) != [] &&
              DOTDOT_NAME in NamesIn(dir) && Parents(recs)[0] == NamesIn(dir)[DOTDOT_NAME]
    {
      hide MetaOk, TreeOk, ViewOk, Chunk, BlockAt, Recs, Names, Unique, Parents, Spells, Sized, LiveOk, TreeOf, AllRecs,
        Size;
      LiveInode(dir);
      assert DirChunk(vol.disk[..], vol.geo, dirs.SlotOf(dir), 0);
      ParentIsNamed(vol.disk[..], vol.geo, dirs.SlotOf(dir));
    }

    /** ".." of a directory, read from its first block. Of a file's first block the kernel reads whatever is there:
        that is not known. */
    method Up(dir: nat) returns (known: bool, ino: nat)
      requires Sound() && dir in live
      modifies vol.gBuf, vol.dirBuf
      ensures known == IsDirectory(dir)
      ensures known ==> DOTDOT_NAME in NamesIn(dir) && ino == NamesIn(dir)[DOTDOT_NAME]
    {
      hide MetaOk, TreeOk, ViewOk, Chunk, BlockAt, Recs, Names, Unique, Parents, Spells, Sized, LiveOk, TreeOf, AllRecs,
        Size, DirOk, GetU32, Contents, Slot;
      LiveInode(dir);
      var ok, inode := vol.ReadInode(dir);
      if !IsDir(inode) { return false, 0; }
      FirstBlock(dir);
      ghost var names := NamesIn(dir);
      known, ino := true, dir;
      if ok {
        var blk := dirs.files.GetInodeBlock(inode, 0, dir);
        dirs.data.BlockChunk(inode, 0, dir);
        if blk != 0 {
          vol.ReadBlock(blk, vol.dirBuf);
          var found, parent := ScanForParent();
          if found { ino := parent; }
        }
      }
      assert NamesIn(dir) == names;
    }

    /** No component ".." is asked of a file: the kernel would read the file's bytes as a directory. */
    ghost predicate CanResolve(path: seq<byte>)
      reads this, vol, vol.disk
    {
      Sound() && NoUpFromFile(Contents(), Start(current, path), Comps(Strip(path)))
    }

    /** The inode that a path leads to, 0 if none. */
    ghost function Target(path: seq<byte>): nat
      reads this, vol, vol.disk
    {
      if Sound() then Resolve(Contents(), current, path) else 0
    }

    /** The inode that the front of a path leads to. */
    ghost function FrontOf(path: seq<byte>): nat
      reads this, vol, vol.disk
    {
      Target(ParentPath(path))
    }

    /** What is written under the path is what the path leads to afterwards. */
    ghost predicate RoundTrips(path: seq<byte>)
      reads this, vol, vol.disk
    {
      Sound() && ReadsBack(Contents(), current, path)
    }

    ghost predicate Stores(f: nat, data: seq<byte>)
      reads this, vol, vol.disk
    {
      IsFile(f) && DataOf(f) == data
    }

    /** A buffer of `n` bytes is large enough for the file. */
    ghost predicate HasRoom(f: nat, n: nat)
      reads this, vol, vol.disk
    {
      IsFile(f) ==> |DataOf(f)| <= n
    }

    /** `resolve_relative` from the current directory. */
    method ResolveRelative(path: seq<byte>) returns (known: bool, ino: nat)
      requires Good()
      modifies vol.gBuf, vol.dirBuf
      ensures Good() && Contents() == old(Contents())
      ensures known == CanResolve(path) && (known ==> ino == Target(path))
    {
      hide MetaOk, LiveOk, TreeWf, Sized, WfImage, TreeOf, GeoOk, Step, Comps, Walk, NoUpFromFile, PieceLen, Contents;
      ghost var t, clean := Contents(), CanResolve(path);
      var cur, p := current, path;
      if p != [] && IsSep(p[0]) { cur, p := ROOT_INO, p[1..]; }
      assert cur in live by { RootIsLive(); }
      while p != []
        invariant Good() && Contents() == t && cur in live && clean == NoUpFromFile(t, cur, Comps(p))
        invariant Walk(t, cur, Comps(p)) == Resolve(t, current, path)
        decreases |p|
      {
        var i := NextPiece(p);
        WalkPiece(t, cur, p, i);
        if i != 0 {
          RootIsLive();
          var sure, next := TakeStep(cur, p[..i]);
          if !sure { return false, 0; }
          if next == 0 { return true, 0; }
          cur := next;
        }
        p := AfterPiece(p, i);
      }
      NothingLeft(t, cur);
      known, ino := true, cur;
    }

    lemma RootIsLive()
      requires Good()
      ensures IsDirectory(ROOT_INO)
    {
      hide MetaOk, LiveOk, DirWf, OneName, TreeOf;
    }

    lemma NothingLeft(t: FsTree, cur: nat)
      ensures Walk(t, cur, Comps([])) == cur && NoUpFromFile(t, cur, Comps([]))
    {}

    /** The bytes up to the next separator, at most 63. */
    method NextPiece(p: seq<byte>) returns (i: nat)
      ensures i == PieceLen(p, MAX_COMPONENT)
    {
      i := 0;
      while i < |p| && !IsSep(p[i]) && i < MAX_COMPONENT
        invariant i <= |p| && i <= MAX_COMPONENT && forall j :: 0 <= j < i ==> !IsSep(p[j])
      {
        i := i + 1;
      }
      PieceLenIs(p, MAX_COMPONENT, i);
    }

    /** One component. */
    method TakeStep(cur: nat, comp: Name) returns (known: bool, next: nat)
      requires Sound() && cur in live && 0 < |comp| <= 255 && IsDirectory(ROOT_INO)
      modifies vol.gBuf, vol.dirBuf
      ensures Sound() && known == !(comp == DOTDOT_NAME && IsFile(cur))
      ensures known ==> next == Step(Contents(), cur, comp)
    {
      hide MetaOk, LiveOk, Sized, WfImage, TreeOf, GeoOk;
      if comp == DOT_NAME { return true, cur; }
      if comp == DOTDOT_NAME {
        if cur == ROOT_INO { return true, cur; }
        known, next := Up(cur);
        return;
      }
      known := true;
      next := LookUp(cur, comp);
    }

    // -------------------------------------------------------------- reading

    /** `read_file` */
    method ReadFile(path: seq<byte>, buffer: array<byte>) returns (outcome: Outcome, size: nat)
      requires Good()
      requires buffer != vol.gBuf && buffer != vol.gBuf2 && buffer != vol.dirBuf
      requires HasRoom(Target(path), buffer.Length)
      modifies vol.gBuf, vol.dirBuf, buffer
      ensures Good() && Contents() == old(Contents())
      ensures outcome == Beyond <==> !CanResolve(path)
      ensures outcome == Done <==> IsFile(Target(path))
      ensures outcome == Done ==> size <= buffer.Length && Stores(Target(path), buffer[..size])
    {
      hide MetaOk, LiveOk, TreeWf, TreeOf, Sized, WfImage, Resolve, Comps, NoUpFromFile, GeoOk;
      size := 0;
      var known, ino := ResolveRelative(path);
      ResolveIsLive(path);
      if !known { return Beyond, 0; }
      if ino == 0 { return Refused, 0; }
      var ok;
      ok, size := ReadInodeData(ino, buffer);
      outcome := if ok then Done else Refused;
    }

    method ReadInodeData(ino: nat, buffer: array<byte>) returns (ok: bool, size: nat)
      requires Sound() && ino in live && buffer != vol.gBuf && buffer != vol.gBuf2 && buffer != vol.dirBuf
      requires IsFile(ino) ==> |DataOf(ino)| <= buffer.Length
      modifies vol.gBuf, buffer
      ensures ok == IsFile(ino) && (ok ==> size == |DataOf(ino)| <= buffer.Length && buffer[..size] == DataOf(ino))
      ensures vol.disk[..] == old(vol.disk[..])
    {
      hide MetaOk, LiveOk, TreeOf, TreeOk, ViewOk, Sized, WfImage, Content, Slot, DirOk, GetU32, FileType, Size;
      ok, size := false, 0;
      LiveInode(ino);
      var readable, inode := vol.ReadInode(ino);
      if !readable { return; }
      if FileType(inode) == S_IFDIR { return; }
      size := Size(inode);
      ghost var img, data := vol.disk[..], DataOf(ino);
      dirs.data.ReadData(inode, buffer, ino);
      assert vol.disk[..] == img && DataOf(ino) == data;
      ok := true;
    }

    lemma ResolveIsLive(path: seq<byte>)
      requires Good()
      ensures 0 !in live && (Target(path) == 0 || (Target(path) in live && CanResolve(path)))
    {
      hide MetaOk, LiveOk, TreeOf, Comps, Walk, DirWf, OneName;
      WalkInTree(Contents(), Start(current, path), Comps(Strip(path)));
      if Target(path) != 0 { ArrivedCleanly(Contents(), Start(current, path), Comps(Strip(path))); }
    }

    // -------------------------------------------------------------- steps of writing

    /** `alloc_inode`: an inode that nothing refers to. */
    method ReserveInode(isDir: bool) returns (ino: nat)
      requires Sound()
      modifies vol`sb, vol.disk, vol.gBuf
      ensures Sound() && Contents() == old(Contents())
      ensures ino != 0 ==> Unlinked(ino)
      ensures vol.FreeNow() == old(vol.FreeNow())
      ensures if ino == 0 then old(vol.InodesNow()) == 0 else vol.InodesNow() + 1 == old(vol.InodesNow())
    {
      hide Sized, Used, UsedInode, TreeOk, GroupOk, ReservedOk, UsedOk, InVolume, LayoutOk, InodeOk, TreeOf, Slot,
        GetU32;
      ghost var img, sb0 := vol.disk[..], vol.sb;
      ino := vol.AllocInode(isDir);
      forall j: nat | IsInode(vol.geo, j)
        ensures KeepsFile(vol.geo, vol.lay, img, vol.roles, vol.disk[..], vol.roles, j)
      {
        CountersKeepFiles(vol.geo, vol.lay, sb0, img, vol.disk[..], vol.roles, j);
      }
      assert 0 !in live;
      AllLivesKept(img, vol.disk[..], vol.geo, vol.lay, vol.roles, vol.roles, live, 0);
      if ino in live { UsedLive(img, vol.roles, ino); }
    }

    lemma UsedLive(img: seq<Block>, use: map<nat, Role>, j: nat)
      requires Laid(img, vol.geo, vol.lay) && InodeOk(img, vol.geo, vol.lay, use, j)
      ensures IsInode(vol.geo, j) && UsedInode(img, vol.geo, vol.lay, j)
    {
      hide UsedInode, TreeOk, DirOk, Laid, Slot;
    }

    /** A taken inode outside the tree. */
    ghost predicate Unlinked(ino: nat)
      requires Sound()
      reads this, vol, vol.disk
    {
      ino !in live && IsInode(vol.geo, ino) && ino >= vol.geo.firstIno && UsedInode(vol.disk[..], vol.geo, vol.lay, ino)
    }

    /** Inode `ino`, taken but outside the tree, is in order and stores `obj`. */
    ghost predicate Complete(ino: nat, obj: Obj)
      requires Sound()
      reads this, vol, vol.disk
    {
      Unlinked(ino) && InodeOk(vol.disk[..], vol.geo, vol.lay, vol.roles, ino) &&
        ObjectOf(vol.disk[..], vol.geo, dirs.SlotOf(ino)) == obj
    }

    /** Work on an inode outside the tree leaves the tree alone. */
    twostate lemma OutsideWork(ino: nat)
      requires old(Sound()) && old(Unlinked(ino)) && Wired() && dirs.data.Only(old(vol.disk[..]), old(vol.roles), ino)
      requires live == old(live)
      ensures Sound() && Contents() == old(Contents()) && Unlinked(ino)
    {
      hide Sized, UsedInode, TreeOk, MetaOk, InodeOk, TreeOf, KeepsOthers, GeoOk, WfImage, LiveOk;
      AllLivesKept(old(vol.disk[..]), vol.disk[..], vol.geo, vol.lay, old(vol.roles), vol.roles, live, ino);
    }

    /** The blocks of a file of `size` bytes, index blocks included. */
    ghost function BlocksTaken(size: nat): nat {
      if PtrsPerBlock(vol.geo) > 0 then BlocksFor(PtrsPerBlock(vol.geo), NumBlocks(size, vol.geo.blockSize)) else 0
    }

    lemma HasPointers()
      requires GeoOk(vol.geo)
      ensures PtrsPerBlock(vol.geo) > 0
    {}

    /** The bytes, then size and sector count: the inode is a complete file, or a block was missing. */
    method FillInode(ino: nat, inode: Inode, data: seq<byte>) returns (ok: bool, full: bool, out: Inode)
      requires Sound() && Unlinked(ino) && dirs.files.Ready(inode, ino) && !IsDir(inode) && |data| < TWO_32
      modifies vol`sb, vol`roles, vol.disk, vol.gBuf, vol.gBuf2
      ensures Sound() && Contents() == old(Contents()) && Unlinked(ino) && dirs.files.Ready(out, ino)
      ensures ok ==> Complete(ino, File(data)) && out == dirs.SlotOf(ino)
      ensures |data| <= 12 * vol.geo.blockSize ==> SameIndexSlots(inode, out)
      ensures dirs.files.Spends(BlocksTaken(|data|), ok)
    {
      hide Sized, UsedInode, TreeOk, MetaOk, TreeOf, KeepsOthers, GeoOk, WfImage, LiveOk, ViewOk, Size, FileType, Whole,
        Chunk, BlockAt, SlotPtr, Slot, Content, OnlyFile, DirOk, BlocksFor, FreeBlocksCount;
      HasPointers();
      var used;
      ok, full, out, used := dirs.data.WriteData(inode, data, ino);
      OutsideWork(ino);
      if !ok { return; }
      OtherFields(inode, out);
      ghost var img, filled := vol.disk[..], out;
      label Filled:
      out := dirs.data.SetSize(ino, out, |data|, used * (vol.geo.blockSize / 512));
      OutsideWork@Filled(ino);
      SameFileBytes(img, filled, out, data, used);
      FileInOrder(ino, out, data);
    }

    lemma SameFileBytes(img: seq<Block>, filled: Inode, out: Inode, data: seq<byte>, used: nat)
      requires GeoOk(vol.geo) && WfImage(vol.disk[..], vol.geo) && WfImage(img, vol.geo)
      requires used == NumBlocks(|data|, vol.geo.blockSize) && Size(out) == |data|
      requires forall k: nat :: Chunk(vol.disk[..], vol.geo, out, k) == Chunk(img, vol.geo, filled, k)
      requires var w := Whole(img, vol.geo, filled, used); |data| <= |w| && w[..|data|] == data
      ensures Content(vol.disk[..], vol.geo, out) == data
    {
      hide Sized, Chunk, Size, GeoOk, WfImage;
      SameChunks(img, filled, vol.disk[..], out, vol.geo, used);
    }

    lemma FileInOrder(ino: nat, out: Inode, data: seq<byte>)
      requires Sound() && Unlinked(ino) && out == dirs.SlotOf(ino) && dirs.files.Ready(out, ino) && !IsDir(out)
      requires Content(vol.disk[..], vol.geo, out) == data
      ensures Complete(ino, File(data))
    {
      hide Sized, UsedInode, TreeOk, MetaOk, TreeOf, GeoOk, WfImage, LiveOk, Content, DirOk, FileType;
    }

    /** `add_dir_entry` as the tree sees it: the directory's map gains the name, or nothing happens. */
    method AddName(dir: nat, ino: nat, name: Name, kind: nat) returns (ok: bool)
      requires Sound() && IsDirectory(dir) && name !in NamesIn(dir) && name != DOTDOT_NAME
      requires 0 < ino < TWO_32 && kind < 256
      modifies vol`sb, vol`roles, vol.disk, vol.gBuf, vol.gBuf2, vol.dirBuf
      ensures Sound()
      ensures Contents() == if ok then old(Contents())[dir := Dir(old(NamesIn(dir))[name := ino])] else old(Contents())
      ensures forall j :: j in live && j != dir ==> dirs.SlotOf(j) == old(dirs.SlotOf(j))
      ensures dirs.files.Spends(4, ok || |name| > 255)
    {
      hide Sized, UsedInode, TreeOk, MetaOk, TreeOf, KeepsOthers, GeoOk, WfImage, LiveOk, ViewOk, Size, FileType, Chunk,
        AllRecs, Recs, Slot, DirOk, OnlyFile, Names;
      LiveInode(dir);
      ghost var names := NamesIn(dir);
      ok := dirs.AddDirEntry(dir, ino, name, kind);
      DirWork(dir);
    }

    /** `remove_dir_entry` as the tree sees it. */
    method DropName(dir: nat, name: Name) returns (ok: bool, target: nat)
      requires Sound() && IsDirectory(dir) && name != DOT_NAME && name != DOTDOT_NAME
      modifies vol.disk, vol.gBuf, vol.dirBuf
      ensures Sound() && ok == (name in old(NamesIn(dir))) && (ok ==> target == old(NamesIn(dir))[name])
      ensures Contents() == if ok then old(Contents())[dir := Dir(old(NamesIn(dir)) - {name})] else old(Contents())
      ensures forall j :: j in live && j != dir ==> dirs.SlotOf(j) == old(dirs.SlotOf(j))
    {
      hide Sized, UsedInode, TreeOk, MetaOk, TreeOf, KeepsOthers, GeoOk, WfImage, LiveOk, ViewOk, Size, FileType, Chunk,
        AllRecs, Recs, Slot, DirOk, OnlyFile, Names;
      LiveInode(dir);
      ok, target := dirs.RemoveDirEntry(dir, name);
      if ok { DirWork(dir); }
    }

    /** Work on one directory changes the tree in that directory alone. */
    twostate lemma DirWork(dir: nat)
      requires old(Sound()) && Wired() && live == old(live) && dir in live && old(Contents())[dir].Dir?
      requires dirs.DirReady(dir) && dirs.data.Only(old(vol.disk[..]), old(vol.roles), dir)
      ensures Sound() && Contents() == old(Contents())[dir := Dir(dirs.NamesOf(dir))]
      ensures forall j :: j in live && j != dir ==> dirs.SlotOf(j) == old(dirs.SlotOf(j))
    {
      hide Sized, UsedInode, TreeOk, MetaOk, GeoOk, WfImage, AllRecs, Slot, DirOk, Names, ObjectOf, InodeOk, ViewOk,
        KeepsFile;
      LivesKept(old(vol.disk[..]), vol.disk[..], vol.geo, vol.lay, old(vol.roles), vol.roles, live, dir);
      UsedLive(old(vol.disk[..]), old(vol.roles), dir);
      DirInOrder(dir);
      forall j | j in live && j != dir ensures dirs.SlotOf(j) == old(dirs.SlotOf(j)) {
        SlotKept(old(vol.disk[..]), vol.disk[..], vol.geo, vol.lay, old(vol.roles), vol.roles, j);
      }
      assert Contents() == old(Contents())[dir := Dir(dirs.NamesOf(dir))];
    }

    lemma DirInOrder(dir: nat)
      requires Wired() && dirs.DirReady(dir) && Laid(vol.disk[..], vol.geo, vol.lay) &&
        UsedInode(vol.disk[..], vol.geo, vol.lay, dir)
      ensures InodeOk(vol.disk[..], vol.geo, vol.lay, vol.roles, dir)
      ensures ObjectOf(vol.disk[..], vol.geo, dirs.SlotOf(dir)) == Dir(dirs.NamesOf(dir))
    {
      hide Sized, UsedInode, TreeOk, MetaOk, GeoOk, WfImage, AllRecs, Slot, Names;
    }

    /** `free_inode_blocks` and `free_inode` on an inode outside the tree: it and its blocks are free again. */
    method Discard(ino: nat, inode: Inode, isDir: bool)
      requires Sound() && Unlinked(ino) && dirs.files.Ready(inode, ino) && NoIndex(inode)
      modifies vol`sb, vol`roles, vol.disk, vol.gBuf
      ensures Sound() && Contents() == old(Contents())
      ensures vol.FreeNow() == old(vol.FreeNow()) + Held(inode, 12) &&
        vol.InodesNow() == old(vol.InodesNow()) + Counted(ino)
    {
      hide Sized, UsedInode, TreeOk, MetaOk, TreeOf, KeepsOthers, GeoOk, WfImage, LiveOk, ViewOk, SlotPtr, OnlyFile,
        SameOther, FreeBlocksCount, FreeInodesCount;
      var freed := dirs.data.FreeDirect(inode, ino);
      OutsideWork(ino);
      GiveInodeBack(ino, isDir);
    }

    /** `free_inode` ignores the first ten. */
    function Counted(ino: nat): nat { if ino > 10 then 1 else 0 }

    method GiveInodeBack(ino: nat, isDir: bool)
      requires Sound() && Unlinked(ino)
      modifies vol`sb, vol.disk, vol.gBuf
      ensures Sound() && Contents() == old(Contents())
      ensures vol.FreeNow() == old(vol.FreeNow()) && vol.InodesNow() == old(vol.InodesNow()) + Counted(ino)
    {
      hide Sized, Used, UsedInode, TreeOk, GroupOk, ReservedOk, UsedOk, InVolume, LayoutOk, InodeOk, TreeOf, Slot,
        FreeBlocksCount, FreeInodesCount;
      ghost var img, sb0 := vol.disk[..], vol.sb;
      vol.FreeInode(ino, isDir);
      forall j: nat | IsInode(vol.geo, j) && j != ino
        ensures KeepsFile(vol.geo, vol.lay, img, vol.roles, vol.disk[..], vol.roles, j)
      {
        CountersKeepFiles(vol.geo, vol.lay, sb0, img, vol.disk[..], vol.roles, j);
      }
      AllLivesKept(img, vol.disk[..], vol.geo, vol.lay, vol.roles, vol.roles, live, ino);
    }

    // -------------------------------------------------------------- writing

    /** The inode `write_file` starts a new file with: a regular file, mode 0644, one link, nothing else. */
    function NewFileInode(): (inode: Inode)
      ensures !IsDir(inode) && forall i :: 0 <= i < 15 ==> SlotPtr(inode, i) == 0
    {
      NewInodeIs(0x81A4, 1);
      NewInode(0x81A4, 1)
    }

    /** The tree gains a complete inode that was outside it. */
    ghost method Adopt(ino: nat, obj: Obj)
      requires Sound() && Complete(ino, obj)
      modifies `live
      ensures Sound() && live == old(live) + {ino} && Contents() == old(Contents())[ino := obj]
    {
      hide Sized, UsedInode, TreeOk, MetaOk, GeoOk, WfImage, DirOk, ObjectOf, Slot;
      live := live + {ino};
      assert Contents() == old(Contents())[ino := obj];
    }

    /** A live inode leaves the tree, before its blocks are freed. */
    ghost method Orphan(ino: nat)
      requires Sound() && ino in live && ino >= vol.geo.firstIno
      modifies `live
      ensures Sound() && live == old(live) - {ino} && Contents() == old(Contents()) - {ino} && Unlinked(ino)
    {
      hide Sized, UsedInode, TreeOk, MetaOk, GeoOk, WfImage, DirOk, ObjectOf, Slot;
      MetaIsLaid();
      UsedLive(vol.disk[..], vol.roles, ino);
      live := live - {ino};
      assert Contents() == old(Contents()) - {ino};
    }

    /** For a new file: an inode is free, and blocks for `size` bytes and for the directory to grow. */
    ghost predicate Enough(size: nat)
      reads vol`sb
    {
      vol.InodesNow() > 0 && vol.FreeNow() >= BlocksTaken(size) + 4
    }

    /** So many inodes were taken, and at most so many blocks. */
    twostate predicate Took(inodes: int, blocks: int)
      reads vol`sb
    {
      vol.InodesNow() + inodes == old(vol.InodesNow()) && vol.FreeNow() + blocks >= old(vol.FreeNow())
    }

    method CreateFile(dir: nat, name: Name, data: seq<byte>) returns (outcome: Outcome, ghost ino: nat)
      requires Sound() && IsDirectory(dir) && name !in NamesIn(dir) && name != DOTDOT_NAME && |data| < TWO_32
      modifies this`live, vol`sb, vol`roles, vol.disk, vol.gBuf, vol.gBuf2, vol.dirBuf
      ensures outcome == Done ==> Sound() && ino !in old(live) && ino >= vol.geo.firstIno &&
                                     Contents() == WithNew(old(Contents()), dir, name, ino, File(data))
      ensures outcome == Refused ==> Sound() && Contents() == old(Contents())
      ensures outcome == Beyond ==> |data| > 12 * vol.geo.blockSize
      ensures |name| <= 255 && old(Enough(|data|)) ==> outcome == Done
      ensures outcome == Done ==> Took(1, BlocksTaken(|data|) + 4)
    {
      hide Sized, UsedInode, TreeOk, MetaOk, TreeOf, GeoOk, WfImage, LiveOk, ViewOk, SlotPtr, Slot, InodeOk, Complete,
        WithNew, Contents, NoIndex, BlocksTaken, FreeBlocksCount, FreeInodesCount;
      ino := 0;
      ghost var t := Contents();
      var number := ReserveInode(false);
      if number == 0 { return Refused, 0; }
      ino := number;
      ReadyWithout(NewFileInode(), number);
      StillNoIndex(NewFileInode());
      var ok, full, inode := FillInode(number, NewFileInode(), data);
      if !ok {
        if !full { return Refused, ino; }
        if !NoIndex(inode) { return Beyond, ino; }
        Discard(number, inode, false);
        return Refused, ino;
      }
      outcome := LinkFile(dir, number, inode, name, data);
    }

    lemma StillNoIndex(x: Inode)
      requires forall i :: 0 <= i < 15 ==> SlotPtr(x, i) == 0
      ensures forall y :: SameIndexSlots(x, y) ==> NoIndex(y)
    {
      hide SlotPtr;
    }

    /** A complete file gets its name, or is given up. */
    method LinkFile(dir: nat, ino: nat, inode: Inode, name: Name, data: seq<byte>) returns (outcome: Outcome)
      requires Sound() && IsDirectory(dir) && name !in NamesIn(dir) && name != DOTDOT_NAME
      requires Complete(ino, File(data)) && inode == dirs.SlotOf(ino)
      modifies this`live, vol`sb, vol`roles, vol.disk, vol.gBuf, vol.gBuf2, vol.dirBuf
      ensures outcome == Done ==> Sound() && Contents() == WithNew(old(Contents()), dir, name, ino, File(data))
      ensures outcome == Refused ==> Sound() && Contents() == old(Contents())
      ensures outcome == Beyond ==> !NoIndex(inode)
      ensures |name| <= 255 && old(vol.FreeNow()) >= 4 ==> outcome == Done
      ensures outcome == Done ==> Took(0, 4)
    {
      hide Sized, UsedInode, TreeOk, MetaOk, TreeOf, GeoOk, WfImage, LiveOk, ViewOk, SlotPtr, Slot, InodeOk, NoIndex,
        Content;
      ghost var t := Contents();
      Adopt(ino, File(data));
      InodeNumberFits(ino);
      var ok := AddName(dir, ino, name, FT_REG_FILE);
      if !ok {
        LiveInode(ino);
        Orphan(ino);
        assert Contents() == t;
        if !NoIndex(inode) { return Beyond; }
        Discard(ino, inode, false);
        return Refused;
      }
      outcome := Done;
    }

    lemma MetaIsLaid()
      requires vol.Meta()
      ensures Laid(vol.disk[..], vol.geo, vol.lay)
    {
      hide Laid, LayoutOk, GroupOk, SuperOk, UsedOk, ReservedOk;
    }

    lemma InodeNumberFits(ino: nat)
      requires vol.Meta() && IsInode(vol.geo, ino)
      ensures 0 < ino < TWO_32
    {
      VolumeBounds(vol.geo);
    }

    /** A file without index blocks, and with those it gives back there are blocks for `size` bytes. */
    ghost predicate RoomToReplace(ino: nat, size: nat)
      reads this, vol, vol.disk, vol`sb
    {
      IsFile(ino) && NoIndex(dirs.SlotOf(ino)) && vol.FreeNow() + DirectBlocks(ino) >= BlocksTaken(size)
    }

    /** The direct blocks of a file. */
    ghost function DirectBlocks(ino: nat): nat
      reads this, vol, vol.disk
    {
      if IsFile(ino) then Held(dirs.SlotOf(ino), 12) else 0
    }

    /** The blocks of an inode outside the tree are freed, and the new bytes written through it. */
    method Refill(ino: nat, inode: Inode, data: seq<byte>) returns (ok: bool)
      requires Sound() && Unlinked(ino) && dirs.files.Ready(inode, ino) && NoIndex(inode) && !IsDir(inode)
      requires |data| < TWO_32
      modifies vol`sb, vol`roles, vol.disk, vol.gBuf, vol.gBuf2
      ensures Sound() && Contents() == old(Contents())
      ensures ok ==> Complete(ino, File(data))
      ensures old(vol.FreeNow()) + Held(inode, 12) >= BlocksTaken(|data|) ==> ok
      ensures Took(0, BlocksTaken(|data|) - Held(inode, 12))
    {
      hide Sized, UsedInode, TreeOk, MetaOk, TreeOf, GeoOk, WfImage, LiveOk, ViewOk, SlotPtr, Slot, InodeOk, NoIndex,
        Content, FileType, OnlyFile, SameOther, BlocksTaken, FreeBlocksCount, FreeInodesCount, Held, Complete;
      var cleared := dirs.data.FreeDirect(inode, ino);
      OutsideWork(ino);
      OtherFields(inode, cleared);
      var full, out;
      ok, full, out := FillInode(ino, cleared, data);
    }

    /** The blocks of an existing file are freed and the new bytes written through the same inode. */
    method Overwrite(ino: nat, data: seq<byte>) returns (outcome: Outcome)
      requires Sound() && ino in live && NoneReserved() && |data| < TWO_32
      modifies this`live, vol`sb, vol`roles, vol.disk, vol.gBuf, vol.gBuf2
      ensures outcome != Refused
      ensures outcome == Done ==>
                old(IsFile(ino)) && ino >= vol.geo.firstIno && Sound() && live == old(live) &&
                  Contents() == old(Contents())[ino := File(data)]
      ensures old(RoomToReplace(ino, |data|)) ==> outcome == Done
      ensures outcome == Done ==> Took(0, BlocksTaken(|data|) - old(DirectBlocks(ino)))
    {
      hide Sized, UsedInode, TreeOk, MetaOk, TreeOf, GeoOk, WfImage, LiveOk, ViewOk, SlotPtr, Slot, InodeOk, NoIndex,
        Content, FileType, BlocksTaken, FreeBlocksCount, Held;
      LiveInode(ino);
      var readable, inode := vol.ReadInode(ino);
      if IsDir(inode) || !NoIndex(inode) { return Beyond; }
      ghost var t := Contents();
      Orphan(ino);
      var ok := Refill(ino, inode, data);
      if !ok { return Beyond; }
      Adopt(ino, File(data));
      assert Contents() == t[ino := File(data)];
      outcome := Done;
    }

    /** What the directory has under the name. */
    ghost function Under(dir: nat, name: Name): nat
      reads this, vol, vol.disk
    {
      if IsDirectory(dir) && name in NamesIn(dir) then NamesIn(dir)[name] else 0
    }

    ghost function UnderPath(path: seq<byte>): nat
      reads this, vol, vol.disk
    {
      Under(FrontOf(path), LastName(path))
    }

    /** What writing `size` bytes takes: for a new file an inode, its blocks and at most four for the directory; for
        an old one its blocks less those it gave back. */
    twostate predicate TookUnder(f: nat, held: nat, size: nat)
      reads vol`sb
    {
      if f == 0 then Took(1, BlocksTaken(size) + 4) else Took(0, BlocksTaken(size) - held)
    }

    /** `write_file` */
    method WriteFile(path: seq<byte>, data: seq<byte>) returns (outcome: Outcome, ghost ino: nat)
      requires Good() && |data| < TWO_32
      modifies this`live, vol`sb, vol`roles, vol.disk, vol.gBuf, vol.gBuf2, vol.dirBuf
      ensures outcome == Refused ==> Good() && Contents() == old(Contents())
      ensures outcome == Done ==>
                Good() && WrittenTree(old(Contents()), Contents(), old(FrontOf(path)), LastName(path), ino, data)
      ensures outcome == Beyond ==>
                |data| > 12 * vol.geo.blockSize || old(Exists(path)) || !old(CanResolve(ParentPath(path)))
      ensures old(CanWrite(path, |data|)) ==> outcome == Done
      ensures outcome == Done ==> TookUnder(old(UnderPath(path)), old(DirectBlocks(UnderPath(path))), |data|)
    {
      hide MetaOk, LiveOk, TreeWf, TreeOf, Sized, WfImage, Resolve, Comps, NoUpFromFile, GeoOk, Contents, Slot,
        WrittenTree, NoIndex, BlocksTaken;
      ino := 0;
      var known, dir, name := FindParent(path);
      if !known { return Beyond, 0; }
      if dir == 0 { return Refused, 0; }
      outcome, ino := WriteUnder(dir, name, data);
    }

    /** The directory and the name a path speaks of; 0 if there is no such directory. */
    method FindParent(path: seq<byte>) returns (known: bool, dir: nat, name: Name)
      requires Good()
      modifies vol.gBuf, vol.dirBuf
      ensures Good() && Contents() == old(Contents())
      ensures known == (LastName(path) == [] || CanResolve(ParentPath(path)))
      ensures known && dir != 0 ==> IsDirectory(dir) && dir == FrontOf(path) && name == LastName(path) != []
      ensures !known || dir == 0 ==> LastName(path) == [] || !IsDirectory(FrontOf(path))
    {
      hide MetaOk, LiveOk, TreeWf, TreeOf, Sized, WfImage, Resolve, Comps, NoUpFromFile, GeoOk, Contents, Slot, Front,
        Back, FileType, LastName, ParentPath, LastStart, Cut, Strip;
      var parent;
      parent, name := SplitPath(path);
      PathParts(path);
      if name == [] { return true, 0, name; }
      known, dir := ResolveRelative(parent);
      ResolveIsLive(parent);
      if !known || dir == 0 { return; }
      LiveInode(dir);
      var readable, inode := vol.ReadInode(dir);
      if !readable || FileType(inode) != S_IFDIR { dir := 0; }
    }

    ghost predicate Exists(path: seq<byte>)
      requires Sound()
      reads this, vol, vol.disk
    {
      Has(Contents(), FrontOf(path), LastName(path))
    }

    /** The front of the path leads to a directory, and there is room under the last name. */
    ghost predicate CanWrite(path: seq<byte>, size: nat)
      reads this, vol, vol.disk, vol`sb
    {
      LastName(path) != [] && RoomUnder(FrontOf(path), LastName(path), size)
    }

    /** Room for a new file, or for new bytes in the one that has the name. */
    ghost predicate RoomUnder(dir: nat, name: Name, size: nat)
      reads this, vol, vol.disk, vol`sb
    {
      IsDirectory(dir) && if name in NamesIn(dir) then RoomToReplace(NamesIn(dir)[name], size) else Enough(size)
    }

    method WriteUnder(dir: nat, name: Name, data: seq<byte>) returns (outcome: Outcome, ghost ino: nat)
      requires Good() && IsDirectory(dir) && 0 < |name| <= MAX_COMPONENT && |data| < TWO_32
      modifies this`live, vol`sb, vol`roles, vol.disk, vol.gBuf, vol.gBuf2, vol.dirBuf
      ensures outcome == Refused ==> Good() && Contents() == old(Contents())
      ensures outcome == Done ==> Good() && WrittenTree(old(Contents()), Contents(), dir, name, ino, data)
      ensures outcome == Beyond ==> |data| > 12 * vol.geo.blockSize || name in old(NamesIn(dir))
      ensures old(RoomUnder(dir, name, |data|)) ==> outcome == Done
      ensures outcome == Done ==> TookUnder(old(Under(dir, name)), old(DirectBlocks(Under(dir, name))), |data|)
    {
      hide MetaOk, LiveOk, TreeWf, TreeOf, Sized, WfImage, Contents, Slot, WithNew, BlocksTaken, NoIndex, RoomToReplace,
        Enough;
      ghost var t := Contents();
      var found := LookUp(dir, name);
      assert Contents() == t && NamesIn(dir) == t[dir].names;
      NamesInOrder(t, dir, name);
      if found != 0 {
        ino := found;
        outcome := Overwrite(found, data);
      } else {
        outcome, ino := CreateFile(dir, name, data);
      }
      if outcome == Done { GoodAfterWrite(t, dir, name, ino, data); }
    }

    // -------------------------------------------------------------- directories

    /** An inode is free, a block for the new directory, and four for its parent to grow. */
    ghost predicate EnoughForDir()
      reads vol`sb
    {
      vol.InodesNow() > 0 && vol.FreeNow() >= 5
    }

    /** The directory has no such name, and there is room. */
    ghost predicate CanMake(dir: nat, name: Name)
      reads this, vol, vol.disk, vol`sb
    {
      IsDirectory(dir) && name !in NamesIn(dir) && EnoughForDir()
    }

    ghost predicate CanMakeDir(path: seq<byte>)
      reads this, vol, vol.disk, vol`sb
    {
      LastName(path) != [] && CanMake(FrontOf(path), LastName(path))
    }

    /** `create_dir` */
    method CreateDir(path: seq<byte>) returns (outcome: Outcome, ghost ino: nat)
      requires Good()
      modifies this`live, vol`sb, vol`roles, vol.disk, vol.gBuf, vol.gBuf2, vol.dirBuf
      ensures outcome == Refused ==> Good() && Contents() == old(Contents())
      ensures outcome == Done ==>
        Good() && MadeDir(old(Contents()), Contents(), old(FrontOf(path)), LastName(path), ino)
      ensures outcome == Beyond <==>
                LastName(path) != [] && (!old(CanResolve(ParentPath(path))) || old(IsFile(FrontOf(path))))
      ensures old(CanMakeDir(path)) ==> outcome == Done
      ensures outcome == Done ==> Took(1, 5)
    {
      hide MetaOk, LiveOk, TreeWf, TreeOf, Sized, WfImage, GeoOk, Contents, Slot, Front, Back, WithNew, LastName,
        ParentPath, LastStart, Cut, Strip, Target, CanResolve, CanMake, MadeDir;
      ino := 0;
      var parent, name := SplitPath(path);
      assert parent == ParentPath(path) && name == LastName(path) by { PathParts(path); }
      if name == [] { return Refused, 0; }
      var known, dir := ResolveRelative(parent);
      ResolveIsLive(parent);
      NoneAtZero(name);
      if !known { return Beyond, 0; }
      if dir == 0 { return Refused, 0; }
      outcome, ino := CreateUnder(dir, name);
    }

    lemma NoneAtZero(name: Name)
      requires 0 !in live
      ensures !CanMake(0, name)
    {
      hide LiveOk, TreeOf;
    }

    method CreateUnder(dir: nat, name: Name) returns (outcome: Outcome, ghost ino: nat)
      requires Good() && dir in live && 0 < |name| <= MAX_COMPONENT
      modifies this`live, vol`sb, vol`roles, vol.disk, vol.gBuf, vol.gBuf2, vol.dirBuf
      ensures outcome == Refused ==> Good() && Contents() == old(Contents())
      ensures outcome == Done ==> Good() && MadeDir(old(Contents()), Contents(), dir, name, ino)
      ensures outcome == Beyond <==> old(IsFile(dir))
      ensures old(CanMake(dir, name)) ==> outcome == Done
      ensures outcome == Done ==> Took(1, 5)
    {
      hide MetaOk, LiveOk, TreeWf, TreeOf, Sized, WfImage, GeoOk, Contents, Slot, WithNew;
      ghost var t := Contents();
      ino := 0;
      var found := LookUp(dir, name);
      NamesInOrder(t, dir, name);
      if found != 0 { return Refused, 0; }
      LiveInode(dir);
      var readable, inode := vol.ReadInode(dir);
      if !IsDir(inode) { return Beyond, 0; }
      outcome, ino := MakeDir(dir, name);
    }

    method MakeDir(dir: nat, name: Name) returns (outcome: Outcome, ghost ino: nat)
      requires Good() && IsDirectory(dir) && name !in NamesIn(dir) && name != DOTDOT_NAME
      modifies this`live, vol`sb, vol`roles, vol.disk, vol.gBuf, vol.gBuf2, vol.dirBuf
      ensures outcome != Beyond && Good()
      ensures if outcome == Done
              then ino !in old(live) && Contents() == WithNew(old(Contents()), dir, name, ino, Dir(Dots(ino, dir)))
              else Contents() == old(Contents())
      ensures |name| <= 255 && old(EnoughForDir()) ==> outcome == Done
      ensures outcome == Done ==> Took(1, 5)
    {
      hide Sized, UsedInode, TreeOk, MetaOk, TreeOf, GeoOk, WfImage, LiveOk, ViewOk, SlotPtr, Slot, InodeOk, Complete,
        WithNew, NoIndex, TreeWf, ObjectOf;
      ghost var t := Contents();
      var number := ReserveInode(true);
      if number == 0 { return Refused, 0; }
      ino := number;
      LiveInode(dir);
      InodeNumberFits(dir);
      InodeNumberFits(number);
      var ok, inode := FillDirInode(number, dir);
      if !ok {
        GiveInodeBack(number, true);
        return Refused, ino;
      }
      outcome := LinkDir(dir, number, inode, name);
      if outcome == Done { GoodAfterDir(t, dir, name, number); }
    }

    lemma GoodAfterDir(t: FsTree, dir: nat, name: Name, ino: nat)
      requires Sound() && TreeWf(t) && dir in t && t[dir].Dir? && name !in t[dir].names && ino !in t && ino != 0
      requires Contents() == WithNew(t, dir, name, ino, Dir(Dots(ino, dir)))
      requires current in t && t[current].Dir? && forall f :: f in t && t[f].File? ==> f >= vol.geo.firstIno
      ensures Good()
    {
      hide MetaOk, LiveOk, TreeWf, TreeOf, Sized, WfImage, GeoOk;
      NewKeepsWf(t, dir, name, ino, Dir(Dots(ino, dir)));
    }

    /** A complete directory gets its name, or is given up. */
    method LinkDir(dir: nat, ino: nat, inode: Inode, name: Name) returns (outcome: Outcome)
      requires Sound() && IsDirectory(dir) && name !in NamesIn(dir) && name != DOTDOT_NAME && 0 < ino < TWO_32
      requires Complete(ino, Dir(Dots(ino, dir))) && inode == dirs.SlotOf(ino) && NoIndex(inode)
      modifies this`live, vol`sb, vol`roles, vol.disk, vol.gBuf, vol.gBuf2, vol.dirBuf
      ensures outcome != Beyond && Sound()
      ensures Contents() == if outcome == Done then WithNew(old(Contents()), dir, name, ino, Dir(Dots(ino, dir)))
        else old(Contents())
      ensures |name| <= 255 && old(vol.FreeNow()) >= 4 ==> outcome == Done
      ensures outcome == Done ==> Took(0, 4)
    {
      hide Sized, UsedInode, TreeOk, MetaOk, TreeOf, GeoOk, WfImage, LiveOk, ViewOk, SlotPtr, Slot, InodeOk, NoIndex,
        ObjectOf, WithNew;
      ghost var t := Contents();
      Adopt(ino, Dir(Dots(ino, dir)));
      CountLink(dir);
      var ok := AddName(dir, ino, name, FT_DIR);
      if !ok {
        LiveInode(ino);
        Orphan(ino);
        assert Contents() == t;
        Discard(ino, inode, true);
        return Refused;
      }
      WithNewIs(t, dir, name, ino);
      outcome := Done;
    }

    lemma WithNewIs(t: FsTree, dir: nat, name: Name, ino: nat)
      requires dir in t && t[dir].Dir? && ino !in t
      ensures WithNew(t, dir, name, ino, Dir(Dots(ino, dir))) ==
        t[ino := Dir(Dots(ino, dir))][dir := Dir(t[dir].names[name := ino])]
    {}

    /** The parent's link count goes up; its names stay. */
    method CountLink(dir: nat)
      requires Sound() && IsDirectory(dir)
      modifies vol.disk, vol.gBuf
      ensures Sound() && Contents() == old(Contents())
      ensures forall j :: j in live && j != dir ==> dirs.SlotOf(j) == old(dirs.SlotOf(j))
    {
      hide Sized, UsedInode, TreeOk, MetaOk, TreeOf, KeepsOthers, GeoOk, WfImage, LiveOk, ViewOk, Size, FileType, Chunk,
        AllRecs, Recs, Slot, DirOk, OnlyFile, Names;
      LiveInode(dir);
      dirs.AddLink(dir);
      DirWork(dir);
      assert Contents() == old(Contents());
    }

    /** The new directory's inode with its one block. */
    method FillDirInode(ino: nat, parent: nat) returns (ok: bool, out: Inode)
      requires Sound() && Unlinked(ino) && 0 < parent < TWO_32 && 0 < ino < TWO_32
      modifies vol`sb, vol`roles, vol.disk, vol.gBuf, vol.gBuf2
      ensures Sound() && Contents() == old(Contents()) && Unlinked(ino)
      ensures ok ==> Complete(ino, Dir(Dots(ino, parent))) && out == dirs.SlotOf(ino) && NoIndex(out)
      ensures dirs.files.Spends(1, ok)
    {
      hide Sized, UsedInode, TreeOk, MetaOk, TreeOf, KeepsOthers, WfImage, LiveOk, ViewOk, Size, FileType, Chunk,
        BlockAt, SlotPtr, Slot, OnlyFile, DirOk, DotBytes, ObjectOf, KeepsBlocks, Capacity;
      NewInodeIs(0x41ED, 2);
      out := NewInode(0x41ED, 2);
      ReadyWithout(out, ino);
      StillNoIndex(out);
      ghost var before := out;
      var blk := dirs.data.NewBlock(out, DotBytes(ino, parent, vol.geo.blockSize), ino);
      OutsideWork(ino);
      if blk == 0 { return false, out; }
      ghost var img1 := vol.disk[..];
      label Made:
      ok, out := dirs.data.LinkBlock(out, 0, blk, ino);
      OutsideWork@Made(ino);
      OtherFields(before, out);
      StillNoIndex2(before, out);
      ghost var linked := out;
      label Linked:
      out := dirs.data.SetSize(ino, out, vol.geo.blockSize, vol.geo.blockSize / 512);
      OutsideWork@Linked(ino);
      DirInOrderOutside(ino, out, parent);
    }

    lemma StillNoIndex2(x: Inode, y: Inode)
      requires NoIndex(x) && SameIndexSlots(x, y)
      ensures NoIndex(y)
    {
      hide SlotPtr;
    }

    lemma DirInOrderOutside(ino: nat, out: Inode, parent: nat)
      requires Sound() && Unlinked(ino) && out == dirs.SlotOf(ino) && dirs.files.Ready(out, ino)
      requires 0 < ino < TWO_32 && 0 < parent < TWO_32
      requires IsDir(out) && Size(out) == vol.geo.blockSize && BlockAt(vol.disk[..], PtrsPerBlock(vol.geo), out, 0) != 0
      requires Chunk(vol.disk[..], vol.geo, out, 0)[..22] == DotBytes(ino, parent, vol.geo.blockSize)
      ensures Complete(ino, Dir(Dots(ino, parent)))
    {
      hide Sized, UsedInode, TreeOk, MetaOk, TreeOf, WfImage, LiveOk, Chunk, BlockAt, Names, AllRecs, DotBytes, DirOk,
        Size;
      NewDirIs(vol.disk[..], vol.geo, out, ino, parent);
    }

    lemma ReadyWithout(inode: Inode, ino: nat)
      requires Sound() && forall i :: 0 <= i < 15 ==> SlotPtr(inode, i) == 0
      ensures dirs.files.Ready(inode, ino)
    {
      hide Sized, GeoOk, WfImage, GroupOk, SuperOk, LiveOk, InodeOk, SlotPtr, TreeOk;
      EmptyTree(vol.disk[..], PtrsPerBlock(vol.geo), inode, ino, vol.roles);
    }

    ghost predicate CanDelete(path: seq<byte>)
      reads this, vol, vol.disk
    {
      Deletable(FrontOf(path), LastName(path))
    }

    /** The file's inode and its `blocks` blocks are free that were not before. */
    twostate predicate Freed(f: nat, blocks: nat)
      reads vol`sb
    {
      vol.InodesNow() == old(vol.InodesNow()) + Counted(f) && vol.FreeNow() == old(vol.FreeNow()) + blocks
    }

    /** `delete_file` */
    method DeleteFile(path: seq<byte>) returns (outcome: Outcome)
      requires Good()
      modifies this`live, vol`sb, vol`roles, vol.disk, vol.gBuf, vol.dirBuf
      ensures outcome == Refused ==>
                Good() && Contents() == old(Contents()) && !Has(old(Contents()), old(FrontOf(path)), LastName(path))
      ensures outcome == Done ==> Good() && Deleted(old(Contents()), Contents(), old(FrontOf(path)), LastName(path))
      ensures outcome == Done ==> Freed(old(UnderPath(path)), old(DirectBlocks(UnderPath(path))))
      ensures outcome == Beyond <==>
                !old(CanResolve(ParentPath(path))) || !(old(FrontOf(path)) == 0 || old(CanDelete(path)))
    {
      hide MetaOk, LiveOk, TreeWf, TreeOf, Sized, WfImage, GeoOk, Contents, Slot, Front, Back, Deletable, Deleted, Has,
        Under, DirectBlocks, LastName, ParentPath, LastStart, Cut, Strip, Target, CanResolve;
      var parent, name := SplitPath(path);
      ghost var t := Contents();
      assert parent == ParentPath(path) && name == LastName(path) by { PathParts(path); }
      var known, dir := ResolveRelative(parent);
      ResolveIsLive(parent);
      if !known { return Beyond; }
      if dir == 0 {
        NothingAtZero(t, name);
        return Refused;
      }
      outcome := DeleteUnder(dir, name);
    }

    lemma NothingAtZero(t: FsTree, name: Name)
      requires 0 !in t
      ensures !Has(t, 0, name)
    {}

    lemma PathParts(path: seq<byte>)
      ensures ParentPath(path) == Cut(Front(Strip(path)), MAX_PARENT) &&
        LastName(path) == Cut(Back(Strip(path)), MAX_COMPONENT)
    {}

    /** A name other than the dots in a directory, that leads to a file without index blocks, if anywhere. */
    ghost predicate Deletable(dir: nat, name: Name)
      reads this, vol, vol.disk
    {
      IsDirectory(dir) && name != DOT_NAME && name != DOTDOT_NAME &&
      (name in NamesIn(dir) ==> IsFile(NamesIn(dir)[name]) && NoIndex(dirs.SlotOf(NamesIn(dir)[name])))
    }

    method DeleteUnder(dir: nat, name: Name) returns (outcome: Outcome)
      requires Good() && dir in live
      modifies this`live, vol`sb, vol`roles, vol.disk, vol.gBuf, vol.dirBuf
      ensures outcome == Refused ==> Good() && Contents() == old(Contents()) && !Has(old(Contents()), dir, name)
      ensures outcome == Done ==>
        Good() && Deleted(old(Contents()), Contents(), dir, name) &&
          Freed(old(Under(dir, name)), old(DirectBlocks(Under(dir, name))))
      ensures outcome == Beyond <==> !old(Deletable(dir, name))
    {
      hide MetaOk, LiveOk, TreeWf, TreeOf, Sized, WfImage, GeoOk, Contents, Slot, Names, DirOk, AllRecs, ViewOk, TreeOk,
        FileType, SlotPtr, OnlyFile, NoIndex;
      ghost var t := Contents();
      LiveInode(dir);
      var readable, inode := vol.ReadInode(dir);
      if FileType(inode) != S_IFDIR || name == DOT_NAME || name == DOTDOT_NAME { return Beyond; }
      NamesInOrder(t, dir, name);
      var ok, target := DropName(dir, name);
      if !ok { return Refused; }
      outcome := DropTarget(dir, target);
      if outcome == Done { DeleteKeepsWf(t, dir, name); }
    }

    /** The file a removed name led to is freed. */
    method DropTarget(ghost dir: nat, target: nat) returns (outcome: Outcome)
      requires Sound() && target in live && NoneReserved()
      modifies this`live, vol`sb, vol`roles, vol.disk, vol.gBuf
      ensures outcome != Refused
      ensures outcome == Done ==>
        old(IsFile(target)) && Sound() && live == old(live) - {target} && Contents() == old(Contents()) - {target} &&
        Freed(target, old(DirectBlocks(target)))
      ensures outcome == Beyond <==> !old(IsFile(target) && NoIndex(dirs.SlotOf(target)))
    {
      hide MetaOk, LiveOk, TreeOf, Sized, WfImage, GeoOk, Slot, DirOk, ViewOk, TreeOk, FileType, SlotPtr, NoIndex,
        UsedInode;
      LiveInode(target);
      var readable, inode := vol.ReadInode(target);
      if IsDir(inode) || !NoIndex(inode) { return Beyond; }
      Orphan(target);
      Discard(target, inode, false);
      outcome := Done;
    }

    lemma GoodAfterWrite(t: FsTree, dir: nat, name: Name, ino: nat, data: seq<byte>)
      requires Sound() && TreeWf(t) && WrittenTree(t, Contents(), dir, name, ino, data) && ino >= vol.geo.firstIno
      requires current in t && t[current].Dir? && forall f :: f in t && t[f].File? ==> f >= vol.geo.firstIno
      ensures Good()
    {
      hide MetaOk, LiveOk, TreeWf, TreeOf, Sized, WfImage, GeoOk;
      if name in t[dir].names {
        BytesKeepWf(t, ino, data);
      } else {
        NewKeepsWf(t, dir, name, ino, File(data));
      }
    }
  }

  /** `write_file`, then `read_file` of the same path. When writing is done, the path leads to the file written if
      it is one that reads back, and then the same bytes are read, whatever the length; any other path means what it
      meant before. Every other file is as it was, and every path that led somewhere still leads there. */
  method WriteThenRead(fs: FileSystem, path: seq<byte>, data: seq<byte>, buffer: array<byte>)
    returns (outcome: Outcome, read: Outcome, size: nat, ghost ino: nat)
    requires fs.Good() && |data| < TWO_32 && |data| <= buffer.Length && fs.HasRoom(fs.Target(path), buffer.Length)
    requires buffer != fs.vol.gBuf && buffer != fs.vol.gBuf2 && buffer != fs.vol.dirBuf
    modifies fs`live, fs.vol`sb, fs.vol`roles, fs.vol.disk, fs.vol.gBuf, fs.vol.gBuf2, fs.vol.dirBuf, buffer
    ensures outcome == Done ==> fs.Good() && fs.Stores(ino, data)
    ensures outcome == Done ==> fs.Target(path) == if old(fs.RoundTrips(path)) then ino else old(fs.Target(path))
    ensures outcome == Done ==> (fs.Target(path) == ino <==> old(fs.RoundTrips(path)))
    ensures outcome == Done && old(fs.RoundTrips(path)) ==>
              read == Done && size == |data| && buffer[..size] == data
    ensures outcome == Done ==> (read == Done <==> fs.IsFile(fs.Target(path)))
    ensures outcome == Done && read == Done ==> size <= buffer.Length && fs.Stores(fs.Target(path), buffer[..size])
    ensures outcome == Done ==> OthersKept(old(fs.Contents()), fs.Contents(), old(fs.FrontOf(path)), ino)
    ensures outcome == Done ==> PathsKept(old(fs.Contents()), fs.Contents(), fs.current)
  {
    hide MetaOk, LiveOk, TreeWf, TreeOf, Sized, WfImage, Resolve, GeoOk, WrittenTree, LastName, ParentPath, Strip, Has,
      OthersKept, PathsKept, ReadsBack;
    ghost var t := fs.Contents();
    read, size := Refused, 0;
    outcome, ino := fs.WriteFile(path, data);
    if outcome == Done {
      WrittenIsRead(t, fs.Contents(), fs.current, path, ino, data);
      OldTarget(t, fs.Contents(), fs.current, path, ino, data);
      read, size := fs.ReadFile(path, buffer);
    }
  }
}
