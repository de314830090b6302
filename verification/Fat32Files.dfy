/** The file operations of a mounted FAT32 volume, in its current directory. */
module Fat32Files {
  import opened Bytes
  import opened Fat32Table
  import opened Fat32Dir
  import opened Fat32State
  import opened Fat32Names
  import opened Fat32Steps
  import opened Fat32Volume

  const BUFFER: nat := 4096

  /** How an operation ends: with its effect, refused, or in a case that this model does not follow further. */
  datatype Outcome = Done | Refused | Beyond

  class FatFiles {
    const vol: FatVolume
    var current: nat
    /** Every chain of the volume that is looked after: those of the directory's entries and any others. */
    ghost var chains: Chains

    /** The state after `mount`, in the root directory. */
    constructor (volume: FatVolume, root: nat, ghost family: Chains)
      requires SECTOR * volume.geo.perCluster <= BUFFER && Whole(volume.disk[..], volume.geo, family, root)
      ensures Sound() && vol == volume && current == root && chains == family
    {
      vol, current, chains := volume, root, family;
    }

    ghost predicate Ground()
      reads this, vol.disk
    {
      SECTOR * vol.geo.perCluster <= BUFFER && Base(vol.disk[..], vol.geo, chains, current)
    }

    /** The chains are sound, and the entries of the directory name files of its chains. */
    ghost predicate Sound()
      reads this, vol.disk
    {
      SECTOR * vol.geo.perCluster <= BUFFER && Whole(vol.disk[..], vol.geo, chains, current)
    }

    ghost function Img(): seq<Sector>
      reads vol.disk
    {
      vol.disk[..]
    }

    ghost function Dir(): seq<Ent>
      requires Ground()
      reads this, vol.disk
    {
      EntsIn(Img(), vol.geo, chains, current)
    }

    // -------------------------------------------------------------- looking for an entry

    /** One sector of the scan: the first entry that ends it or that has the name, 16 if neither is there. */
    method ScanSector(b: Sector, n: Name83) returns (r: nat)
      requires |b| == SECTOR
      ensures r <= PER_DIR_SECTOR
      ensures forall k :: 0 <= k < r ==> FirstByte(EntAt(b, k)) != 0 && !Hit(EntAt(b, k), n)
      ensures r < PER_DIR_SECTOR ==> FirstByte(EntAt(b, r)) == 0 || Hit(EntAt(b, r), n)
    {
      r := 0;
      while r < PER_DIR_SECTOR
        invariant r <= PER_DIR_SECTOR
        invariant forall k :: 0 <= k < r ==> FirstByte(EntAt(b, k)) != 0 && !Hit(EntAt(b, k), n)
      {
        var e := EntAt(b, r);
        if FirstByte(e) == 0 { return; }
        if FirstByte(e) != DELETED && AttrOf(e) != ATTR_LONG_NAME && NameOf(e) == n { return; }
        r := r + 1;
      }
    }

    /** `find_entry`: the entry that `Find` finds, and where it is. */
    method FindEntry(n: Name83) returns (ok: bool, e: Ent, lba: nat, off: nat)
      requires Ground()
      ensures ok <==> Find(Dir(), n) >= 0
      ensures ok ==> Located(Img(), vol.geo, chains, current, Find(Dir(), n), e, lba, off)
    {
      hide Base, Find, Hit, Passed, WfDisk, Sectors, Span, Lba, EntAt, EntsOf;
      DirChain(Img(), vol.geo, chains, current);
      ghost var es, d := Dir(), chains[current];
      var cluster: nat := current;
      ghost var i := 0;
      SpanNext(vol.geo, 0);
      NonePassed(es, n);
      while cluster != 0 && cluster < FIRST_END
        invariant i <= |d| && AtChain(d, i, cluster)
        invariant Passed(es, n, PER_DIR_SECTOR * Span(vol.geo, i))
        decreases |d| - i
      {
        assert cluster == d[i] && IsCluster(vol.geo, cluster);
        var start := Lba(vol.geo, cluster);
        var s := 0;
        while s < vol.geo.perCluster
          invariant s <= vol.geo.perCluster && Passed(es, n, PER_DIR_SECTOR * (Span(vol.geo, i) + s))
        {
          SectorAt(vol.geo, d, i, s);
          ghost var j := Span(vol.geo, i) + s;
          DirSector(Img(), vol.geo, d, j);
          var b := vol.disk[start + s];
          var r := ScanSector(b, n);
          PassSector(Img(), vol.geo, d, n, j, r);
          if r < PER_DIR_SECTOR {
            e := EntAt(b, r);
            if FirstByte(e) == 0 {
              ok, lba, off := false, 0, 0;
              return;
            }
            ok, lba, off := true, start + s, r * ENTRY;
            PlaceOf(Img(), vol.geo, chains, current, j, r);
            return;
          }
          s := s + 1;
        }
        SpanNext(vol.geo, i);
        NextOf(Img(), vol.geo, d, i);
        cluster := vol.NextCluster(cluster);
        i := i + 1;
      }
      assert i == |d|;
      FoundAt(es, n, |es|);
      ok, e, lba, off := false, seq(32, _ => 0), 0, 0;
    }

    // -------------------------------------------------------------- marking, creating

    /** `delete_file`: the entry found is marked; its clusters stay in use. */
    method MarkDeleted(path: seq<byte>) returns (ok: bool)
      requires Ground()
      modifies vol.disk
      ensures Ground() && SameFat(old(Img()), Img(), vol.geo)
      ensures Keeps(old(Img()), Img(), vol.geo, chains - {current})
      ensures ok <==> old(Find(Dir(), ShortName(Stripped(path)))) >= 0
      ensures Dir() == if ok then WithMark(old(Dir()), Find(old(Dir()), ShortName(Stripped(path)))) else old(Dir())
    {
      hide Base, Find, WfDisk, Sectors, Span, EntAt, EntsOf, Patch, SameFat, Apart, Kept;
      var n := NameTo83(Stripped(path));
      ghost var img := Img();
      OthersHere(img, vol.geo, chains, current);
      var e, lba, off;
      ok, e, lba, off := FindEntry(n);
      if !ok {
        NothingChanged(img, vol.geo, chains, current);
        return;
      }
      ghost var k := Find(Dir(), n);
      EntryPut(img, vol.geo, chains, current, k, e, lba, off, e[0 := DELETED]);
      assert |vol.disk[lba]| == SECTOR;
      MarkedEntry(vol.disk[lba], off / ENTRY);
      var sector := vol.disk[lba][off := DELETED];
      vol.disk[lba] := sector;
      assert Img() == img[lba := Patch(img[lba], off, e[0 := DELETED])];
    }

    /** One sector of the slot search: its first free entry, 16 if there is none. */
    method ScanFree(b: Sector) returns (r: nat)
      requires |b| == SECTOR
      ensures r <= PER_DIR_SECTOR && forall k :: 0 <= k < r ==> !Free(EntAt(b, k))
      ensures r < PER_DIR_SECTOR ==> Free(EntAt(b, r))
    {
      r := 0;
      while r < PER_DIR_SECTOR
        invariant r <= PER_DIR_SECTOR && forall k :: 0 <= k < r ==> !Free(EntAt(b, k))
      {
        var first := FirstByte(EntAt(b, r));
        if first == 0 || first == DELETED { return; }
        r := r + 1;
      }
    }

    /** `create_file_entry`: the first free slot of the directory takes the entry. Where all slots are taken the
        source goes on with a new cluster that it does not clear; there this method gives up. */
    method CreateFileEntry(n: Name83, attr: byte, first: nat) returns (ok: bool, ghost k: nat)
      requires Ground() && first < TWO_32
      modifies vol.disk
      ensures ok <==> !Taken(old(Dir()), |old(Dir())|)
      ensures !ok ==> vol.disk[..] == old(vol.disk[..])
      ensures ok ==> Ground() && SameFat(old(Img()), Img(), vol.geo)
      ensures ok ==> Keeps(old(Img()), Img(), vol.geo, chains - {current})
      ensures ok ==> k < |old(Dir())| && Free(old(Dir())[k]) && Taken(old(Dir()), k)
      ensures ok ==> Dir() == old(Dir())[k := NewEnt(n, attr, first, 0)]
    {
      hide Base, Find, WfDisk, Sectors, Span, Lba, EntAt, EntsOf, Patch, SameFat, Apart, Kept, Free, NewEnt, Taken;
      ghost var img := Img();
      OthersHere(img, vol.geo, chains, current);
      DirChain(img, vol.geo, chains, current);
      ghost var es, d := Dir(), chains[current];
      var cluster: nat := current;
      ghost var i := 0;
      SpanNext(vol.geo, 0);
      NoneTaken(es);
      while cluster != 0 && cluster < FIRST_END
        invariant i <= |d| && AtChain(d, i, cluster) && vol.disk[..] == img
        invariant Taken(es, PER_DIR_SECTOR * Span(vol.geo, i))
        decreases |d| - i
      {
        assert cluster == d[i] && IsCluster(vol.geo, cluster);
        var start := Lba(vol.geo, cluster);
        var s := 0;
        while s < vol.geo.perCluster
          invariant s <= vol.geo.perCluster && Taken(es, PER_DIR_SECTOR * (Span(vol.geo, i) + s)) && vol.disk[..] == img
        {
          SectorAt(vol.geo, d, i, s);
          ghost var j := Span(vol.geo, i) + s;
          DirSector(img, vol.geo, d, j);
          var lba := start + s;
          assert vol.disk[lba] == img[lba];
          var r := ScanFree(vol.disk[lba]);
          TakenSector(img, vol.geo, d, j, r);
          if r < PER_DIR_SECTOR {
            k := PER_DIR_SECTOR * j + r;
            PlaceOf(img, vol.geo, chains, current, j, r);
            var e := NewEnt(n, attr, first, 0);
            EntryPut(img, vol.geo, chains, current, k, EntAt(img[lba], r), lba, r * ENTRY, e);
            vol.disk[lba] := Patch(vol.disk[lba], r * ENTRY, e);
            assert vol.disk[..] == img[lba := Patch(img[lba], r * ENTRY, e)];
            SomeFree(es, k);
            ok := true;
            return;
          }
          s := s + 1;
        }
        SpanNext(vol.geo, i);
        NextOf(img, vol.geo, d, i);
        cluster := vol.NextCluster(cluster);
        i := i + 1;
      }
      assert i == |d|;
      ok, k := false, 0;
    }

    // -------------------------------------------------------------- writing clusters

    /** Allocates a cluster and links it behind the last one. */
    method AppendCluster(prev: nat, ghost s: seq<nat>) returns (c: nat)
      requires Ground() && Growing(Img(), vol.geo, chains, s) && prev == if s == [] then 0 else s[|s| - 1]
      modifies vol.disk
      ensures Ground()
      ensures c == 0 <==> FreeSet(old(Img()), vol.geo) == {}
      ensures c == 0 ==> Img() == old(Img())
      ensures c != 0 ==> IsCluster(vol.geo, c) && Growing(Img(), vol.geo, chains, s + [c])
      ensures c != 0 ==> Keeps(old(Img()), Img(), vol.geo, chains) && SameData(old(Img()), Img(), vol.geo)
      ensures c != 0 ==>
        c in FreeSet(old(Img()), vol.geo) && FreeSet(Img(), vol.geo) == FreeSet(old(Img()), vol.geo) - {c}
    {
      hide Fat, Mirrored, WfDisk, SameData, ChainOk, Kept, ChainsOk, Apart;
      ghost var img := Img();
      c := vol.AllocCluster();
      if c == 0 {
        forall x: nat ensures x !in FreeSet(img, vol.geo) {
          if IsCluster(vol.geo, x) {
            InFat(img, vol.geo, x);
            assert vol.At(x) != 0;
          }
        }
        return;
      }
      LastEntry(img, vol.geo, chains, s);
      InFat(img, vol.geo, c);
      ghost var mid := Img();
      SmallCluster(img, vol.geo, c);
      forall x: nat | x < Entries(vol.geo) ensures Fat(mid, vol.geo, x) == if x == c then END_MARK
        else Fat(img, vol.geo, x) {
        assert vol.At(x) == if x == c then END_MARK else old(vol.At(x));
      }
      label Linking:
      if prev != 0 { vol.SetCluster(prev, c); }
      forall x: nat | x < Entries(vol.geo)
        ensures Fat(Img(), vol.geo, x) == if x == c then END_MARK else if s != [] &&
          x == s[|s| - 1] then c else Fat(img, vol.geo, x)
      {
        assert vol.At(x) == if prev != 0 && x == prev then c % TWO_28 else old@Linking(vol.At(x));
      }
      SameDataTrans(img, mid, Img(), vol.geo);
      Grown(img, Img(), vol.geo, chains, current, s, c);
    }

    /** One turn of the loop of `write_file`: a cluster more, with the next `n` bytes and zeros behind them. */
    method PutCluster(prev: nat, data: seq<byte>, at: nat, n: nat, buf: array<byte>, ghost s: seq<nat>) returns (c: nat)
      requires Ground() && Growing(Img(), vol.geo, chains, s) && prev == if s == [] then 0 else s[|s| - 1]
      requires at + n <= |data| && n <= SECTOR * vol.geo.perCluster && buf.Length == BUFFER
      requires at == SECTOR * Span(vol.geo, |s|) && Stored(Img(), vol.geo, s, data[..at])
      modifies vol.disk, buf
      ensures Ground() && Keeps(old(Img()), Img(), vol.geo, chains)
      ensures c == 0 <==> FreeSet(old(Img()), vol.geo) == {}
      ensures c == 0 ==> Img() == old(Img())
      ensures c != 0 ==> Growing(Img(), vol.geo, chains, s + [c]) && Stored(Img(), vol.geo, s + [c], data[..at + n])
      ensures c != 0 ==>
        c in FreeSet(old(Img()), vol.geo) && FreeSet(Img(), vol.geo) == FreeSet(old(Img()), vol.geo) - {c}
    {
      hide Fat, Mirrored, WfDisk, SameData, ChainOk, Kept, ChainsOk, Apart, Stored, Growing, Run, BytesOf, SameFat;
      var geo := vol.geo;
      ghost var img := Img();
      AllKept(img, geo, chains, current);
      c := AppendCluster(prev, s);
      if c == 0 { return; }
      ghost var linked := Img();
      StoredStays(img, linked, geo, s, data[..at]);
      var bytesPerCluster := SECTOR * geo.perCluster;
      forall q | 0 <= q < bytesPerCluster { buf[q] := 0; }
      forall q | 0 <= q < n { buf[q] := data[at + q]; }
      vol.WriteCluster(c, buf);
      ClusterWritten(linked, Img(), geo, chains, current, s, c);
      KeepsTrans(img, linked, Img(), geo, chains);
      FreeSame(linked, Img(), geo);
      assert buf[..bytesPerCluster][..n] == data[at..at + n];
      StoredMore(linked, Img(), geo, s, c, data, at, n);
    }

    /** The loop of `write_file`: as many clusters as the bytes take. It fails exactly when the free clusters run
        out, and then leaves the chain it has built. */
    method WriteChain(data: seq<byte>) returns (ok: bool, first: nat, ghost s: seq<nat>)
      requires Ground()
      modifies vol.disk
      ensures Ground() && Keeps(old(Img()), Img(), vol.geo, chains)
      ensures Growing(Img(), vol.geo, chains, s) && first == if s == [] then 0 else s[0]
      ensures FreeSet(Img(), vol.geo) == FreeSet(old(Img()), vol.geo) - SetOf(s)
      ensures vol.geo.perCluster > 0
      ensures ok <==> Need(SECTOR * vol.geo.perCluster, |data|) <= |FreeSet(old(Img()), vol.geo)|
      ensures ok ==> Stored(Img(), vol.geo, s, data) && (s == [] <==> data == [])
    {
      hide Mirrored, InRange, ChainsOk, WfDisk, SetOf, FreeSet, Kept, Apart, Need, Stored, Growing;
      var geo := vol.geo;
      ghost var img := Img();
      NothingWritten(img, geo, chains, current, data[..0]);
      var bytesPerCluster := SECTOR * geo.perCluster;
      var buf := new byte[BUFFER];
      var prev: nat, remaining: nat, at: nat := 0, |data|, 0;
      ok, first, s := true, 0, [];
      while remaining > 0
        invariant Ground() && Keeps(img, Img(), geo, chains) && at + remaining == |data|
        invariant Growing(Img(), geo, chains, s) && first == (if s == [] then 0 else s[0]) && (s == [] <==> first == 0)
        invariant prev == if s == [] then 0 else s[|s| - 1]
        invariant FreeSet(Img(), geo) == FreeSet(img, geo) - SetOf(s) && SetOf(s) <= FreeSet(img, geo) &&
          |SetOf(s)| == |s|
        invariant Stored(Img(), geo, s, data[..at]) && (s == [] <==> at == 0)
        invariant remaining > 0 ==> at == SECTOR * Span(geo, |s|)
        invariant |s| + Need(bytesPerCluster, remaining) == Need(bytesPerCluster, |data|)
      {
        NeedMore(bytesPerCluster, remaining);
        ghost var was := Img();
        var toWrite := if remaining < bytesPerCluster then remaining else bytesPerCluster;
        var c := PutCluster(prev, data, at, toWrite, buf, s);
        KeepsTrans(img, was, Img(), geo, chains);
        if c == 0 {
          FullNow(FreeSet(img, geo), SetOf(s));
          ok := false;
          return;
        }
        if first == 0 { first := c; }
        OneMore(FreeSet(img, geo), s, c);
        SpanNext(geo, |s|);
        s := s + [c];
        at, remaining, prev := at + toWrite, remaining - toWrite, c;
      }
      assert data[..at] == data;
      NeedNothing(bytesPerCluster);
      SizeWithin(FreeSet(img, geo), SetOf(s));
    }

    // -------------------------------------------------------------- whole files

    /** What is in the directory under a name: the bytes of a file, or nothing. */
    ghost function FileOf(m: Name83): Option<seq<byte>>
      requires Sound()
      reads this, vol.disk
    {
      FileIn(Img(), vol.geo, chains, current, m)
    }

    /** The clusters that writing `n` can use: the free ones and those of the file it replaces. */
    ghost function Room(n: Name83): nat
      requires Sound()
      reads this, vol.disk
    {
      |FreeSet(Img(), vol.geo)| + if ChainOf(Dir(), n) in chains then |chains[ChainOf(Dir(), n)]| else 0
    }

    /** The entry under the name cannot be replaced: it is one of the two that lead back, or a second slash makes
        `delete_file`, which skips one of its own, look for another name. */
    ghost predicate Stuck(name: seq<byte>)
      requires Sound()
      reads this, vol.disk
    {
      var g := Get(Dir(), ShortName(name));
      g.Some? && (!Named(g.value) || ShortName(Stripped(name)) != ShortName(name))
    }

    /** `free_chain` on a chain of the family. */
    method ReleaseChain(c: nat)
      requires Ground() && c in chains && c != current
      modifies this`chains, vol.disk
      ensures Ground() && chains == old(chains) - {c} && Keeps(old(Img()), Img(), vol.geo, chains)
      ensures |FreeSet(Img(), vol.geo)| == |FreeSet(old(Img()), vol.geo)| + |old(chains)[c]|
    {
      hide Fat, Mirrored, WfDisk, SameData, ChainOk, Kept, Apart, Followed, InRange, FreeSet, SetOf;
      ghost var img, s := Img(), chains[c];
      HeadInFat(img, vol.geo, chains, current, c);
      ghost var met := vol.FreeChain(c);
      FollowedIn(img, vol.geo, c, met);
      FollowedChain(img, vol.geo, s, met, Fat(img, vol.geo, met[|met| - 1]));
      forall x: nat | x < Entries(vol.geo) ensures Fat(Img(), vol.geo, x) == if x in s then 0
        else Fat(img, vol.geo, x) {
        assert vol.At(x) == if x in met then 0 else old(vol.At(x));
      }
      Released(img, Img(), vol.geo, chains, current, c);
      OthersWithout(img, vol.geo, chains, current, c);
      chains := chains - {c};
    }

    /** What `write_file` does with an old file: its chain is freed and its entry marked. */
    method Discard(name: seq<byte>, n: Name83, c: nat)
      requires Sound() && n == ShortName(name) == ShortName(Stripped(name))
      requires Get(Dir(), n).Some? && Named(Get(Dir(), n).value) && c == ClusterOf(Get(Dir(), n).value)
      modifies this`chains, vol.disk
      ensures Ground() && OldGone(old(Img()), Img(), vol.geo, old(chains), chains, current, n)
      ensures |FreeSet(Img(), vol.geo)| == old(Room(n)) && !Taken(Dir(), |Dir()|)
    {
      hide Base, DirOk, Listed, EntsIn, Find, WfDisk, Sectors, SameFat, Apart, Kept, ClusterOf, FreeSet, FileIn,
        OldGone, Taken, Whole;
      ghost var img, cs, es := Img(), chains, EntsNow();
      WholeParts(img, vol.geo, cs, current);
      NoZeroChain(img, vol.geo, cs, current);
      FoundOk(es, vol.geo, cs, current, n);
      if c >= 2 {
        ReleaseChain(c);
      } else {
        assert cs - {0} == cs;
        AllKept(img, vol.geo, cs, current);
      }
      ghost var mid := Img();
      SameDirectory(img, mid, vol.geo, cs, chains, current);
      var marked := MarkDeleted(name);
      KeepsPart(img, mid, vol.geo, chains, chains - {current});
      KeepsTrans(img, mid, Img(), vol.geo, chains - {current});
      FreeSame(mid, Img(), vol.geo);
      Removed(img, Img(), vol.geo, cs, chains, current, n);
    }

    /** The start of `write_file`. Where the old entry is one that the steps would break, the method gives up. */
    method RemoveOld(name: seq<byte>, n: Name83) returns (done: bool)
      requires Sound() && n == ShortName(name)
      modifies this`chains, vol.disk
      ensures done <==> !old(Stuck(name))
      ensures done ==> Sound() && OldGone(old(Img()), Img(), vol.geo, old(chains), chains, current, n)
      ensures done ==> |FreeSet(Img(), vol.geo)| == old(Room(n))
      ensures done ==> if old(Get(Dir(), n)).Some? then !Taken(Dir(), |Dir()|) else Dir() == old(Dir())
    {
      hide Base, DirOk, Listed, EntsIn, Find, WfDisk, Sectors, SameFat, Apart, Kept, ClusterOf, FreeSet, FileIn,
        OldGone, Taken;
      WholeParts(Img(), vol.geo, chains, current);
      NoZeroChain(Img(), vol.geo, chains, current);
      var ok, e, lba, off := FindEntry(n);
      if !ok {
        NotThere(Img(), vol.geo, chains, current, n);
        return true;
      }
      FoundOk(EntsNow(), vol.geo, chains, current, n);
      if IsDirectory(e) && Dots(NameOf(e)) { return false; }
      var deleted := NameTo83(Stripped(name));
      if deleted != n { return false; }
      Discard(name, n, ClusterOf(e));
      OldGoneWhole(old(Img()), Img(), vol.geo, old(chains), chains, current, n);
      done := true;
    }

    ghost function EntsNow(): seq<Ent>
      requires Sound()
      reads this, vol.disk
    {
      WholeParts(Img(), vol.geo, chains, current);
      EntsIn(Img(), vol.geo, chains, current)
    }

    /** The second look-up of `write_file` and the size: it fails exactly on a name that begins with the deletion
        mark, whose entry it cannot find. */
    method SetSize(n: Name83, first: nat, size: nat, ghost es: seq<Ent>, ghost k: nat)
      requires Ground() && DirOk(es) && k < |es| && Free(es[k]) && Taken(es, k) && Get(es, n) == None && n[0] != 0
      requires first < TWO_32 && size < TWO_32 && Dir() == es[k := NewEnt(n, ATTR_ARCHIVE, first, 0)]
      modifies vol.disk
      ensures Ground() && Keeps(old(Img()), Img(), vol.geo, chains - {current})
      ensures Dir() == es[k := NewEnt(n, ATTR_ARCHIVE, first, if n[0] == DELETED then 0 else size)]
    {
      hide Base, DirOk, EntsIn, Find, WfDisk, Sectors, SameFat, Apart, Kept, Taken, NewEnt, EntAt, Patch, Free;
      ghost var img := Img();
      NothingChanged(img, vol.geo, chains, current);
      AddedEntry(es, k, n, first, 0);
      var ok, e, lba, off := FindEntry(n);
      if ok {
        EntryPut(img, vol.geo, chains, current, k, e, lba, off, NewEnt(n, ATTR_ARCHIVE, first, size));
        assert |vol.disk[lba]| == SECTOR && vol.disk[lba] == img[lba];
        SizedEntry(vol.disk[lba], off / ENTRY, n, ATTR_ARCHIVE, first, size, 0);
        vol.disk[lba] := PutU32(vol.disk[lba], off + 28, size);
        assert Img() == img[lba := Patch(img[lba], off, NewEnt(n, ATTR_ARCHIVE, first, size))];
      }
    }

    /** The chain that was written joins the family. */
    ghost method JoinChain(s: seq<nat>)
      requires Sound() && Growing(Img(), vol.geo, chains, s)
      modifies this`chains
      ensures Sound() && chains == (if s == [] then old(chains) else old(chains)[s[0] := s]) && Dir() == old(Dir())
      ensures s != [] ==> s[0] != current && s[0] !in old(chains) && 2 <= s[0] < TWO_28 && Unlisted(Dir(), s[0])
      ensures forall c :: c in old(chains) ==> c in chains && chains[c] == old(chains)[c]
      ensures forall m: Name83 :: FileOf(m) == old(FileOf(m))
    {
      hide Base, DirOk, Listed, EntsIn, WfDisk, Sectors, Apart, FileIn, Growing, Unlisted, Whole;
      WholeParts(Img(), vol.geo, chains, current);
      if s != [] {
        GrowingHead(Img(), vol.geo, chains, s);
        JoinedWhole(Img(), vol.geo, chains, current, s);
        ghost var cs := chains;
        chains := chains[s[0] := s];
        WholeParts(Img(), vol.geo, chains, current);
        forall m: Name83 ensures FileOf(m) == old(FileOf(m)) {
          assert FileOf(m) == FileIn(Img(), vol.geo, cs[s[0] := s], current, m);
        }
      }
    }

    /** The end of `write_file`: the entry is created and gets its size. */
    method PutEntry(n: Name83, first: nat, data: seq<byte>) returns (ok: bool)
      requires Sound() && Get(Dir(), n) == None && n[0] != 0 && |data| < TWO_32 && first < TWO_28
      requires first != 0 ==> first in chains && first != current && Stored(Img(), vol.geo, chains[first], data)
      requires if first == 0 then data == [] else Unlisted(Dir(), first)
      modifies vol.disk
      ensures ok <==> !Taken(old(Dir()), |old(Dir())|)
      ensures ok ==> Sound() && Keeps(old(Img()), Img(), vol.geo, chains - {current})
      ensures ok ==> forall m: Name83 :: m != n ==> Get(Dir(), m) == Get(old(Dir()), m)
      ensures ok ==> forall m: Name83 :: FileOf(m) == if m == n && n[0] != DELETED then Some(data) else old(FileOf(m))
    {
      hide Base, DirOk, Listed, EntsIn, Find, WfDisk, Sectors, SameFat, Apart, Kept, ClusterOf, FileIn, Stored, Get,
        Whole;
      hide Taken, Unlisted, NewEnt, EntAt, Patch, BytesOf, Free;
      ghost var img, es := Img(), EntsNow();
      WholeParts(img, vol.geo, chains, current);
      ghost var k;
      ok, k := CreateFileEntry(n, ATTR_ARCHIVE, first);
      if ok {
        ghost var entered := Img();
        SetSize(n, first, |data|, es, k);
        KeepsTrans(img, entered, Img(), vol.geo, chains - {current});
        Added(img, Img(), vol.geo, chains, current, n, k, first, data, if n[0] == DELETED then 0 else |data|);
        forall m: Name83 ensures FileOf(m) == if m == n && n[0] != DELETED then Some(data) else old(FileOf(m)) {
          assert FileOf(m) == FileIn(Img(), vol.geo, chains, current, m);
          assert old(FileOf(m)) == FileIn(img, vol.geo, chains, current, m);
        }
      }
    }

    /** The clusters are written and their chain joins the family: the directory and its files are as before. */
    method PutClusters(data: seq<byte>) returns (ok: bool, first: nat)
      requires Sound()
      modifies this`chains, vol.disk
      ensures vol.geo.perCluster > 0 && Sound() && Dir() == old(Dir())
      ensures ok <==> Need(SECTOR * vol.geo.perCluster, |data|) <= |FreeSet(old(Img()), vol.geo)|
      ensures ok ==> first < TWO_28 && if first == 0 then data == [] else Unlisted(Dir(), first)
      ensures ok && first != 0 ==> first in chains && first != current && Stored(Img(), vol.geo, chains[first], data)
      ensures Keeps(old(Img()), Img(), vol.geo, old(chains))
      ensures forall c :: c in old(chains) ==> c in chains && chains[c] == old(chains)[c]
      ensures forall m: Name83 :: FileOf(m) == old(FileOf(m))
    {
      hide Base, DirOk, Listed, EntsIn, WfDisk, Sectors, Apart, Kept, FreeSet, FileIn, Stored, Growing, Whole, Unlisted,
        Need;
      ghost var img := Img();
      WholeParts(img, vol.geo, chains, current);
      ghost var s;
      ok, first, s := WriteChain(data);
      Unmoved(img, Img(), vol.geo, chains, current);
      forall m: Name83 ensures FileOf(m) == old(FileOf(m)) {
        assert FileOf(m) == FileIn(Img(), vol.geo, chains, current, m);
        assert old(FileOf(m)) == FileIn(img, vol.geo, chains, current, m);
      }
      label Written:
      if ok {
        JoinChain(s);
        forall m: Name83 ensures FileOf(m) == old(FileOf(m)) { assert FileOf(m) == old@Written(FileOf(m)); }
      }
    }

    /** The middle and the end of `write_file`. */
    method AddFile(n: Name83, data: seq<byte>) returns (outcome: Outcome)
      requires Sound() && Get(Dir(), n) == None && n[0] != 0 && |data| < TWO_32
      modifies this`chains, vol.disk
      ensures vol.geo.perCluster > 0
      ensures outcome == Refused <==> |FreeSet(old(Img()), vol.geo)| < Need(SECTOR * vol.geo.perCluster, |data|)
      ensures outcome == Done ==> !Taken(old(Dir()), |old(Dir())|)
      ensures outcome == Beyond ==> Taken(old(Dir()), |old(Dir())|)
      ensures outcome != Beyond ==> Sound() && Keeps(old(Img()), Img(), vol.geo, old(chains) - {current})
      ensures outcome != Beyond ==> forall c :: c in old(chains) ==> c in chains && chains[c] == old(chains)[c]
      ensures outcome != Beyond ==> forall m: Name83 :: m != n ==> Get(Dir(), m) == Get(old(Dir()), m)
      ensures outcome != Beyond ==> forall m: Name83 ::
        FileOf(m) == if m == n && outcome == Done && n[0] != DELETED then Some(data) else old(FileOf(m))
    {
      hide Base, DirOk, Listed, EntsIn, WfDisk, Sectors, Apart, Kept, FreeSet, FileIn, Stored, Whole, Get, Taken, Need,
        Unlisted;
      ghost var img, cs := Img(), chains;
      var ok, first := PutClusters(data);
      ghost var written := Img();
      KeepsPart(img, written, vol.geo, cs, cs - {current});
      if !ok {
        outcome := Refused;
        return;
      }
      label Written:
      var entered := PutEntry(n, first, data);
      if !entered {
        outcome := Beyond;
        return;
      }
      KeepsPart(written, Img(), vol.geo, chains - {current}, cs - {current});
      KeepsTrans(img, written, Img(), vol.geo, cs - {current});
      outcome := Done;
      forall m: Name83 ensures FileOf(m) == if m == n && n[0] != DELETED then Some(data) else old(FileOf(m)) {
        assert FileOf(m) == if m == n && n[0] != DELETED then Some(data) else old@Written(FileOf(m));
      }
    }

    /** `write_file`. It gives up exactly on an old entry it cannot replace and in a directory without a free slot;
        otherwise it is done exactly when the clusters suffice, counting those of the file it replaces. Then the
        name holds the bytes, unless it begins with the deletion mark; when the clusters do not suffice the old file
        is lost all the same. Every other name, and every chain but the directory's and the old file's, is kept. */
    method WriteFile(path: seq<byte>, data: seq<byte>) returns (outcome: Outcome)
      requires Sound() && 0 !in path && |data| < TWO_32
      modifies this`chains, vol.disk
      ensures vol.geo.perCluster > 0
      ensures outcome == Beyond <==> old(Stuck(Stripped(path))) || old(NoSlot(ShortName(Stripped(path)), |data|))
      ensures outcome != Beyond ==> Sound()
      ensures outcome != Beyond ==>
        (outcome == Done <==> Need(SECTOR * vol.geo.perCluster, |data|) <= old(Room(ShortName(Stripped(path)))))
      ensures outcome != Beyond ==> forall m: Name83 ::
        FileOf(m) == if m != ShortName(Stripped(path)) then old(FileOf(m))
                     else if outcome == Done && !Marked(Stripped(path)) then Some(data) else None
      ensures outcome != Beyond ==> forall m: Name83 ::
        m != ShortName(Stripped(path)) ==> Get(Dir(), m) == Get(old(Dir()), m)
      ensures outcome != Beyond ==> Keeps(old(Img()), Img(), vol.geo, old(OtherChains(ShortName(Stripped(path)))))
      ensures outcome != Beyond ==> forall c :: c in old(OtherChains(ShortName(Stripped(path)))) ==>
        c in chains && chains[c] == old(chains)[c]
    {
      hide Base, DirOk, Listed, EntsIn, WfDisk, Sectors, Apart, Kept, FreeSet, FileIn, Stored, Whole, Get, Taken, Need;
      hide Named, ChainOf, UpperAll, Extension, StemLength, OldGone;
      var name := Stripped(path);
      NameStart(name);
      var n := NameTo83(name);
      ghost var img, cs := Img(), chains;
      WholeParts(img, vol.geo, cs, current);
      var removed := RemoveOld(name, n);
      if !removed {
        outcome := Beyond;
        ClustersExist(img, vol.geo);
        return;
      }
      NoChainOf(img, vol.geo, cs, current, n);
      ghost var cleared, mid := Img(), chains;
      OldGoneParts(img, cleared, vol.geo, cs, mid, current, n);
      label Removed:
      outcome := AddFile(n, data);
      if outcome != Beyond {
        forall m: Name83 ensures FileOf(m) == if m != n then old(FileOf(m)) else if outcome == Done &&
          n[0] != DELETED then Some(data) else None {
          assert FileOf(m) == if m == n && outcome == Done &&
            n[0] != DELETED then Some(data) else old@Removed(FileOf(m));
          assert old@Removed(FileOf(m)) == FileIn(cleared, vol.geo, mid, current, m);
          assert old(FileOf(m)) == FileIn(img, vol.geo, cs, current, m);
        }
        KeepsTrans(img, cleared, Img(), vol.geo, mid - {current});
      }
    }

    /** The chains that writing `n` must not touch. */
    ghost function OtherChains(n: Name83): Chains
      requires Sound()
      reads this, vol.disk
    {
      chains - {ChainOf(Dir(), n)} - {current}
    }

    /** A new name, clusters enough, and no slot for the entry: where the source would make the directory grow. */
    ghost predicate NoSlot(n: Name83, size: nat)
      requires Sound()
      reads this, vol.disk
    {
      vol.geo.perCluster > 0 && Get(Dir(), n) == None && Taken(Dir(), |Dir()|) &&
      Need(SECTOR * vol.geo.perCluster, size) <= |FreeSet(Img(), vol.geo)|
    }

    /** `read_file`: the bytes of the file of that name, if there is one. The last cluster is read whole, so the
        buffer has room for whole clusters. */
    method ReadFile(path: seq<byte>, buffer: array<byte>) returns (ok: bool, size: nat)
      requires Sound() && vol.geo.perCluster > 0
      requires FileOf(ShortName(Stripped(path))).Some? ==>
        Rounded(vol.geo, |FileOf(ShortName(Stripped(path))).value|) <= buffer.Length
      modifies buffer
      ensures ok <==> path != [SLASH] && FileOf(ShortName(Stripped(path))).Some?
      ensures ok ==> size <= buffer.Length && Some(buffer[..size]) == FileOf(ShortName(Stripped(path)))
    {
      hide Base, DirOk, Listed, EntsIn, WfDisk, Sectors, Apart, Find, Need, ClusterOf, SizeOf, ShortName, Content,
        Whole;
      if path == [SLASH] { return false, 0; }
      var n := NameTo83(Stripped(path));
      WholeParts(Img(), vol.geo, chains, current);
      var e, lba, off;
      ok, e, lba, off := FindEntry(n);
      if !ok {
        NoFile(Img(), vol.geo, chains, current, n);
        return false, 0;
      }
      FoundOk(EntsNow(), vol.geo, chains, current, n);
      if IsDirectory(e) { return false, 0; }
      size := SizeOf(e);
      var start := ClusterOf(e);
      EntryParts(Img(), vol.geo, chains, current, e);
      if start >= 2 { ReadChain(start, size, buffer, chains[start]); }
    }

    /** The loop of `read_file`. */
    method ReadChain(start: nat, size: nat, buffer: array<byte>, ghost s: seq<nat>)
      requires vol.Ready() && vol.geo.perCluster > 0 && Rounded(vol.geo, size) <= buffer.Length
      requires ChainOk(Img(), vol.geo, s) && s[0] == start && size <= SECTOR * Span(vol.geo, |s|)
      modifies buffer
      ensures Clusters(vol.geo, s) && size <= buffer.Length && buffer[..size] == BytesOf(Img(), vol.geo, s)[..size]
    {
      hide WfDisk, Sectors, Span, Need, BytesOf, ChainOk, Run, Mirrored, Rounded, Data;
      var geo := vol.geo;
      var bytesPerCluster := SECTOR * geo.perCluster;
      ChainFacts(Img(), geo, s);
      ghost var whole, i := BytesOf(Img(), geo, s), 0;
      SpanNext(geo, 0);
      var cluster: nat, remaining: nat, at: nat := start, size, 0;
      while cluster != 0 && cluster < FIRST_END && remaining > 0
        invariant i <= |s| && AtChain(s, i, cluster) && at + remaining == size && at <= buffer.Length
        invariant remaining > 0 ==> at == SECTOR * Span(geo, i)
        invariant remaining > 0 ==> i + Need(bytesPerCluster, remaining) == Need(bytesPerCluster, size)
        invariant buffer[..at] == whole[..at]
        decreases |s| - i
      {
        ReadStep(geo, size, remaining, i);
        var toRead := if remaining < bytesPerCluster then remaining else bytesPerCluster;
        assert cluster == s[i];
        vol.ReadCluster(cluster, buffer, at);
        ClusterBytes(Img(), geo, s, i);
        BufferGrows(buffer[..], whole, at, bytesPerCluster, toRead);
        NextOf(Img(), geo, s, i);
        at, remaining := at + toRead, remaining - toRead;
        cluster := vol.NextCluster(cluster);
        i := i + 1;
      }
    }

    /** `delete_file` on a volume in order: the directory loses exactly that name, and not one cluster is freed. */
    method DeleteFile(path: seq<byte>) returns (ok: bool)
      requires Sound()
      modifies vol.disk
      ensures Sound() && (ok <==> old(Get(Dir(), ShortName(Stripped(path)))).Some?)
      ensures FreeSet(Img(), vol.geo) == FreeSet(old(Img()), vol.geo) && (!ok ==> Dir() == old(Dir()))
      ensures forall m: Name83 :: Get(Dir(), m) == if m == ShortName(Stripped(path)) then None else Get(old(Dir()), m)
      ensures forall m: Name83 :: FileOf(m) == if m == ShortName(Stripped(path)) then None else old(FileOf(m))
      ensures Keeps(old(Img()), Img(), vol.geo, chains - {current})
    {
      hide Base, DirOk, Listed, EntsIn, WfDisk, Sectors, Apart, Kept, FreeSet, FileIn, Whole, ShortName, Find, SameFat;
      ghost var img, es, n := Img(), EntsNow(), ShortName(Stripped(path));
      WholeParts(img, vol.geo, chains, current);
      ok := MarkDeleted(path);
      FreeSame(img, Img(), vol.geo);
      MarkedGone(img, Img(), vol.geo, chains, current, n);
      forall m: Name83 ensures FileOf(m) == if m == n then None else old(FileOf(m)) {
        assert FileOf(m) == FileIn(Img(), vol.geo, chains, current, m);
        assert old(FileOf(m)) == FileIn(img, vol.geo, chains, current, m);
      }
    }

    /** Writing a file and reading it back by the same path: where writing is done, reading succeeds with the same
        bytes exactly if the path is not the root and the name does not begin with the deletion mark. */
    method WriteThenRead(path: seq<byte>, data: seq<byte>, buffer: array<byte>)
        returns (outcome: Outcome, ok: bool, size: nat)
      requires Sound() && 0 !in path && |data| < TWO_32 && vol.geo.perCluster > 0
      requires Rounded(vol.geo, |data|) <= buffer.Length
      modifies this`chains, vol.disk, buffer
      ensures outcome == Done ==> Sound() && (ok <==> path != [SLASH] && !Marked(Stripped(path)))
      ensures outcome == Done && ok ==> size == |data| && size <= buffer.Length && buffer[..size] == data
      ensures outcome == Done ==> forall m: Name83 :: m != ShortName(Stripped(path)) ==> FileOf(m) == old(FileOf(m))
    {
      hide Base, DirOk, Listed, EntsIn, WfDisk, Sectors, FileIn, Whole, ShortName, Rounded, Get;
      outcome := WriteFile(path, data);
      ok, size := false, 0;
      if outcome == Done { ok, size := ReadFile(path, buffer); }
    }
  }

  /** Where a second slash makes `delete_file` look for another name, `write_file` leaves the entry whose chain it
      freed, and the other entry, if there is one, is gone. */
  lemma SecondSlash(es: seq<Ent>, name: seq<byte>)
    requires DirOk(es) && ShortName(Stripped(name)) != ShortName(name)
    ensures var other := ShortName(Stripped(name));
            var fs := WithMark(es, Find(es, other));
            Get(fs, ShortName(name)) == Get(es, ShortName(name)) && Get(fs, other) == None
  {
    hide Find, DirOk, Get;
    MarkedGet(es, ShortName(Stripped(name)));
  }

  /** The path "//X" does so: its entry is "/X", and "X" is deleted. */
  lemma SlashX(a: nat, b: nat)
    requires a < TWO_32 && b < TWO_32
    ensures var name: seq<byte> := [SLASH, 88];
            var slashed, plain := NewEnt(ShortName(name), ATTR_ARCHIVE, a, 0),
              NewEnt(ShortName([88]), ATTR_ARCHIVE, b, 0);
            var es := [slashed, plain];
            var fs := WithMark(es, Find(es, ShortName(Stripped(name))));
            Stripped([SLASH] + name) == name && DirOk(es) && Get(es, ShortName(name)) == Some(slashed) &&
            Get(es, ShortName([88])) == Some(plain) &&
            Get(fs, ShortName(name)) == Some(slashed) && Get(fs, ShortName([88])) == None
  {
    var name: seq<byte> := [SLASH, 88];
    NewEntFields(ShortName(name), ATTR_ARCHIVE, a, 0);
    NewEntFields(ShortName([88]), ATTR_ARCHIVE, b, 0);
    assert ShortName(name)[0] == SLASH && ShortName([88])[0] == 88;
    var es := [NewEnt(ShortName(name), ATTR_ARCHIVE, a, 0), NewEnt(ShortName([88]), ATTR_ARCHIVE, b, 0)];
    assert Stripped([SLASH] + name) == name && Stripped(name) == [88];
    FindIs(es, ShortName(name));
    FindIs(es, ShortName([88]));
    assert Hit(es[0], ShortName(name)) && Hit(es[1], ShortName([88]));
    SecondSlash(es, name);
  }
}
