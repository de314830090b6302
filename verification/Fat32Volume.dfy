/** A mounted FAT32 volume: the FAT and the clusters on the disk, changed in place. */
module Fat32Volume {
  import opened Bytes
  import opened Fat32Table
  import opened Fat32Dir

  class FatVolume {
    const geo: Geo
    const disk: array<Sector>

    constructor (geometry: Geo, sectors: array<Sector>)
      ensures geo == geometry && disk == sectors
    {
      geo, disk := geometry, sectors;
    }

    ghost predicate Ready()
      reads disk
    {
      WfDisk(disk[..], geo) && Mirrored(disk[..], geo)
    }

    /** What the FAT says of cluster `c`. */
    ghost function At(c: nat): nat
      requires WfDisk(disk[..], geo) && c < Entries(geo)
      reads disk
    {
      Fat(disk[..], geo, c)
    }

    // -------------------------------------------------------------- entries

    method NextCluster(c: nat) returns (v: nat)
      requires WfDisk(disk[..], geo) && c < Entries(geo)
      ensures v == At(c)
    {
      EntryFits(geo, c);
      var fatOffset := c * 4;
      var sector := disk[geo.fatStart + fatOffset / SECTOR];
      assert sector == disk[..][FatSector(geo, c)];
      v := GetU32(sector, fatOffset % SECTOR) % TWO_28;
    }

    /** The entry is set in both copies, and nothing else changes. */
    method SetCluster(c: nat, v: nat)
      requires Ready() && c < Entries(geo)
      modifies disk
      ensures Ready() && SameData(old(disk[..]), disk[..], geo)
      ensures forall d: nat :: d < Entries(geo) ==> At(d) == if d == c then v % TWO_28 else old(At(d))
    {
      hide GetU32, Patch, LittleEndian, Fat, Mirrored, SameData;
      EntryFits(geo, c);
      ghost var img := disk[..];
      var fatOffset := c * 4;
      var fatSector := geo.fatStart + fatOffset / SECTOR;
      assert |disk[..][fatSector]| == SECTOR;
      var sector := PutU32(disk[fatSector], fatOffset % SECTOR, v % TWO_28);
      disk[fatSector] := sector;
      disk[fatSector + geo.fatSize] := sector;
      assert disk[..] == WithFat(img, geo, c, v);
      SetKeepsMirror(img, geo, c, v);
      SetKeepsData(img, geo, c, v);
      forall d: nat | d < Entries(geo) ensures Fat(disk[..], geo, d) == if d == c then v % TWO_28
        else Fat(img, geo, d) {
        FatAfterSet(img, geo, c, v, d);
      }
    }

    /** First fit; the cluster becomes a chain of its own. */
    method AllocCluster() returns (c: nat)
      requires Ready()
      modifies disk
      ensures Ready() && SameData(old(disk[..]), disk[..], geo)
      ensures c == 0 ==> disk[..] == old(disk[..]) && forall d: nat :: IsCluster(geo, d) ==> At(d) != 0
      ensures c != 0 ==> IsCluster(geo, c) && old(At(c)) == 0 && forall d: nat :: IsCluster(geo, d) && d < c ==>
        old(At(d)) != 0
      ensures forall d: nat :: d < Entries(geo) ==> At(d) == if c != 0 && d == c then END_MARK else old(At(d))
    {
      hide Fat, Mirrored;
      c := 2;
      while c < geo.total + 2
        invariant 2 <= c <= geo.total + 2 && disk[..] == old(disk[..])
        invariant forall d: nat :: IsCluster(geo, d) && d < c ==> At(d) != 0
      {
        var v := NextCluster(c);
        if v == 0 {
          SetCluster(c, END_MARK);
          return;
        }
        c := c + 1;
      }
      c := 0;
    }

    /** Follows the links from `start` and zeroes every entry it meets. It ends on every FAT whose links stay in
        range, cyclic ones included, since each turn that goes on has zeroed an entry that was not. */
    method FreeChain(start: nat) returns (ghost met: seq<nat>)
      requires Ready() && InRange(disk[..], geo) && (IsEnd(start) || start < Entries(geo))
      modifies disk
      ensures Ready() && SameData(old(disk[..]), disk[..], geo)
      ensures Followed(old(disk[..]), geo, start, met) && (met == [] <==> IsEnd(start))
      ensures met != [] ==> IsEnd(old(At(met[|met| - 1]))) || old(At(met[|met| - 1])) in met
      ensures forall c: nat :: c < Entries(geo) ==> At(c) == if c in met then 0 else old(At(c))
    {
      hide Fat, Mirrored, SameData, Followed;
      met := [];
      var at: nat := start;
      NothingFollowed(disk[..], start);
      while at != 0 && at != END_MARK && at < FIRST_END
        invariant Ready() && SameData(old(disk[..]), disk[..], geo) && Followed(old(disk[..]), geo, start, met)
        invariant IsEnd(at) || at < Entries(geo)
        invariant forall c: nat :: c < Entries(geo) ==> At(c) == if c in met then 0 else old(At(c))
        invariant Following(old(disk[..]), geo, start, met, at) && (met == [] ==> at == start) &&
          (met != [] ==> !IsEnd(start))
        decreases UsedCount(disk[..], geo, Entries(geo)), if IsEnd(at) then 0 else 1
      {
        var next := NextCluster(at);
        ghost var img := disk[..];
        label Before:
        ZeroEntry(at);
        forall d: nat | d < Entries(geo) ensures Fat(disk[..], geo, d) == if d == at then 0 else Fat(img, geo, d) {
          assert At(d) == if d == at then 0 else old@Before(At(d));
        }
        CountFalls(img, disk[..], at);
        if at !in met {
          OneMoreFollowed(old(disk[..]), start, met, at);
          met := met + [at];
        }
        at := next;
      }
    }

    method ZeroEntry(c: nat)
      requires Ready() && c < Entries(geo)
      modifies disk
      ensures Ready() && forall img :: SameData(img, old(disk[..]), geo) ==> SameData(img, disk[..], geo)
      ensures forall d: nat :: d < Entries(geo) ==> At(d) == if d == c then 0 else old(At(d))
    {
      hide Fat, Mirrored;
      SetCluster(c, 0);
    }

    lemma NothingFollowed(img: seq<Sector>, start: nat)
      requires WfDisk(img, geo)
      ensures Followed(img, geo, start, []) && SameData(img, img, geo)
    {}

    lemma OneMoreFollowed(img: seq<Sector>, start: nat, met: seq<nat>, at: nat)
      requires WfDisk(img, geo) && Followed(img, geo, start, met) && Following(img, geo, start, met, at)
      requires at !in met && !IsEnd(at) && at < Entries(geo)
      ensures Followed(img, geo, start, met + [at])
    {
      hide Fat;
    }

    /** Where the loop stands: at the start, at the link of the last entry met, or, after an entry was met again,
        at the end. */
    ghost predicate Following(img: seq<Sector>, g: Geo, start: nat, met: seq<nat>, at: nat)
      requires WfDisk(img, g) && Followed(img, g, start, met)
    {
      if met == [] then at == start
      else at == Fat(img, g, met[|met| - 1]) || (at == 0 && Fat(img, g, met[|met| - 1]) in met)
    }

    lemma CountFalls(img: seq<Sector>, img': seq<Sector>, c: nat)
      requires WfDisk(img, geo) && WfDisk(img', geo) && c < Entries(geo)
      requires forall d: nat :: d < Entries(geo) ==> Fat(img', geo, d) == if d == c then 0 else Fat(img, geo, d)
      ensures UsedCount(img', geo, Entries(geo)) ==
              UsedCount(img, geo, Entries(geo)) - (if Fat(img, geo, c) != 0 then 1 else 0)
    {
      hide Fat, WithFat;
      forall d: nat | d < Entries(geo) ensures Fat(img', geo, d) == Fat(WithFat(img, geo, c, 0), geo, d) {
        FatAfterSet(img, geo, c, 0, d);
      }
      CountSame(img', WithFat(img, geo, c, 0), geo, Entries(geo));
      ZeroedCount(img, geo, c, Entries(geo));
    }

    // -------------------------------------------------------------- clusters

    /** `write_cluster`: the sectors of the cluster take the buffer's bytes. */
    method WriteCluster(c: nat, buf: array<byte>)
      requires Ready() && IsCluster(geo, c) && buf.Length >= SECTOR * geo.perCluster
      modifies disk
      ensures Ready() && forall x :: 0 <= x < disk.Length && x !in Run(geo, c) ==> disk[..][x] == old(disk[..])[x]
      ensures OnDisk(disk[..], Run(geo, c)) && Data(disk[..], Run(geo, c)) == buf[..SECTOR * geo.perCluster]
    {
      hide Span, Mirrored, Lba;
      var lba, s := Lba(geo, c), 0;
      while s < geo.perCluster
        invariant s <= geo.perCluster && WfDisk(disk[..], geo)
        invariant forall x :: 0 <= x < disk.Length && !(lba <= x < lba + s) ==> disk[..][x] == old(disk[..])[x]
        invariant forall x :: lba <= x < lba + s && x < disk.Length ==> disk[..][x] == Piece(buf[..], x - lba)
      {
        LbasApart(geo, c, c, s, s);
        ghost var before := disk[..];
        disk[lba + s] := buf[SECTOR * s..SECTOR * s + SECTOR];
        assert disk[..] == before[lba + s := Piece(buf[..], s)];
        s := s + 1;
      }
      RunWritten(old(disk[..]), disk[..], c, buf[..]);
    }

    function Piece(b: seq<byte>, s: int): Sector {
      if 0 <= s && SECTOR * s + SECTOR <= |b| then b[SECTOR * s..SECTOR * s + SECTOR] else []
    }

    lemma RunWritten(img: seq<Sector>, img': seq<Sector>, c: nat, b: seq<byte>)
      requires WfDisk(img, geo) && Mirrored(img, geo) && WfDisk(img', geo) && |img'| == |img| && IsCluster(geo, c)
      requires |b| >= SECTOR * geo.perCluster
      requires forall x :: 0 <= x < |img| && !(Lba(geo, c) <= x < Lba(geo, c) + geo.perCluster) ==> img'[x] == img[x]
      requires forall x :: Lba(geo, c) <= x < Lba(geo, c) + geo.perCluster && x < |img| ==>
        img'[x] == Piece(b, x - Lba(geo, c))
      ensures Mirrored(img', geo) && OnDisk(img', Run(geo, c)) &&
        Data(img', Run(geo, c)) == b[..SECTOR * geo.perCluster]
      ensures forall x :: 0 <= x < |img| && x !in Run(geo, c) ==> img'[x] == img[x]
    {
      hide Span, Lba;
      forall t | 0 <= t < geo.perCluster
        ensures DataStart(geo) <= Lba(geo, c) + t < |img| && Run(geo, c)[t] == Lba(geo, c) + t
      {
        LbasApart(geo, c, c, t, t);
      }
      LbasApart(geo, c, c, 0, 0);
      forall x | geo.fatStart <= x < geo.fatStart + geo.fatSize ensures SameCopy(img', geo, x) {
        assert SameCopy(img, geo, x);
      }
      forall x | Lba(geo, c) <= x < Lba(geo, c) + geo.perCluster ensures x in Run(geo, c) {
        assert Run(geo, c)[x - Lba(geo, c)] == x;
      }
      PiecesMake(img', Run(geo, c), b);
    }

    lemma PiecesMake(img: seq<Sector>, l: seq<nat>, b: seq<byte>)
      requires OnDisk(img, l) && |b| >= SECTOR * |l| && forall t :: 0 <= t < |l| ==> img[l[t]] == Piece(b, t)
      ensures Data(img, l) == b[..SECTOR * |l|]
    {
      forall q | 0 <= q < SECTOR * |l| ensures Data(img, l)[q] == b[..SECTOR * |l|][q] {
        assert img[l[q / SECTOR]] == Piece(b, q / SECTOR);
      }
    }

    /** `read_cluster`: the buffer takes the cluster's bytes. */
    method ReadCluster(c: nat, buf: array<byte>, at: nat)
      requires Ready() && IsCluster(geo, c) && at + SECTOR * geo.perCluster <= buf.Length
      modifies buf
      ensures OnDisk(disk[..], Run(geo, c)) && buf[at..at + SECTOR * geo.perCluster] == Data(disk[..], Run(geo, c))
      ensures buf[..at] == old(buf[..at])
    {
      hide Span, Mirrored, Lba;
      ghost var img := disk[..];
      var lba, s := Lba(geo, c), 0;
      RunOnDisk(img, c);
      while s < geo.perCluster
        invariant s <= geo.perCluster && buf[..at] == old(buf[..at]) && disk[..] == img
        invariant forall q :: 0 <= q < SECTOR * s ==> buf[at + q] == Data(img, Run(geo, c))[q]
      {
        LbasApart(geo, c, c, s, s);
        var sector := disk[lba + s];
        assert sector == img[Run(geo, c)[s]] && |sector| == SECTOR;
        forall i | 0 <= i < SECTOR { buf[at + SECTOR * s + i] := sector[i]; }
        s := s + 1;
      }
    }

    lemma RunOnDisk(img: seq<Sector>, c: nat)
      requires WfDisk(img, geo) && IsCluster(geo, c)
      ensures OnDisk(img, Run(geo, c))
    {
      hide Span, Lba;
      forall t | 0 <= t < geo.perCluster ensures Run(geo, c)[t] < |img| { LbasApart(geo, c, c, t, t); }
    }
  }

  lemma {:induction false} CountSame(a: seq<Sector>, b: seq<Sector>, geo: Geo, n: nat)
    requires WfDisk(a, geo) && WfDisk(b, geo) && n <= Entries(geo)
    requires forall d: nat :: d < Entries(geo) ==> Fat(a, geo, d) == Fat(b, geo, d)
    ensures UsedCount(a, geo, n) == UsedCount(b, geo, n)
  {
    hide Fat;
    if n > 0 { CountSame(a, b, geo, n - 1); }
  }
}
