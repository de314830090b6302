/** The FAT of a FAT32 volume: entries are read from the first copy and written to both, chains of clusters are
    built from free entries and given back. */
module Fat32Table {
  import opened Bytes

  type Sector = seq<byte>

  const SECTOR: nat := 512
  const PER_SECTOR: nat := 128
  const TWO_28: nat := 0x1000_0000
  const END_MARK: nat := 0x0FFF_FFFF
  const FIRST_END: nat := 0x0FFF_FFF8

  /** Where `mount` puts things, in sectors of the partition: two copies of the FAT, then the clusters. */
  datatype Geo = Geo(fatStart: nat, fatSize: nat, perCluster: nat, total: nat)

  function DataStart(geo: Geo): nat { geo.fatStart + 2 * geo.fatSize }

  predicate GeoOk(geo: Geo) {
    geo.perCluster > 0 && geo.total + 2 <= PER_SECTOR * geo.fatSize && geo.total + 2 <= FIRST_END
  }

  /** Sectors of the first `n` clusters. */
  function Span(geo: Geo, n: nat): nat { n * geo.perCluster }

  ghost predicate WfDisk(img: seq<Sector>, geo: Geo) {
    GeoOk(geo) && DataStart(geo) + Span(geo, geo.total) <= |img| &&
    forall x :: 0 <= x < |img| ==> |img[x]| == SECTOR
  }

  /** The number of entries the FAT has room for. */
  function Entries(geo: Geo): nat { PER_SECTOR * geo.fatSize }

  predicate IsCluster(geo: Geo, c: nat) { 2 <= c < geo.total + 2 }

  /** What the chain loops take for the end. */
  predicate IsEnd(v: nat) { v == 0 || v >= FIRST_END }

  // ---------------------------------------------------------------- entries

  function FatSector(geo: Geo, c: nat): nat { geo.fatStart + c * 4 / SECTOR }
  function FatOff(c: nat): nat { c * 4 % SECTOR }

  lemma EntryFits(geo: Geo, c: nat)
    requires c < Entries(geo)
    ensures FatOff(c) + 4 <= SECTOR && geo.fatStart <= FatSector(geo, c) < geo.fatStart + geo.fatSize
  {}

  /** Entry `c`, its upper four bits masked off. */
  ghost function Fat(img: seq<Sector>, geo: Geo, c: nat): (v: nat)
    requires WfDisk(img, geo) && c < Entries(geo)
    ensures v < TWO_28
  {
    EntryFits(geo, c);
    GetU32(img[FatSector(geo, c)], FatOff(c)) % TWO_28
  }

  /** Both copies after entry `c` was set; the second copy's sector becomes that of the first. */
  ghost function WithFat(img: seq<Sector>, geo: Geo, c: nat, v: nat): (r: seq<Sector>)
    requires WfDisk(img, geo) && c < Entries(geo)
    ensures WfDisk(r, geo) && |r| == |img|
  {
    EntryFits(geo, c);
    var s := PutU32(img[FatSector(geo, c)], FatOff(c), v % TWO_28);
    img[FatSector(geo, c) := s][FatSector(geo, c) + geo.fatSize := s]
  }

  lemma EntryApart(c: nat, d: nat)
    requires c != d && c * 4 / SECTOR == d * 4 / SECTOR
    ensures FatOff(c) + 4 <= FatOff(d) || FatOff(d) + 4 <= FatOff(c)
  {}

  lemma FatAfterSet(img: seq<Sector>, geo: Geo, c: nat, v: nat, d: nat)
    requires WfDisk(img, geo) && c < Entries(geo) && d < Entries(geo)
    ensures Fat(WithFat(img, geo, c, v), geo, d) == if d == c then v % TWO_28 else Fat(img, geo, d)
  {
    hide GetU32, Patch, LittleEndian;
    EntryFits(geo, c);
    EntryFits(geo, d);
    var b := img[FatSector(geo, c)];
    PutGet32(b, FatOff(c), v % TWO_28);
    if d != c && FatSector(geo, d) == FatSector(geo, c) {
      EntryApart(c, d);
      PatchKeepsWords(b, FatOff(c), LittleEndian(v % TWO_28, 4), FatOff(d));
    }
  }

  /** The two copies agree. */
  ghost predicate Mirrored(img: seq<Sector>, geo: Geo)
    requires WfDisk(img, geo)
  {
    forall x :: geo.fatStart <= x < geo.fatStart + geo.fatSize ==> SameCopy(img, geo, x)
  }

  ghost predicate SameCopy(img: seq<Sector>, geo: Geo, x: nat)
    requires WfDisk(img, geo) && geo.fatStart <= x < geo.fatStart + geo.fatSize
  {
    img[x] == img[x + geo.fatSize]
  }

  lemma SetKeepsMirror(img: seq<Sector>, geo: Geo, c: nat, v: nat)
    requires WfDisk(img, geo) && c < Entries(geo) && Mirrored(img, geo)
    ensures Mirrored(WithFat(img, geo, c, v), geo)
  {
    hide Patch, LittleEndian;
    EntryFits(geo, c);
    forall x | geo.fatStart <= x < geo.fatStart + geo.fatSize ensures SameCopy(WithFat(img, geo, c, v), geo, x) {
      assert SameCopy(img, geo, x);
    }
  }

  /** Everything beyond the two copies. */
  ghost predicate SameData(img: seq<Sector>, img': seq<Sector>, geo: Geo) {
    |img'| == |img| && forall x :: 0 <= x < |img| && !(geo.fatStart <= x < DataStart(geo)) ==> img'[x] == img[x]
  }

  lemma SetKeepsData(img: seq<Sector>, geo: Geo, c: nat, v: nat)
    requires WfDisk(img, geo) && c < Entries(geo)
    ensures SameData(img, WithFat(img, geo, c, v), geo)
  {
    hide Patch, LittleEndian;
    EntryFits(geo, c);
  }

  // ---------------------------------------------------------------- counting

  /** Entries in use among the first `n`. */
  ghost function UsedCount(img: seq<Sector>, geo: Geo, n: nat): nat
    requires WfDisk(img, geo) && n <= Entries(geo)
  {
    if n == 0 then 0 else UsedCount(img, geo, n - 1) + (if Fat(img, geo, n - 1) == 0 then 0 else 1)
  }

  lemma {:induction false} ZeroedCount(img: seq<Sector>, geo: Geo, c: nat, n: nat)
    requires WfDisk(img, geo) && c < Entries(geo) && n <= Entries(geo)
    ensures UsedCount(WithFat(img, geo, c, 0), geo, n) ==
            UsedCount(img, geo, n) - (if c < n && Fat(img, geo, c) != 0 then 1 else 0)
  {
    hide Fat, WithFat;
    if n > 0 {
      ZeroedCount(img, geo, c, n - 1);
      FatAfterSet(img, geo, c, 0, n - 1);
    }
  }

  // ---------------------------------------------------------------- chains

  /** A chain: clusters of the volume, all different, each leading to the next and the last to the end. */
  ghost predicate ChainOk(img: seq<Sector>, geo: Geo, s: seq<nat>)
    requires WfDisk(img, geo)
  {
    s != [] && (forall i :: 0 <= i < |s| ==> IsCluster(geo, s[i])) &&
    (forall i, j :: 0 <= i < j < |s| ==> s[i] != s[j]) &&
    (forall i :: 0 <= i < |s| ==> LinkIs(img, geo, s, i))
  }

  ghost predicate LinkIs(img: seq<Sector>, geo: Geo, s: seq<nat>, i: nat)
    requires WfDisk(img, geo) && i < |s| && IsCluster(geo, s[i])
  {
    if i + 1 < |s| then Fat(img, geo, s[i]) == s[i + 1] else Fat(img, geo, s[i]) >= FIRST_END
  }

  /** The entries of a chain decide it. */
  lemma ChainSame(img: seq<Sector>, img': seq<Sector>, geo: Geo, s: seq<nat>)
    requires WfDisk(img, geo) && WfDisk(img', geo) && ChainOk(img, geo, s)
    requires forall i :: 0 <= i < |s| ==> Fat(img', geo, s[i]) == Fat(img, geo, s[i])
    ensures ChainOk(img', geo, s)
  {
    hide Fat;
    forall i | 0 <= i < |s| ensures LinkIs(img', geo, s, i) { assert LinkIs(img, geo, s, i); }
  }

  /** Links that are neither an end nor outside the FAT. */
  ghost predicate InRange(img: seq<Sector>, geo: Geo)
    requires WfDisk(img, geo)
  {
    forall c: nat :: c < Entries(geo) ==> IsEnd(Fat(img, geo, c)) || Fat(img, geo, c) < Entries(geo)
  }

  /** The clusters that following the links from `start` meets, each once. */
  ghost predicate Followed(img: seq<Sector>, geo: Geo, start: nat, s: seq<nat>)
    requires WfDisk(img, geo)
  {
    (forall i :: 0 <= i < |s| ==> s[i] < Entries(geo) && !IsEnd(s[i])) &&
      (forall i, j :: 0 <= i < j < |s| ==> s[i] != s[j]) &&
    (s != [] ==> s[0] == start) && forall i :: 0 <= i < |s| - 1 ==> Fat(img, geo, s[i]) == s[i + 1]
  }

  ghost predicate NextIs(img: seq<Sector>, geo: Geo, start: nat, s: seq<nat>, next: nat)
    requires WfDisk(img, geo) && Followed(img, geo, start, s)
  {
    if s == [] then next == start else next == Fat(img, geo, s[|s| - 1])
  }

  /** Following a chain meets the chain. */
  lemma FollowedChain(img: seq<Sector>, geo: Geo, s: seq<nat>, t: seq<nat>, next: nat)
    requires WfDisk(img, geo) && ChainOk(img, geo, s) && Followed(img, geo, s[0], t) && NextIs(img, geo, s[0], t, next)
    requires IsEnd(next) || next in t
    ensures t == s
  {
    hide Fat, ChainOk, Followed, NextIs;
    FollowedPrefix(img, geo, s, t, |t|);
    if |t| < |s| { NextInChain(img, geo, s, t, next); }
  }

  /** Before the end of a chain the next cluster is a new one. */
  lemma NextInChain(img: seq<Sector>, geo: Geo, s: seq<nat>, t: seq<nat>, next: nat)
    requires WfDisk(img, geo) && ChainOk(img, geo, s) && Followed(img, geo, s[0], t) && NextIs(img, geo, s[0], t, next)
    requires |t| < |s| && t == s[..|t|]
    ensures !IsEnd(next) && next !in t
  {
    hide Fat;
    if t != [] { assert LinkIs(img, geo, s, |t| - 1); }
  }

  lemma {:induction false} FollowedPrefix(img: seq<Sector>, geo: Geo, s: seq<nat>, t: seq<nat>, n: nat)
    requires WfDisk(img, geo) && ChainOk(img, geo, s) && Followed(img, geo, s[0], t) && n <= |t|
    ensures n <= |s| && t[..n] == s[..n]
  {
    hide Fat;
    if n > 0 {
      FollowedPrefix(img, geo, s, t, n - 1);
      if n > 1 {
        assert LinkIs(img, geo, s, n - 2);
        assert t[n - 2] == t[..n - 1][n - 2] == s[n - 2];
        assert Fat(img, geo, t[n - 2]) == t[n - 1];
      }
    }
  }
}
