/** What a mounted volume holds: a family of chains that share no cluster, one of them the current directory, and
    for every entry of that directory the chain with its bytes. */
module Fat32State {
  import opened Bytes
  import opened Fat32Table
  import opened Fat32Dir

  /** The chains by their first clusters. */
  type Chains = map<nat, seq<nat>>

  const DOT: Name83 := [46, 32, 32, 32, 32, 32, 32, 32, 32, 32, 32]
  const DOT_DOT: Name83 := [46, 46, 32, 32, 32, 32, 32, 32, 32, 32, 32]

  predicate Dots(n: Name83) { n == DOT || n == DOT_DOT }

  ghost predicate Disjoint(s: seq<nat>, r: seq<nat>) { forall x :: x in s ==> x !in r }

  ghost predicate Headed(geo: Geo, cs: Chains, c: nat)
    requires c in cs
  {
    cs[c] != [] && cs[c][0] == c && Clusters(geo, cs[c])
  }

  /** No cluster is in two chains. */
  ghost predicate Apart(geo: Geo, cs: Chains) {
    (forall c :: c in cs ==> Headed(geo, cs, c)) &&
    forall c, d :: c in cs && d in cs && c != d ==> Disjoint(cs[c], cs[d])
  }

  ghost predicate ChainsOk(img: seq<Sector>, geo: Geo, cs: Chains)
    requires WfDisk(img, geo)
  {
    forall c :: c in cs ==> ChainOk(img, geo, cs[c])
  }

  /** The FAT is sound and holds the chains. */
  ghost predicate Base(img: seq<Sector>, geo: Geo, cs: Chains, cur: nat) {
    WfDisk(img, geo) && Mirrored(img, geo) && InRange(img, geo) && cur in cs && Apart(geo, cs) && ChainsOk(img, geo, cs)
  }

  lemma ChainOnDisk(img: seq<Sector>, geo: Geo, s: seq<nat>)
    requires WfDisk(img, geo) && Clusters(geo, s)
    ensures OnDisk(img, Sectors(geo, s))
    ensures forall j :: 0 <= j < |Sectors(geo, s)| ==> DataStart(geo) <= Sectors(geo, s)[j]
  {
    hide Span, Lba, Sectors;
    forall j | 0 <= j < |Sectors(geo, s)| ensures DataStart(geo) <= Sectors(geo, s)[j] < |img| {
      var i, t := SectorOf(geo, s, j);
      LbasApart(geo, s[i], s[i], t, t);
    }
  }

  /** The bytes of a chain. */
  ghost function BytesOf(img: seq<Sector>, geo: Geo, s: seq<nat>): (d: seq<byte>)
    requires WfDisk(img, geo) && Clusters(geo, s)
    ensures |d| == SECTOR * Span(geo, |s|)
  {
    ChainOnDisk(img, geo, s);
    Data(img, Sectors(geo, s))
  }

  /** The entries of a directory. */
  ghost function EntsOf(img: seq<Sector>, geo: Geo, s: seq<nat>): (es: seq<Ent>)
    requires WfDisk(img, geo) && Clusters(geo, s)
    ensures |es| == PER_DIR_SECTOR * Span(geo, |s|)
  {
    ChainOnDisk(img, geo, s);
    Ents(img, Sectors(geo, s))
  }

  // ---------------------------------------------------------------- entries and chains

  /** An entry has no cluster and no bytes, or a chain of its own with room for its bytes. */
  ghost predicate EntryOk(geo: Geo, cs: Chains, cur: nat, e: Ent) {
    var c := ClusterOf(e);
    (c == 0 && SizeOf(e) == 0) || (c in cs && c != cur && SizeOf(e) <= SECTOR * Span(geo, |cs[c]|))
  }

  /** Entries other than the two that lead back. */
  ghost predicate Named(e: Ent) { Visible(e) && !(IsDirectory(e) && Dots(NameOf(e))) }

  ghost predicate SameChain(e: Ent, f: Ent) { ClusterOf(e) != 0 && ClusterOf(e) == ClusterOf(f) }

  ghost predicate Listed(es: seq<Ent>, geo: Geo, cs: Chains, cur: nat) {
    (forall k :: 0 <= k < |es| && Named(es[k]) ==> EntryOk(geo, cs, cur, es[k])) &&
    forall i, j :: 0 <= i < j < |es| && Named(es[i]) && Named(es[j]) ==> !SameChain(es[i], es[j])
  }

  ghost predicate Whole(img: seq<Sector>, geo: Geo, cs: Chains, cur: nat) {
    Base(img, geo, cs, cur) && DirOk(EntsOf(img, geo, cs[cur])) && Listed(EntsOf(img, geo, cs[cur]), geo, cs, cur)
  }

  ghost function EntsIn(img: seq<Sector>, geo: Geo, cs: Chains, cur: nat): seq<Ent>
    requires Base(img, geo, cs, cur)
  {
    assert Headed(geo, cs, cur);
    EntsOf(img, geo, cs[cur])
  }

  /** The bytes of a file: the first of its chain, as many as its entry says. */
  ghost function Content(img: seq<Sector>, geo: Geo, cs: Chains, cur: nat, e: Ent): (d: seq<byte>)
    requires WfDisk(img, geo) && Apart(geo, cs) && EntryOk(geo, cs, cur, e)
    ensures |d| == SizeOf(e)
  {
    if ClusterOf(e) == 0 then [] else
      assert Headed(geo, cs, ClusterOf(e));
      BytesOf(img, geo, cs[ClusterOf(e)])[..SizeOf(e)]
  }

  lemma FoundOk(es: seq<Ent>, geo: Geo, cs: Chains, cur: nat, m: Name83)
    requires DirOk(es) && Listed(es, geo, cs, cur) && Get(es, m).Some?
    ensures var e := Get(es, m).value; Hit(e, m) && es[Find(es, m)] == e && (Named(e) ==> EntryOk(geo, cs, cur, e))
  {
    hide Listed, Find, Hit, DirOk;
    FindIs(es, m);
    assert Hit(es[Find(es, m)], m);
    ListedEntry(es, geo, cs, cur, Find(es, m));
  }

  lemma ListedEntry(es: seq<Ent>, geo: Geo, cs: Chains, cur: nat, k: nat)
    requires Listed(es, geo, cs, cur) && k < |es|
    ensures Named(es[k]) ==> EntryOk(geo, cs, cur, es[k])
  {}

  /** What the directory holds under a name: a file with its bytes, if it is one. */
  ghost function FileIn(img: seq<Sector>, geo: Geo, cs: Chains, cur: nat, m: Name83): Option<seq<byte>>
    requires Whole(img, geo, cs, cur)
  {
    var es := EntsIn(img, geo, cs, cur);
    if Get(es, m) == None || IsDirectory(Get(es, m).value) then None
    else
      FoundOk(es, geo, cs, cur, m);
      Some(Content(img, geo, cs, cur, Get(es, m).value))
  }

  // ---------------------------------------------------------------- what a step keeps

  ghost predicate SameBytes(img: seq<Sector>, img': seq<Sector>, geo: Geo, s: seq<nat>)
    requires WfDisk(img, geo) && WfDisk(img', geo) && |img'| == |img| && Clusters(geo, s)
  {
    ChainOnDisk(img, geo, s);
    forall j :: 0 <= j < |Sectors(geo, s)| ==> img'[Sectors(geo, s)[j]] == img[Sectors(geo, s)[j]]
  }

  /** The chains are still there with the same sectors. */
  ghost predicate Kept(img: seq<Sector>, img': seq<Sector>, geo: Geo, cs: Chains)
    requires WfDisk(img, geo) && Apart(geo, cs)
  {
    |img'| == |img| && WfDisk(img', geo) && ChainsOk(img', geo, cs) &&
    forall c :: c in cs ==> SameBytes(img, img', geo, cs[c])
  }

  ghost predicate Keeps(img: seq<Sector>, img': seq<Sector>, geo: Geo, cs: Chains) {
    WfDisk(img, geo) && Apart(geo, cs) && Kept(img, img', geo, cs)
  }

  lemma KeepsNothingChanged(img: seq<Sector>, geo: Geo, cs: Chains)
    requires WfDisk(img, geo) && Apart(geo, cs) && ChainsOk(img, geo, cs)
    ensures Keeps(img, img, geo, cs)
  {
    hide Sectors, WfDisk, ChainOk;
    forall c | c in cs ensures SameBytes(img, img, geo, cs[c]) { assert Headed(geo, cs, c); }
  }

  /** What keeps a family keeps a part of it. */
  lemma KeepsPart(img: seq<Sector>, img': seq<Sector>, geo: Geo, cs: Chains, ds: Chains)
    requires Keeps(img, img', geo, cs) && forall c :: c in ds ==> c in cs && ds[c] == cs[c]
    ensures Keeps(img, img', geo, ds)
  {
    hide Sectors, WfDisk, ChainOk;
    forall c | c in ds ensures Headed(geo, ds, c) { assert Headed(geo, cs, c); }
    forall c | c in ds ensures SameBytes(img, img', geo, ds[c]) { assert SameBytes(img, img', geo, cs[c]); }
    forall c, d | c in ds && d in ds && c != d ensures Disjoint(ds[c], ds[d]) { assert Disjoint(cs[c], cs[d]); }
  }

  lemma KeepsTrans(a: seq<Sector>, b: seq<Sector>, c: seq<Sector>, geo: Geo, cs: Chains)
    requires Keeps(a, b, geo, cs) && Keeps(b, c, geo, cs)
    ensures Keeps(a, c, geo, cs)
  {
    hide Apart, Kept, WfDisk;
    KeptTrans(a, b, c, geo, cs);
  }

  lemma SameBytesIs(img: seq<Sector>, img': seq<Sector>, geo: Geo, s: seq<nat>)
    requires WfDisk(img, geo) && WfDisk(img', geo) && |img'| == |img| && Clusters(geo, s) &&
      SameBytes(img, img', geo, s)
    ensures BytesOf(img', geo, s) == BytesOf(img, geo, s) && EntsOf(img', geo, s) == EntsOf(img, geo, s)
  {
    hide Sectors, Data, Ents, WfDisk;
    ChainOnDisk(img, geo, s);
    ChainOnDisk(img', geo, s);
    SameSectors(img, img', Sectors(geo, s));
  }

  lemma KeptTrans(a: seq<Sector>, b: seq<Sector>, c: seq<Sector>, geo: Geo, cs: Chains)
    requires WfDisk(a, geo) && Apart(geo, cs) && Kept(a, b, geo, cs) && Kept(b, c, geo, cs)
    ensures Kept(a, c, geo, cs)
  {
    hide Sectors, WfDisk, ChainsOk;
    forall d | d in cs ensures SameBytes(a, c, geo, cs[d]) {
      assert SameBytes(a, b, geo, cs[d]) && SameBytes(b, c, geo, cs[d]);
    }
  }

  /** A step that leaves the data area and the entries of the chains alone keeps them. */
  lemma FatStep(img: seq<Sector>, img': seq<Sector>, geo: Geo, cs: Chains)
    requires WfDisk(img, geo) && WfDisk(img', geo) && Apart(geo, cs) && ChainsOk(img, geo, cs)
    requires SameData(img, img', geo)
    requires forall c, x :: c in cs && x in cs[c] ==> Fat(img', geo, x) == Fat(img, geo, x)
    ensures Kept(img, img', geo, cs)
  {
    hide Sectors, WfDisk, Fat, ChainOk;
    forall c | c in cs ensures ChainOk(img', geo, cs[c]) && SameBytes(img, img', geo, cs[c]) {
      assert Headed(geo, cs, c);
      ChainSame(img, img', geo, cs[c]);
      ChainOnDisk(img, geo, cs[c]);
    }
  }

  /** A step that changes only sectors of clusters outside the chains keeps the FAT and the chains. */
  lemma DataStep(img: seq<Sector>, img': seq<Sector>, geo: Geo, cs: Chains, s: seq<nat>)
    requires WfDisk(img, geo) && WfDisk(img', geo) && |img'| == |img| && Apart(geo, cs) && ChainsOk(img, geo, cs)
    requires Clusters(geo, s) && forall c :: c in cs ==> Disjoint(s, cs[c])
    requires Elsewhere(img, img', geo, s)
    ensures SameFat(img, img', geo) && Kept(img, img', geo, cs)
  {
    hide Sectors, WfDisk, Fat, ChainOk;
    SameFatSectors(img, img', geo, s);
    forall c | c in cs ensures ChainOk(img', geo, cs[c]) && SameBytes(img, img', geo, cs[c]) {
      assert Headed(geo, cs, c);
      ChainIn(img, geo, cs[c]);
      ChainSame(img, img', geo, cs[c]);
      ChainOnDisk(img, geo, cs[c]);
      forall j | 0 <= j < |Sectors(geo, cs[c])| ensures Sectors(geo, cs[c])[j] !in Sectors(geo, s) {
        forall k | 0 <= k < |Sectors(geo, s)| ensures Sectors(geo, s)[k] != Sectors(geo, cs[c])[j] {
          ChainsApart(geo, s, cs[c], k, j);
        }
      }
    }
  }

  lemma ChainIn(img: seq<Sector>, geo: Geo, s: seq<nat>)
    requires Clusters(geo, s) && WfDisk(img, geo)
    ensures forall i :: 0 <= i < |s| ==> s[i] < Entries(geo)
  {}

  /** Only sectors of `s` changed. */
  ghost predicate Elsewhere(img: seq<Sector>, img': seq<Sector>, geo: Geo, s: seq<nat>)
    requires Clusters(geo, s)
  {
    |img'| == |img| && forall x :: 0 <= x < |img| && x !in Sectors(geo, s) ==> img'[x] == img[x]
  }

  ghost predicate SameFat(img: seq<Sector>, img': seq<Sector>, geo: Geo) {
    WfDisk(img, geo) && WfDisk(img', geo) && (Mirrored(img, geo) ==> Mirrored(img', geo)) &&
    (InRange(img, geo) ==> InRange(img', geo)) && forall c: nat :: c < Entries(geo) ==>
      Fat(img', geo, c) == Fat(img, geo, c)
  }

  lemma SameFatSectors(img: seq<Sector>, img': seq<Sector>, geo: Geo, s: seq<nat>)
    requires WfDisk(img, geo) && WfDisk(img', geo) && Clusters(geo, s) && Elsewhere(img, img', geo, s)
    ensures SameFat(img, img', geo)
  {
    hide Sectors;
    ChainOnDisk(img, geo, s);
    forall c: nat | c < Entries(geo) ensures Fat(img', geo, c) == Fat(img, geo, c) { EntryFits(geo, c); }
    if Mirrored(img, geo) {
      forall x | geo.fatStart <= x < geo.fatStart + geo.fatSize ensures SameCopy(img', geo, x) {
        assert SameCopy(img, geo, x);
      }
    }
  }

  // ---------------------------------------------------------------- one entry of the directory

  /** Entry `i` of sector `j` of the current directory is replaced. */
  ghost function WithEntry(img: seq<Sector>, geo: Geo, s: seq<nat>, j: nat, i: nat, e: Ent): (r: seq<Sector>)
    requires WfDisk(img, geo) && Clusters(geo, s) && j < |Sectors(geo, s)| && i < PER_DIR_SECTOR
    ensures |r| == |img|
  {
    ChainOnDisk(img, geo, s);
    var x := Sectors(geo, s)[j];
    img[x := Patch(img[x], ENTRY * i, e)]
  }

  lemma EntryWritten(img: seq<Sector>, geo: Geo, cs: Chains, cur: nat, j: nat, i: nat, e: Ent)
    requires Base(img, geo, cs, cur) && Headed(geo, cs, cur) && j < |Sectors(geo, cs[cur])| && i < PER_DIR_SECTOR
    ensures var img' := WithEntry(img, geo, cs[cur], j, i, e);
            Base(img', geo, cs, cur) && SameFat(img, img', geo) && Kept(img, img', geo, cs - {cur})
  {
    hide Sectors, Fat, Patch, Mirrored, InRange, Apart, WithEntry, Kept, Elsewhere;
    var img' := WithEntry(img, geo, cs[cur], j, i, e);
    EntryElsewhere(img, geo, cs[cur], j, i, e);
    OthersApart(geo, cs, cur);
    assert ChainsOk(img, geo, cs - {cur});
    DataStep(img, img', geo, cs - {cur}, cs[cur]);
    StillChains(img, img', geo, cs);
  }

  lemma StillChains(img: seq<Sector>, img': seq<Sector>, geo: Geo, cs: Chains)
    requires WfDisk(img, geo) && Apart(geo, cs) && ChainsOk(img, geo, cs) && SameFat(img, img', geo)
    ensures ChainsOk(img', geo, cs)
  {
    hide WfDisk, Fat, ChainOk, Mirrored, InRange;
    forall c | c in cs ensures ChainOk(img', geo, cs[c]) {
      assert Headed(geo, cs, c);
      ChainIn(img, geo, cs[c]);
      ChainSame(img, img', geo, cs[c]);
    }
  }

  lemma OthersApart(geo: Geo, cs: Chains, cur: nat)
    requires cur in cs && Apart(geo, cs)
    ensures Apart(geo, cs - {cur}) && forall c :: c in cs - {cur} ==> Disjoint(cs[cur], (cs - {cur})[c])
  {
    hide Clusters;
    forall c | c in cs - {cur} ensures Headed(geo, cs - {cur}, c) { assert Headed(geo, cs, c); }
  }

  lemma EntryElsewhere(img: seq<Sector>, geo: Geo, s: seq<nat>, j: nat, i: nat, e: Ent)
    requires WfDisk(img, geo) && Clusters(geo, s) && j < |Sectors(geo, s)| && i < PER_DIR_SECTOR
    ensures WfDisk(WithEntry(img, geo, s, j, i, e), geo) && Elsewhere(img, WithEntry(img, geo, s, j, i, e), geo, s)
  {
    hide Sectors, Patch;
    ChainOnDisk(img, geo, s);
  }

  lemma EntryReplaced(img: seq<Sector>, geo: Geo, s: seq<nat>, j: nat, i: nat, e: Ent)
    requires WfDisk(img, geo) && ChainOk(img, geo, s) && j < |Sectors(geo, s)| && i < PER_DIR_SECTOR
    ensures WfDisk(WithEntry(img, geo, s, j, i, e), geo) && PER_DIR_SECTOR * j + i < |EntsOf(img, geo, s)|
    ensures EntsOf(WithEntry(img, geo, s, j, i, e), geo, s) == EntsOf(img, geo, s)[PER_DIR_SECTOR * j + i := e]
  {
    hide Sectors, Fat, Patch, Ents;
    ChainOnDisk(img, geo, s);
    SectorsDiffer(img, geo, s);
    OneEntry(img, Sectors(geo, s), j, i, e);
  }

  lemma SectorsDiffer(img: seq<Sector>, geo: Geo, s: seq<nat>)
    requires WfDisk(img, geo) && ChainOk(img, geo, s)
    ensures forall a, b :: 0 <= a < b < |Sectors(geo, s)| ==> Sectors(geo, s)[a] != Sectors(geo, s)[b]
  {
    hide Sectors, Fat;
    forall a, b | 0 <= a < b < |Sectors(geo, s)| ensures Sectors(geo, s)[a] != Sectors(geo, s)[b] {
      SectorsApart(geo, s, a, b);
    }
  }

  // ---------------------------------------------------------------- free clusters

  ghost function FreeSet(img: seq<Sector>, geo: Geo): set<nat>
    requires WfDisk(img, geo)
  {
    set c: nat | c < geo.total + 2 && IsFree(img, geo, c)
  }

  ghost predicate IsFree(img: seq<Sector>, geo: Geo, c: nat)
    requires WfDisk(img, geo)
  {
    IsCluster(geo, c) && Fat(img, geo, c) == 0
  }

  ghost function SetOf(s: seq<nat>): set<nat> { set x | x in s }

  lemma {:induction false} SetOfSize(s: seq<nat>)
    requires forall i, j :: 0 <= i < j < |s| ==> s[i] != s[j]
    ensures |SetOf(s)| == |s|
  {
    if s != [] {
      SetOfSize(s[..|s| - 1]);
      assert SetOf(s) == SetOf(s[..|s| - 1]) + {s[|s| - 1]};
    } else {
      assert SetOf(s) == {};
    }
  }

  /** Clusters of a chain are not free. */
  lemma ChainInUse(img: seq<Sector>, geo: Geo, s: seq<nat>, c: nat)
    requires WfDisk(img, geo) && ChainOk(img, geo, s) && c in s
    ensures Fat(img, geo, c) != 0 && c !in FreeSet(img, geo)
  {
    hide Fat;
    var i :| 0 <= i < |s| && s[i] == c;
    assert LinkIs(img, geo, s, i);
  }

  /** The number of clusters that `size` bytes take. */
  function Need(bytesPerCluster: nat, size: nat): nat
    requires bytesPerCluster > 0
    decreases size
  {
    if size == 0 then 0 else if size <= bytesPerCluster then 1 else 1 + Need(bytesPerCluster, size - bytesPerCluster)
  }
}
