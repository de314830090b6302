/** The steps of the file operations on what a volume holds: a chain is given back, a chain grows by a cluster,
    an entry is marked deleted, an entry is created. */
module Fat32Steps {
  import opened Bytes
  import opened Fat32Table
  import opened Fat32Dir
  import opened Fat32State
  import opened Fat32Names

  // ---------------------------------------------------------------- scanning a directory

  ghost predicate Passed(es: seq<Ent>, n: Name83, q: nat) {
    forall k :: 0 <= k < q && k < |es| ==> FirstByte(es[k]) != 0 && !Hit(es[k], n)
  }

  lemma {:induction false} FoundAt(es: seq<Ent>, n: Name83, q: nat)
    requires q <= |es| && Passed(es, n, q)
    ensures q < |es| && Hit(es[q], n) ==> Find(es, n) == q
    ensures q == |es| || FirstByte(es[q]) == 0 ==> Find(es, n) < 0
    decreases q
  {
    hide Hit;
    if q > 0 {
      assert FirstByte(es[0]) != 0 && !Hit(es[0], n);
      forall k | 0 <= k < q - 1 && k < |es| - 1 ensures FirstByte(es[1..][k]) != 0 && !Hit(es[1..][k], n) {
        assert es[1..][k] == es[k + 1];
      }
      FoundAt(es[1..], n, q - 1);
    } else {
      HitInUse(es, n);
    }
  }

  lemma HitInUse(es: seq<Ent>, n: Name83)
    ensures es != [] && Hit(es[0], n) ==> FirstByte(es[0]) != 0
  {}

  ghost predicate Taken(es: seq<Ent>, q: nat) { forall k :: 0 <= k < q && k < |es| ==> !Free(es[k]) }

  // ---------------------------------------------------------------- walking along a directory

  /** Entry `k` of the directory and where it lies. */
  ghost predicate Located(img: seq<Sector>, geo: Geo, cs: Chains, cur: nat, k: int, e: Ent, lba: nat, off: nat)
    requires Base(img, geo, cs, cur)
  {
    0 <= k < |EntsIn(img, geo, cs, cur)| && e == EntsIn(img, geo, cs, cur)[k] &&
      k / PER_DIR_SECTOR < |Sectors(geo, cs[cur])| &&
    lba == Sectors(geo, cs[cur])[k / PER_DIR_SECTOR] && off == ENTRY * (k % PER_DIR_SECTOR)
  }

  /** Where a walk along a chain stands. */
  ghost predicate AtChain(d: seq<nat>, i: nat, cluster: nat) {
    i <= |d| && if i < |d| then cluster == d[i] else cluster >= FIRST_END
  }

  lemma DirChain(img: seq<Sector>, geo: Geo, cs: Chains, cur: nat)
    requires Base(img, geo, cs, cur)
    ensures WfDisk(img, geo) && cur in cs && cs[cur] != [] && cs[cur][0] == cur && Clusters(geo, cs[cur]) &&
      ChainOk(img, geo, cs[cur])
    ensures EntsIn(img, geo, cs, cur) == EntsOf(img, geo, cs[cur])
    ensures forall i :: 0 <= i < |cs[cur]| ==> cs[cur][i] < FIRST_END
  {
    assert Headed(geo, cs, cur);
  }

  lemma NextOf(img: seq<Sector>, geo: Geo, d: seq<nat>, i: nat)
    requires WfDisk(img, geo) && ChainOk(img, geo, d) && i < |d|
    ensures d[i] < Entries(geo) && AtChain(d, i + 1, Fat(img, geo, d[i]))
  {
    hide Fat;
    assert LinkIs(img, geo, d, i);
  }

  lemma NonePassed(es: seq<Ent>, n: Name83)
    ensures Passed(es, n, 0)
  {}

  /** Sector `j` of the directory holds its entries from 16 `j`. */
  lemma DirSector(img: seq<Sector>, geo: Geo, d: seq<nat>, j: nat)
    requires WfDisk(img, geo) && Clusters(geo, d) && j < |Sectors(geo, d)|
    ensures Sectors(geo, d)[j] < |img| && |img[Sectors(geo, d)[j]]| == SECTOR
    ensures |EntsOf(img, geo, d)| == PER_DIR_SECTOR * |Sectors(geo, d)|
    ensures forall r :: 0 <= r < PER_DIR_SECTOR ==>
      EntsOf(img, geo, d)[PER_DIR_SECTOR * j + r] == EntAt(img[Sectors(geo, d)[j]], r)
  {
    hide Sectors, Ents, EntAt;
    ChainOnDisk(img, geo, d);
    forall r | 0 <= r < PER_DIR_SECTOR
      ensures PER_DIR_SECTOR * j + r < |EntsOf(img, geo, d)|
      ensures EntsOf(img, geo, d)[PER_DIR_SECTOR * j + r] == EntAt(img[Sectors(geo, d)[j]], r)
    {
      EntIndex(img, Sectors(geo, d), j, r);
    }
  }

  lemma PassSector(img: seq<Sector>, geo: Geo, d: seq<nat>, n: Name83, j: nat, r: nat)
    requires WfDisk(img, geo) && Clusters(geo, d) && j < |Sectors(geo, d)| && r <= PER_DIR_SECTOR
    requires Sectors(geo, d)[j] < |img| && |img[Sectors(geo, d)[j]]| == SECTOR
    requires Passed(EntsOf(img, geo, d), n, PER_DIR_SECTOR * j)
    requires forall k :: 0 <= k < r ==>
      FirstByte(EntAt(img[Sectors(geo, d)[j]], k)) != 0 && !Hit(EntAt(img[Sectors(geo, d)[j]], k), n)
    ensures Passed(EntsOf(img, geo, d), n, PER_DIR_SECTOR * j + r)
    ensures r < PER_DIR_SECTOR ==> PER_DIR_SECTOR * j + r < |EntsOf(img, geo, d)|
    ensures r < PER_DIR_SECTOR && Hit(EntAt(img[Sectors(geo, d)[j]], r), n) ==>
      Find(EntsOf(img, geo, d), n) == PER_DIR_SECTOR * j + r
    ensures r < PER_DIR_SECTOR && FirstByte(EntAt(img[Sectors(geo, d)[j]], r)) == 0 ==> Find(EntsOf(img, geo, d), n) < 0
  {
    hide Sectors, EntsOf, EntAt, Hit, Find;
    DirSector(img, geo, d, j);
    var es := EntsOf(img, geo, d);
    forall k | 0 <= k < PER_DIR_SECTOR * j + r && k < |es| ensures FirstByte(es[k]) != 0 && !Hit(es[k], n) {
      if k >= PER_DIR_SECTOR * j {
        assert es[PER_DIR_SECTOR * j + (k - PER_DIR_SECTOR * j)] ==
          EntAt(img[Sectors(geo, d)[j]], k - PER_DIR_SECTOR * j);
      }
    }
    if r < PER_DIR_SECTOR { FoundAt(es, n, PER_DIR_SECTOR * j + r); }
  }

  lemma PlaceOf(img: seq<Sector>, geo: Geo, cs: Chains, cur: nat, j: nat, r: nat)
    requires Base(img, geo, cs, cur) && Headed(geo, cs, cur) && j < |Sectors(geo, cs[cur])| && r < PER_DIR_SECTOR
    requires Sectors(geo, cs[cur])[j] < |img| && |img[Sectors(geo, cs[cur])[j]]| == SECTOR
    ensures Located(img, geo, cs, cur, PER_DIR_SECTOR * j + r, EntAt(img[Sectors(geo, cs[cur])[j]], r),
                    Sectors(geo, cs[cur])[j], r * ENTRY)
  {
    hide Sectors, EntsOf, EntAt, Base;
    DirChain(img, geo, cs, cur);
    DirSector(img, geo, cs[cur], j);
  }

  lemma NoneTaken(es: seq<Ent>)
    ensures Taken(es, 0)
  {}

  lemma SomeFree(es: seq<Ent>, k: nat)
    requires k < |es| && Free(es[k])
    ensures !Taken(es, |es|)
  {}

  lemma TakenSector(img: seq<Sector>, geo: Geo, d: seq<nat>, j: nat, r: nat)
    requires WfDisk(img, geo) && Clusters(geo, d) && j < |Sectors(geo, d)| && r <= PER_DIR_SECTOR
    requires Sectors(geo, d)[j] < |img| && |img[Sectors(geo, d)[j]]| == SECTOR
    requires Taken(EntsOf(img, geo, d), PER_DIR_SECTOR * j)
    requires forall k :: 0 <= k < r ==> !Free(EntAt(img[Sectors(geo, d)[j]], k))
    ensures Taken(EntsOf(img, geo, d), PER_DIR_SECTOR * j + r)
    ensures r < PER_DIR_SECTOR ==> PER_DIR_SECTOR * j + r < |EntsOf(img, geo, d)|
    ensures r < PER_DIR_SECTOR ==> EntsOf(img, geo, d)[PER_DIR_SECTOR * j + r] == EntAt(img[Sectors(geo, d)[j]], r)
  {
    hide Sectors, EntsOf, EntAt, Free;
    DirSector(img, geo, d, j);
    var es := EntsOf(img, geo, d);
    forall k | 0 <= k < PER_DIR_SECTOR * j + r && k < |es| ensures !Free(es[k]) {
      if k >= PER_DIR_SECTOR * j {
        assert es[PER_DIR_SECTOR * j + (k - PER_DIR_SECTOR * j)] ==
          EntAt(img[Sectors(geo, d)[j]], k - PER_DIR_SECTOR * j);
      }
    }
  }

  lemma NothingChanged(img: seq<Sector>, geo: Geo, cs: Chains, cur: nat)
    requires Base(img, geo, cs, cur)
    ensures SameFat(img, img, geo) && Keeps(img, img, geo, cs - {cur})
  {
    hide Sectors, ChainOk, Fat;
    OthersApart(geo, cs, cur);
    KeepsNothingChanged(img, geo, cs - {cur});
  }

  function WithMark(es: seq<Ent>, k: int): seq<Ent> {
    if 0 <= k < |es| then es[k := es[k][0 := DELETED]] else es
  }

  // ---------------------------------------------------------------- a chain is given back

  /** The entries of one chain were zeroed and nothing else: the chain leaves the family, its clusters are free. */
  lemma Released(img: seq<Sector>, img': seq<Sector>, geo: Geo, cs: Chains, cur: nat, c: nat)
    requires Base(img, geo, cs, cur) && c in cs && c != cur && WfDisk(img', geo) && Mirrored(img', geo)
    requires SameData(img, img', geo)
    requires forall x: nat :: x < Entries(geo) ==> Fat(img', geo, x) == if x in cs[c] then 0 else Fat(img, geo, x)
    ensures Base(img', geo, cs - {c}, cur) && Kept(img, img', geo, cs - {c})
    ensures FreeSet(img', geo) == FreeSet(img, geo) + SetOf(cs[c]) && SetOf(cs[c]) !! FreeSet(img, geo)
    ensures |SetOf(cs[c])| == |cs[c]|
  {
    hide Fat, Mirrored, WfDisk, SameData, ChainOk, Kept;
    assert Headed(geo, cs, c) && ChainOk(img, geo, cs[c]);
    OthersApart(geo, cs, c);
    ChainIn(img, geo, cs[c]);
    InEntries(img, geo, cs);
    forall d, x | d in cs - {c} && x in cs[d] ensures Fat(img', geo, x) == Fat(img, geo, x) {
      assert Disjoint(cs[d], cs[c]);
    }
    FatStep(img, img', geo, cs - {c});
    KeptChains(img, img', geo, cs - {c});
    ChainDiffers(img, geo, cs[c]);
    SetOfSize(cs[c]);
    forall x | x in cs[c] ensures x !in FreeSet(img, geo) { ChainInUse(img, geo, cs[c], x); }
    forall x: nat ensures x in FreeSet(img', geo) <==> x in FreeSet(img, geo) + SetOf(cs[c]) {
      if IsCluster(geo, x) { InFat(img, geo, x); }
    }
  }

  lemma InEntries(img: seq<Sector>, geo: Geo, cs: Chains)
    requires WfDisk(img, geo) && Apart(geo, cs)
    ensures forall c, x :: c in cs && x in cs[c] ==> x < Entries(geo)
  {
    hide WfDisk;
    forall c, x | c in cs && x in cs[c] ensures x < Entries(geo) {
      assert Headed(geo, cs, c);
      ChainIn(img, geo, cs[c]);
    }
  }

  lemma InFat(img: seq<Sector>, geo: Geo, c: nat)
    requires WfDisk(img, geo) && IsCluster(geo, c)
    ensures c < Entries(geo)
  {}

  lemma KeptChains(img: seq<Sector>, img': seq<Sector>, geo: Geo, cs: Chains)
    requires WfDisk(img, geo) && Apart(geo, cs) && Kept(img, img', geo, cs)
    ensures WfDisk(img', geo) && ChainsOk(img', geo, cs)
  {}

  lemma ChainDiffers(img: seq<Sector>, geo: Geo, s: seq<nat>)
    requires WfDisk(img, geo) && ChainOk(img, geo, s)
    ensures forall i, j :: 0 <= i < j < |s| ==> s[i] != s[j]
  {}

  // ---------------------------------------------------------------- a chain grows

  /** A chain beside the family, still growing. */
  ghost predicate Growing(img: seq<Sector>, geo: Geo, cs: Chains, s: seq<nat>)
    requires WfDisk(img, geo)
  {
    (s == [] || ChainOk(img, geo, s)) && forall c :: c in cs ==> Disjoint(s, cs[c])
  }

  /** A free cluster got the end mark and the last cluster of the chain leads to it. */
  lemma Grown(img: seq<Sector>, img': seq<Sector>, geo: Geo, cs: Chains, cur: nat, s: seq<nat>, c: nat)
    requires Base(img, geo, cs, cur) && Growing(img, geo, cs, s) && IsFree(img, geo, c)
    requires WfDisk(img', geo) && Mirrored(img', geo) && SameData(img, img', geo)
    requires forall x: nat :: x < Entries(geo) ==>
      Fat(img', geo, x) == if x == c then END_MARK else if s != [] && x == s[|s| - 1] then c else Fat(img, geo, x)
    ensures Base(img', geo, cs, cur) && Kept(img, img', geo, cs) && Growing(img', geo, cs, s + [c])
    ensures FreeSet(img', geo) == FreeSet(img, geo) - {c} && c in FreeSet(img, geo)
  {
    hide Fat, Mirrored, WfDisk, SameData, ChainOk, Kept;
    InFat(img, geo, c);
    InEntries(img, geo, cs);
    forall d, x | d in cs && x in cs[d] ensures Fat(img', geo, x) == Fat(img, geo, x) && x != c {
      assert Headed(geo, cs, d) && Disjoint(s, cs[d]);
      ChainInUse(img, geo, cs[d], x);
      if s != [] { assert s[|s| - 1] in s; }
    }
    FatStep(img, img', geo, cs);
    KeptChains(img, img', geo, cs);
    GrownChain(img, img', geo, s, c);
    LastInUse(img, geo, s);
    forall x: nat ensures x in FreeSet(img', geo) <==> x in FreeSet(img, geo) - {c} {
      if IsCluster(geo, x) { InFat(img, geo, x); }
    }
    forall d | d in cs ensures Disjoint(s + [c], cs[d]) { assert Disjoint(s, cs[d]); }
  }

  lemma LastInUse(img: seq<Sector>, geo: Geo, s: seq<nat>)
    requires WfDisk(img, geo) && (s == [] || ChainOk(img, geo, s))
    ensures s != [] ==> !IsFree(img, geo, s[|s| - 1])
  {
    hide Fat, ChainOk;
    if s != [] { ChainInUse(img, geo, s, s[|s| - 1]); }
  }

  lemma GrownChain(img: seq<Sector>, img': seq<Sector>, geo: Geo, s: seq<nat>, c: nat)
    requires WfDisk(img, geo) && WfDisk(img', geo) && (s == [] || ChainOk(img, geo, s)) && IsFree(img, geo, c)
    requires forall x: nat :: x < Entries(geo) ==>
      Fat(img', geo, x) == if x == c then END_MARK else if s != [] && x == s[|s| - 1] then c else Fat(img, geo, x)
    ensures ChainOk(img', geo, s + [c])
  {
    hide Fat;
    var r := s + [c];
    forall x | x in s ensures x != c { ChainInUse(img, geo, s, x); }
    forall i | 0 <= i < |s| ensures s[i] in s {}
    forall i | 0 <= i < |r| ensures LinkIs(img', geo, r, i) {
      if i < |s| { assert LinkIs(img, geo, s, i); }
    }
  }

  /** A finished chain joins the family. */
  lemma Joined(img: seq<Sector>, geo: Geo, cs: Chains, cur: nat, s: seq<nat>)
    requires Base(img, geo, cs, cur) && Growing(img, geo, cs, s) && s != []
    ensures s[0] !in cs && Base(img, geo, cs[s[0] := s], cur) && cs[s[0] := s] - {s[0]} == cs
  {
    hide Fat, Mirrored, WfDisk, InRange;
    forall c | c in cs ensures c != s[0] {
      assert Headed(geo, cs, c) && Disjoint(s, cs[c]);
      assert cs[c][0] in cs[c] && s[0] in s;
    }
    var ds := cs[s[0] := s];
    forall c | c in ds ensures Headed(geo, ds, c) {
      if c != s[0] { assert Headed(geo, cs, c); }
    }
    forall c, d | c in ds && d in ds && c != d ensures Disjoint(ds[c], ds[d]) {
      if c == s[0] { assert Disjoint(s, cs[d]); } else if d == s[0] { assert Disjoint(s, cs[c]); }
    }
  }

  /** A cluster at the end of a chain: its bytes follow those of the chain. */
  lemma BytesGrown(img: seq<Sector>, geo: Geo, s: seq<nat>, c: nat)
    requires WfDisk(img, geo) && Clusters(geo, s) && IsCluster(geo, c) && OnDisk(img, Run(geo, c))
    ensures Clusters(geo, s + [c])
    ensures BytesOf(img, geo, s + [c]) == BytesOf(img, geo, s) + Data(img, Run(geo, c))
  {
    hide Span, Lba, WfDisk;
    assert (s + [c])[..|s|] == s;
    ChainOnDisk(img, geo, s);
    ChainOnDisk(img, geo, s + [c]);
    DataSplit(img, Sectors(geo, s), Run(geo, c));
  }

  // ---------------------------------------------------------------- the directory's entries

  /** The families agree on what the directory's chains are, but for a chain no entry has. */
  lemma ListedGrows(es: seq<Ent>, geo: Geo, cs: Chains, cur: nat, s: seq<nat>)
    requires Listed(es, geo, cs, cur) && s != [] && s[0] !in cs
    ensures Listed(es, geo, cs[s[0] := s], cur)
  {
    hide Visible, ClusterOf, SizeOf, Span;
    var ds := cs[s[0] := s];
    forall k | 0 <= k < |es| && Named(es[k]) ensures EntryOk(geo, ds, cur, es[k]) {
      assert EntryOk(geo, cs, cur, es[k]);
    }
  }

  /** An entry that is no longer visible takes its chain with it. */
  lemma ListedLess(es: seq<Ent>, geo: Geo, cs: Chains, cur: nat, k: nat, e: Ent, c: nat)
    requires Listed(es, geo, cs, cur) && k < |es| && Named(es[k]) && Free(e)
    requires c == ClusterOf(es[k]) && c != 0
    ensures Listed(es[k := e], geo, cs - {c}, cur)
  {
    hide ClusterOf, SizeOf, Span;
    var fs := es[k := e];
    forall i | 0 <= i < |fs| && Named(fs[i]) ensures EntryOk(geo, cs - {c}, cur, fs[i]) {
      assert i != k && EntryOk(geo, cs, cur, es[i]);
      assert !SameChain(es[i], es[k]) || !SameChain(es[k], es[i]);
    }
    forall i, j | 0 <= i < j < |fs| && Named(fs[i]) && Named(fs[j]) ensures !SameChain(fs[i], fs[j]) {
      assert i != k && j != k && !SameChain(es[i], es[j]);
    }
  }

  lemma ListedGone(es: seq<Ent>, geo: Geo, cs: Chains, cur: nat, k: nat, e: Ent)
    requires Listed(es, geo, cs, cur) && k < |es| && Free(e)
    ensures Listed(es[k := e], geo, cs, cur)
  {
    hide ClusterOf, SizeOf, Span;
    var fs := es[k := e];
    forall i | 0 <= i < |fs| && Named(fs[i]) ensures EntryOk(geo, cs, cur, fs[i]) {
      assert i != k && EntryOk(geo, cs, cur, es[i]);
    }
    forall i, j | 0 <= i < j < |fs| && Named(fs[i]) && Named(fs[j]) ensures !SameChain(fs[i], fs[j]) {
      assert i != k && j != k && !SameChain(es[i], es[j]);
    }
  }

  /** No entry of the directory has this chain. */
  ghost predicate Unlisted(es: seq<Ent>, c: nat) {
    forall k :: 0 <= k < |es| && Named(es[k]) ==> ClusterOf(es[k]) != c
  }

  lemma NewUnlisted(es: seq<Ent>, geo: Geo, cs: Chains, cur: nat, c: nat)
    requires Listed(es, geo, cs, cur) && c !in cs && c != 0
    ensures Unlisted(es, c)
  {
    hide ClusterOf, SizeOf, Span, Visible, IsDirectory;
    forall k | 0 <= k < |es| && Named(es[k]) ensures ClusterOf(es[k]) != c { assert EntryOk(geo, cs, cur, es[k]); }
  }

  lemma ListedMore(es: seq<Ent>, geo: Geo, cs: Chains, cur: nat, k: nat, e: Ent)
    requires Listed(es, geo, cs, cur) && k < |es| && EntryOk(geo, cs, cur, e)
    requires ClusterOf(e) != 0 ==> forall i :: 0 <= i < |es| && i != k && Named(es[i]) ==>
      ClusterOf(es[i]) != ClusterOf(e)
    ensures Listed(es[k := e], geo, cs, cur)
  {
    hide ClusterOf, SizeOf, Span, Visible, IsDirectory;
    var fs := es[k := e];
    forall i | 0 <= i < |fs| && Named(fs[i]) ensures EntryOk(geo, cs, cur, fs[i]) {
      if i != k { assert EntryOk(geo, cs, cur, es[i]); }
    }
    forall i, j | 0 <= i < j < |fs| && Named(fs[i]) && Named(fs[j]) ensures !SameChain(fs[i], fs[j]) {
      if i != k && j != k { assert !SameChain(es[i], es[j]); }
    }
  }

  /** An entry in a free slot that still reads as free: the map is the same. */
  lemma CreatedUnseen(es: seq<Ent>, k: nat, e: Ent)
    requires DirOk(es) && k < |es| && Free(es[k]) && FirstByte(e) == DELETED
    requires forall i :: 0 <= i < k ==> !Free(es[i])
    ensures DirOk(es[k := e])
    ensures forall m: Name83 :: Get(es[k := e], m) == Get(es, m)
  {
    hide Find, Get;
    var fs := es[k := e];
    assert DirOk(fs);
    forall m: Name83 ensures Get(fs, m) == Get(es, m) {
      FindIs(es, m);
      FindIs(fs, m);
      SameFind(es, fs, m, k);
    }
  }

  /** An entry is replaced on the disk: the directory's list changes there and nowhere else. */
  lemma EntryPut(img: seq<Sector>, geo: Geo, cs: Chains, cur: nat, k: nat, e0: Ent, lba: nat, off: nat, e: Ent)
    requires Base(img, geo, cs, cur) && Located(img, geo, cs, cur, k, e0, lba, off)
    ensures lba < |img| && |img[lba]| == SECTOR && off + ENTRY <= SECTOR && e0 == EntAt(img[lba], off / ENTRY)
    ensures var img' := img[lba := Patch(img[lba], off, e)];
            Base(img', geo, cs, cur) && SameFat(img, img', geo) && Keeps(img, img', geo, cs - {cur}) &&
            EntsIn(img', geo, cs, cur) == EntsIn(img, geo, cs, cur)[k := e]
  {
    hide Sectors, Patch, EntsOf, EntAt, Base, Kept, SameFat, Fat, ChainOk, WfDisk, Apart;
    DirChain(img, geo, cs, cur);
    var d, j, i := cs[cur], k / PER_DIR_SECTOR, k % PER_DIR_SECTOR;
    DirSector(img, geo, d, j);
    assert EntsOf(img, geo, d)[PER_DIR_SECTOR * j + i] == EntAt(img[lba], i);
    HeadedHere(img, geo, cs, cur);
    EntryWritten(img, geo, cs, cur, j, i, e);
    EntryReplaced(img, geo, d, j, i, e);
    DirChain(WithEntry(img, geo, d, j, i, e), geo, cs, cur);
    OthersHere(img, geo, cs, cur);
  }

  lemma HeadedHere(img: seq<Sector>, geo: Geo, cs: Chains, cur: nat)
    requires Base(img, geo, cs, cur)
    ensures cur in cs && Headed(geo, cs, cur)
  {}

  lemma OthersHere(img: seq<Sector>, geo: Geo, cs: Chains, cur: nat)
    requires Base(img, geo, cs, cur)
    ensures WfDisk(img, geo) && Apart(geo, cs - {cur})
  {
    OthersApart(geo, cs, cur);
  }

  lemma FreeSame(img: seq<Sector>, img': seq<Sector>, geo: Geo)
    requires SameFat(img, img', geo)
    ensures FreeSet(img', geo) == FreeSet(img, geo)
  {
    hide Fat, WfDisk, Mirrored, InRange;
    forall c: nat ensures c in FreeSet(img', geo) <==> c in FreeSet(img, geo) {
      if IsCluster(geo, c) { InFat(img, geo, c); }
    }
  }

  // ---------------------------------------------------------------- a cluster is written

  lemma SectorsOfOne(geo: Geo, c: nat)
    requires IsCluster(geo, c)
    ensures Clusters(geo, [c]) && Sectors(geo, [c]) == Run(geo, c)
  {
    hide Span, Lba;
    assert [c][..0] == [] && Sectors(geo, []) == [];
  }

  /** The last cluster of a growing chain got its bytes. */
  lemma ClusterWritten(img: seq<Sector>, img': seq<Sector>, geo: Geo, cs: Chains, cur: nat, s: seq<nat>, c: nat)
    requires IsCluster(geo, c) && Base(img, geo, cs, cur) && Growing(img, geo, cs, s + [c])
    requires WfDisk(img', geo) && |img'| == |img|
    requires forall x :: 0 <= x < |img| && x !in Run(geo, c) ==> img'[x] == img[x]
    requires OnDisk(img', Run(geo, c))
    ensures Base(img', geo, cs, cur) && SameFat(img, img', geo) && Keeps(img, img', geo, cs)
    ensures Growing(img', geo, cs, s + [c]) && Clusters(geo, s) && Clusters(geo, s + [c])
    ensures BytesOf(img', geo, s + [c]) == BytesOf(img, geo, s) + Data(img', Run(geo, c))
  {
    hide Fat, Mirrored, InRange, WfDisk, Sectors, BytesOf, Run, Apart, Kept, SameFat, ChainsOk;
    ClustersOf(img, geo, s, c);
    SectorsOfOne(geo, c);
    assert Elsewhere(img, img', geo, [c]);
    forall d | d in cs ensures Disjoint([c], cs[d]) {
      assert Disjoint(s + [c], cs[d]) && c in s + [c];
    }
    DataStep(img, img', geo, cs, [c]);
    StillGrowing(img, img', geo, cs, s + [c]);
    KeptChains(img, img', geo, cs);
    MirrorStays(img, img', geo);
    ElsewhereSame(img, img', geo, s, c);
    SameBytesIs(img, img', geo, s);
    BytesGrown(img', geo, s, c);
  }

  lemma MirrorStays(img: seq<Sector>, img': seq<Sector>, geo: Geo)
    requires SameFat(img, img', geo) && Mirrored(img, geo) && InRange(img, geo)
    ensures Mirrored(img', geo) && InRange(img', geo)
  {}

  lemma ClustersOf(img: seq<Sector>, geo: Geo, s: seq<nat>, c: nat)
    requires WfDisk(img, geo) && ChainOk(img, geo, s + [c])
    ensures Clusters(geo, s) && Clusters(geo, s + [c]) && IsCluster(geo, c) && c !in s
  {
    hide Fat;
    var r := s + [c];
    assert r[|s|] == c;
    forall i | 0 <= i < |s| ensures s[i] == r[i] && s[i] != c {}
  }

  lemma StillGrowing(img: seq<Sector>, img': seq<Sector>, geo: Geo, cs: Chains, s: seq<nat>)
    requires WfDisk(img, geo) && Growing(img, geo, cs, s) && SameFat(img, img', geo) && Clusters(geo, s)
    ensures WfDisk(img', geo) && Growing(img', geo, cs, s)
  {
    hide Fat, WfDisk, Mirrored, InRange, ChainOk;
    ChainIn(img, geo, s);
    if s != [] { ChainSame(img, img', geo, s); }
  }

  lemma ElsewhereSame(img: seq<Sector>, img': seq<Sector>, geo: Geo, s: seq<nat>, c: nat)
    requires WfDisk(img, geo) && WfDisk(img', geo) && Clusters(geo, s) && IsCluster(geo, c) && c !in s
    requires Clusters(geo, [c]) && Elsewhere(img, img', geo, [c])
    ensures SameBytes(img, img', geo, s)
  {
    hide Sectors, WfDisk;
    ChainOnDisk(img, geo, s);
    forall j | 0 <= j < |Sectors(geo, s)| ensures Sectors(geo, s)[j] !in Sectors(geo, [c]) {
      forall k | 0 <= k < |Sectors(geo, [c])| ensures Sectors(geo, [c])[k] != Sectors(geo, s)[j] {
        ChainsApart(geo, [c], s, k, j);
      }
    }
  }

  /** The chain begins with these bytes. */
  ghost predicate Stored(img: seq<Sector>, geo: Geo, s: seq<nat>, d: seq<byte>) {
    WfDisk(img, geo) && Clusters(geo, s) && |d| <= SECTOR * Span(geo, |s|) && BytesOf(img, geo, s)[..|d|] == d
  }

  lemma NothingWritten(img: seq<Sector>, geo: Geo, cs: Chains, cur: nat, d: seq<byte>)
    requires Base(img, geo, cs, cur) && d == []
    ensures Growing(img, geo, cs, []) && Keeps(img, img, geo, cs) && Stored(img, geo, [], d) && SetOf([]) == {}
    ensures Span(geo, 0) == 0 && geo.perCluster > 0
  {
    hide Sectors, ChainOk;
    KeepsNothingChanged(img, geo, cs);
  }

  lemma LastEntry(img: seq<Sector>, geo: Geo, cs: Chains, s: seq<nat>)
    requires WfDisk(img, geo) && Growing(img, geo, cs, s)
    ensures s != [] ==> 2 <= s[|s| - 1] < Entries(geo) && !IsFree(img, geo, s[|s| - 1])
  {
    hide Fat;
    LastInUse(img, geo, s);
  }

  lemma SmallCluster(img: seq<Sector>, geo: Geo, c: nat)
    requires WfDisk(img, geo) && IsCluster(geo, c)
    ensures c % TWO_28 == c
  {}

  lemma AllKept(img: seq<Sector>, geo: Geo, cs: Chains, cur: nat)
    requires Base(img, geo, cs, cur)
    ensures Keeps(img, img, geo, cs)
  {
    KeepsNothingChanged(img, geo, cs);
  }

  lemma SameDataTrans(a: seq<Sector>, b: seq<Sector>, c: seq<Sector>, geo: Geo)
    requires SameData(a, b, geo) && SameData(b, c, geo)
    ensures SameData(a, c, geo)
  {}

  /** Linking a cluster leaves the bytes before it. */
  lemma StoredStays(img: seq<Sector>, img': seq<Sector>, geo: Geo, s: seq<nat>, d: seq<byte>)
    requires Stored(img, geo, s, d) && WfDisk(img', geo) && SameData(img, img', geo)
    ensures Stored(img', geo, s, d)
  {
    hide Sectors, WfDisk;
    ChainOnDisk(img, geo, s);
    assert SameBytes(img, img', geo, s);
    SameBytesIs(img, img', geo, s);
  }

  lemma StoredMore(img: seq<Sector>, img': seq<Sector>, geo: Geo, s: seq<nat>, c: nat, data: seq<byte>, at: nat, n: nat)
    requires at + n <= |data| && at == SECTOR * Span(geo, |s|) && Stored(img, geo, s, data[..at]) && IsCluster(geo, c)
    requires WfDisk(img', geo) && Clusters(geo, s + [c]) && OnDisk(img', Run(geo, c)) && n <= SECTOR * geo.perCluster
    requires BytesOf(img', geo, s + [c]) == BytesOf(img, geo, s) + Data(img', Run(geo, c))
    requires Data(img', Run(geo, c))[..n] == data[at..at + n]
    ensures Stored(img', geo, s + [c], data[..at + n])
  {
    hide WfDisk, Run, BytesOf, Data, Span;
    SpanNext(geo, |s|);
    var a, b := BytesOf(img, geo, s), Data(img', Run(geo, c));
    assert a == data[..at];
    assert (a + b)[..at + n] == a + b[..n] == data[..at + n];
  }

  lemma NeedMore(bpc: nat, size: nat)
    requires bpc > 0 && size > 0
    ensures Need(bpc, size) >= 1 && Need(bpc, size) == 1 + Need(bpc, size - if size < bpc then size else bpc)
  {}

  lemma NeedNothing(bpc: nat)
    requires bpc > 0
    ensures Need(bpc, 0) == 0
  {}

  lemma FullNow(a: set<nat>, b: set<nat>)
    requires b <= a && a - b == {}
    ensures |a| == |b|
  {
    forall x | x in a ensures x in b { assert x !in a - b; }
    assert a == b;
  }

  lemma SizeWithin(a: set<nat>, b: set<nat>)
    requires b <= a
    ensures |b| <= |a|
  {
    assert a == b + (a - b);
  }

  lemma OneMore(a: set<nat>, s: seq<nat>, c: nat)
    requires SetOf(s) <= a && |SetOf(s)| == |s| && c in a - SetOf(s)
    ensures SetOf(s + [c]) == SetOf(s) + {c} && |SetOf(s + [c])| == |s + [c]|
    ensures SetOf(s + [c]) <= a && a - SetOf(s + [c]) == a - SetOf(s) - {c}
  {
    assert SetOf(s + [c]) == SetOf(s) + {c};
  }

  // ---------------------------------------------------------------- files

  /** A file is the same when its entry and the sectors of its chain are. */
  lemma FileSame(img: seq<Sector>, img': seq<Sector>, geo: Geo, cs: Chains, cs': Chains, cur: nat, ds: Chains,
      m: Name83)
    requires Whole(img, geo, cs, cur) && Whole(img', geo, cs', cur) && Keeps(img, img', geo, ds)
    requires Get(EntsIn(img', geo, cs', cur), m) == Get(EntsIn(img, geo, cs, cur), m)
    requires forall c :: c in ds ==> c in cs && c in cs' && cs[c] == ds[c] == cs'[c]
    requires var g := Get(EntsIn(img, geo, cs, cur), m);
             g.Some? && Named(g.value) && ClusterOf(g.value) != 0 ==> ClusterOf(g.value) in ds
    ensures FileIn(img', geo, cs', cur, m) == FileIn(img, geo, cs, cur, m)
  {
    hide EntsOf, Get, Base, DirOk, Listed, Sectors, ClusterOf, SizeOf, WfDisk, BytesOf;
    WholeParts(img, geo, cs, cur);
    WholeParts(img', geo, cs', cur);
    var g := Get(EntsIn(img, geo, cs, cur), m);
    if g.Some? && !IsDirectory(g.value) {
      var e := g.value;
      FoundOk(EntsIn(img, geo, cs, cur), geo, cs, cur, m);
      FoundOk(EntsIn(img', geo, cs', cur), geo, cs', cur, m);
      if ClusterOf(e) != 0 {
        assert Headed(geo, ds, ClusterOf(e)) && SameBytes(img, img', geo, ds[ClusterOf(e)]);
        SameBytesIs(img, img', geo, ds[ClusterOf(e)]);
      }
    }
  }

  lemma WholeParts(img: seq<Sector>, geo: Geo, cs: Chains, cur: nat)
    requires Whole(img, geo, cs, cur)
    ensures Base(img, geo, cs, cur) && DirOk(EntsIn(img, geo, cs, cur)) &&
      Listed(EntsIn(img, geo, cs, cur), geo, cs, cur)
    ensures WfDisk(img, geo) && Apart(geo, cs) && cur in cs && ChainsOk(img, geo, cs)
  {}

  lemma PartsWhole(img: seq<Sector>, geo: Geo, cs: Chains, cur: nat)
    requires Base(img, geo, cs, cur) && DirOk(EntsIn(img, geo, cs, cur)) &&
      Listed(EntsIn(img, geo, cs, cur), geo, cs, cur)
    ensures Whole(img, geo, cs, cur)
  {}

  // ---------------------------------------------------------------- a file is removed

  /** The chain that leaves the volume with the entry of a name: 0 for none. */
  ghost function ChainOf(es: seq<Ent>, n: Name83): nat {
    if Get(es, n).Some? then ClusterOf(Get(es, n).value) else 0
  }

  lemma NoZeroChain(img: seq<Sector>, geo: Geo, cs: Chains, cur: nat)
    requires Base(img, geo, cs, cur)
    ensures forall c :: c in cs ==> c >= 2
  {
    forall c | c in cs ensures c >= 2 { assert Headed(geo, cs, c); }
  }

  /** Two names of the directory have different chains. */
  lemma OtherChain(es: seq<Ent>, geo: Geo, cs: Chains, cur: nat, n: Name83, m: Name83)
    requires DirOk(es) && Listed(es, geo, cs, cur) && m != n && Get(es, n).Some? && Get(es, m).Some?
    requires Named(Get(es, n).value) && Named(Get(es, m).value) && ClusterOf(Get(es, m).value) != 0
    ensures ClusterOf(Get(es, m).value) != ClusterOf(Get(es, n).value)
  {
    hide Find, ClusterOf, DirOk;
    FoundOk(es, geo, cs, cur, n);
    FoundOk(es, geo, cs, cur, m);
    var i, j := Find(es, n), Find(es, m);
    if i < j { assert !SameChain(es[i], es[j]); } else { assert !SameChain(es[j], es[i]); }
  }

  /** The state after an old file was freed and marked. */
  ghost predicate OldGone(img: seq<Sector>, img': seq<Sector>, geo: Geo, cs: Chains, cs': Chains, cur: nat, n: Name83) {
    Whole(img, geo, cs, cur) && Whole(img', geo, cs', cur) && cs' == cs - {ChainOf(EntsIn(img, geo, cs, cur), n)} &&
    Keeps(img, img', geo, cs' - {cur}) &&
    (forall m: Name83 ::
      Get(EntsIn(img', geo, cs', cur), m) == if m == n then None else Get(EntsIn(img, geo, cs, cur), m)) &&
    (forall m: Name83 :: FileIn(img', geo, cs', cur, m) == if m == n then None else FileIn(img, geo, cs, cur, m))
  }

  lemma Removed(img: seq<Sector>, img': seq<Sector>, geo: Geo, cs: Chains, cs': Chains, cur: nat, n: Name83)
    requires Whole(img, geo, cs, cur) && Base(img', geo, cs', cur) && Keeps(img, img', geo, cs' - {cur})
    requires var es := EntsIn(img, geo, cs, cur);
             Get(es, n).Some? && Named(Get(es, n).value) && cs' == cs - {ChainOf(es, n)} &&
             EntsIn(img', geo, cs', cur) == WithMark(es, Find(es, n))
    ensures OldGone(img, img', geo, cs, cs', cur, n)
    ensures !Taken(EntsIn(img', geo, cs', cur), |EntsIn(img', geo, cs', cur)|)
  {
    hide Base, EntsOf, EntsIn, Find, DirOk, Listed, ClusterOf, Kept, Apart, Sectors, FileIn, Named, WfDisk, Taken;
    WholeParts(img, geo, cs, cur);
    var es, k := EntsIn(img, geo, cs, cur), Find(EntsIn(img, geo, cs, cur), n);
    FoundOk(es, geo, cs, cur, n);
    Deleted(es, k, es[k][0 := DELETED], n);
    SomeFree(WithMark(es, k), k);
    NoZeroChain(img, geo, cs, cur);
    if ClusterOf(es[k]) != 0 {
      ListedLess(es, geo, cs, cur, k, es[k][0 := DELETED], ClusterOf(es[k]));
    } else {
      assert cs' == cs;
      ListedGone(es, geo, cs, cur, k, es[k][0 := DELETED]);
    }
    PartsWhole(img', geo, cs', cur);
    forall m: Name83 ensures FileIn(img', geo, cs', cur, m) == if m == n then None else FileIn(img, geo, cs, cur, m) {
      if m != n { FileStays(img, img', geo, cs, cs', cur, n, m); } else { NoFile(img', geo, cs', cur, n); }
    }
  }

  lemma NoFile(img: seq<Sector>, geo: Geo, cs: Chains, cur: nat, n: Name83)
    requires Whole(img, geo, cs, cur) && Get(EntsIn(img, geo, cs, cur), n) == None
    ensures FileIn(img, geo, cs, cur, n) == None
  {
    hide Base, EntsOf, EntsIn, Get, DirOk, Listed;
  }

  lemma FileStays(img: seq<Sector>, img': seq<Sector>, geo: Geo, cs: Chains, cs': Chains, cur: nat, n: Name83,
      m: Name83)
    requires Whole(img, geo, cs, cur) && Whole(img', geo, cs', cur) && Keeps(img, img', geo, cs' - {cur}) && m != n
    requires cs' == cs - {ChainOf(EntsIn(img, geo, cs, cur), n)}
    requires Get(EntsIn(img, geo, cs, cur), n).Some? ==> Named(Get(EntsIn(img, geo, cs, cur), n).value)
    requires Get(EntsIn(img', geo, cs', cur), m) == Get(EntsIn(img, geo, cs, cur), m)
    ensures FileIn(img', geo, cs', cur, m) == FileIn(img, geo, cs, cur, m)
  {
    hide Base, EntsOf, EntsIn, Get, DirOk, Listed, ClusterOf, Kept, Apart, Sectors, FileIn, Named, WfDisk;
    WholeParts(img, geo, cs, cur);
    var es := EntsIn(img, geo, cs, cur);
    var g := Get(es, m);
    if g.Some? && Named(g.value) && ClusterOf(g.value) != 0 {
      FoundOk(es, geo, cs, cur, m);
      if Get(es, n).Some? { OtherChain(es, geo, cs, cur, n, m); }
    }
    FileSame(img, img', geo, cs, cs', cur, cs' - {cur}, m);
  }

  /** Nothing to remove. */
  lemma NotThere(img: seq<Sector>, geo: Geo, cs: Chains, cur: nat, n: Name83)
    requires Whole(img, geo, cs, cur) && Get(EntsIn(img, geo, cs, cur), n) == None
    ensures OldGone(img, img, geo, cs, cs, cur, n)
  {
    hide Base, EntsOf, EntsIn, Get, DirOk, Listed, FileIn, Keeps;
    WholeParts(img, geo, cs, cur);
    NoZeroChain(img, geo, cs, cur);
    assert cs - {0} == cs;
    NoFile(img, geo, cs, cur, n);
    NothingChanged(img, geo, cs, cur);
  }

  // ---------------------------------------------------------------- a file is added

  /** Every chain was kept: so were the directory and its files. */
  lemma Unmoved(img: seq<Sector>, img': seq<Sector>, geo: Geo, cs: Chains, cur: nat)
    requires Whole(img, geo, cs, cur) && Base(img', geo, cs, cur) && Keeps(img, img', geo, cs)
    ensures Whole(img', geo, cs, cur) && EntsIn(img', geo, cs, cur) == EntsIn(img, geo, cs, cur)
    ensures forall m: Name83 :: FileIn(img', geo, cs, cur, m) == FileIn(img, geo, cs, cur, m)
  {
    hide EntsOf, Get, DirOk, Listed, ClusterOf, Sectors, FileIn, Named, WfDisk, Mirrored, InRange, ChainsOk, BytesOf;
    assert Headed(geo, cs, cur) && SameBytes(img, img', geo, cs[cur]);
    SameBytesIs(img, img', geo, cs[cur]);
    PartsWhole(img', geo, cs, cur);
    forall m: Name83 ensures FileIn(img', geo, cs, cur, m) == FileIn(img, geo, cs, cur, m) {
      NamedChain(img, geo, cs, cur, m);
      FileSame(img, img', geo, cs, cs, cur, cs, m);
    }
  }

  lemma NamedChain(img: seq<Sector>, geo: Geo, cs: Chains, cur: nat, m: Name83)
    requires Whole(img, geo, cs, cur)
    ensures var g := Get(EntsIn(img, geo, cs, cur), m);
            g.Some? && Named(g.value) && ClusterOf(g.value) != 0 ==> ClusterOf(g.value) in cs - {cur}
  {
    hide Base, EntsOf, EntsIn, Get, DirOk, Listed, ClusterOf, Named;
    WholeParts(img, geo, cs, cur);
    if Get(EntsIn(img, geo, cs, cur), m).Some? { FoundOk(EntsIn(img, geo, cs, cur), geo, cs, cur, m); }
  }

  /** A new chain joins: the directory and its files are the same. */
  lemma JoinedWhole(img: seq<Sector>, geo: Geo, cs: Chains, cur: nat, s: seq<nat>)
    requires Whole(img, geo, cs, cur) && Growing(img, geo, cs, s) && s != []
    ensures s[0] !in cs && Whole(img, geo, cs[s[0] := s], cur) && cs[s[0] := s] - {s[0]} == cs
    ensures EntsIn(img, geo, cs[s[0] := s], cur) == EntsIn(img, geo, cs, cur) &&
      Unlisted(EntsIn(img, geo, cs, cur), s[0])
    ensures forall m: Name83 :: FileIn(img, geo, cs[s[0] := s], cur, m) == FileIn(img, geo, cs, cur, m)
  {
    hide Base, EntsOf, Get, DirOk, Listed, ClusterOf, Sectors, FileIn, Named, WfDisk, Mirrored, InRange, ChainsOk, Kept,
      Apart;
    WholeParts(img, geo, cs, cur);
    Joined(img, geo, cs, cur, s);
    var ds := cs[s[0] := s];
    DirChain(img, geo, cs, cur);
    DirChain(img, geo, ds, cur);
    ListedGrows(EntsIn(img, geo, cs, cur), geo, cs, cur, s);
    PartsWhole(img, geo, ds, cur);
    GrowingHead(img, geo, cs, s);
    NewUnlisted(EntsIn(img, geo, cs, cur), geo, cs, cur, s[0]);
    AllKept(img, geo, cs, cur);
    forall m: Name83 ensures FileIn(img, geo, ds, cur, m) == FileIn(img, geo, cs, cur, m) {
      NamedChain(img, geo, cs, cur, m);
      FileSame(img, img, geo, cs, ds, cur, cs, m);
    }
  }

  lemma GrowingHead(img: seq<Sector>, geo: Geo, cs: Chains, s: seq<nat>)
    requires WfDisk(img, geo) && Growing(img, geo, cs, s) && s != []
    ensures 2 <= s[0] < TWO_28 && Clusters(geo, s)
  {}

  /** What the directory's list becomes when a file gets an entry in a free slot. */
  lemma AddedEntry(es: seq<Ent>, k: nat, n: Name83, first: nat, size: nat)
    requires DirOk(es) && k < |es| && Free(es[k]) && Taken(es, k) && Get(es, n) == None && n[0] != 0
    requires first < TWO_32 && size < TWO_32
    ensures var fs := es[k := NewEnt(n, ATTR_ARCHIVE, first, size)];
            DirOk(fs) && (n[0] != DELETED ==> Find(fs, n) == k) && (n[0] == DELETED ==> Find(fs, n) < 0) &&
            forall m: Name83 :: Get(fs, m) == if m == n && n[0] != DELETED then Some(fs[k]) else Get(es, m)
  {
    hide Find, DirOk, NewEnt, ClusterOf, SizeOf;
    NewEntFields(n, ATTR_ARCHIVE, first, size);
    var e := NewEnt(n, ATTR_ARCHIVE, first, size);
    assert FirstByte(e) == NameOf(e)[0];
    if n[0] != DELETED { Created(es, k, e, n); } else { CreatedUnseen(es, k, e); }
  }

  /** A file was added: the directory gains exactly it, unless its name begins with the deletion mark. */
  lemma Added(img: seq<Sector>, img': seq<Sector>, geo: Geo, cs: Chains, cur: nat, n: Name83, k: nat, first: nat,
      data: seq<byte>, size: nat)
    requires Whole(img, geo, cs, cur) && Base(img', geo, cs, cur) && Keeps(img, img', geo, cs - {cur}) && n[0] != 0
    requires var es := EntsIn(img, geo, cs, cur);
             Get(es, n) == None && k < |es| && Free(es[k]) && Taken(es, k) && (first != 0 ==> Unlisted(es, first)) &&
             EntsIn(img', geo, cs, cur) == es[k := NewEnt(n, ATTR_ARCHIVE, first, size)]
    requires if first == 0 then data == [] else first in cs && first != cur && Stored(img, geo, cs[first], data)
    requires first < TWO_28 && |data| < TWO_32 && size == if n[0] == DELETED then 0 else |data|
    ensures Whole(img', geo, cs, cur)
    ensures forall m: Name83 :: m != n ==> Get(EntsIn(img', geo, cs, cur), m) == Get(EntsIn(img, geo, cs, cur), m)
    ensures forall m: Name83 :: FileIn(img', geo, cs, cur, m) ==
              if m == n && n[0] != DELETED then Some(data) else FileIn(img, geo, cs, cur, m)
  {
    hide Base, EntsOf, EntsIn, Get, DirOk, Listed, ClusterOf, SizeOf, Kept, Apart, Sectors, FileIn, WfDisk, BytesOf,
      NewEnt;
    WholeParts(img, geo, cs, cur);
    var es, e := EntsIn(img, geo, cs, cur), NewEnt(n, ATTR_ARCHIVE, first, size);
    NewEntFields(n, ATTR_ARCHIVE, first, size);
    AddedEntry(es, k, n, first, size);
    ListedMore(es, geo, cs, cur, k, e);
    PartsWhole(img', geo, cs, cur);
    forall m: Name83 ensures FileIn(img', geo, cs, cur, m) == if m == n &&
      n[0] != DELETED then Some(data) else FileIn(img, geo, cs, cur, m) {
      if m == n && n[0] != DELETED {
        NewContent(img, img', geo, cs, cur, n, first, data, e);
      } else {
        NamedChain(img, geo, cs, cur, m);
        FileSame(img, img', geo, cs, cs, cur, cs - {cur}, m);
      }
    }
  }

  lemma NewContent(img: seq<Sector>, img': seq<Sector>, geo: Geo, cs: Chains, cur: nat, n: Name83, first: nat,
      data: seq<byte>, e: Ent)
    requires Whole(img', geo, cs, cur) && Keeps(img, img', geo, cs - {cur}) && cur in cs && Apart(geo, cs)
    requires Get(EntsIn(img', geo, cs, cur), n) == Some(e) && !IsDirectory(e) && ClusterOf(e) == first &&
      SizeOf(e) == |data|
    requires if first == 0 then data == [] else first in cs && first != cur && Stored(img, geo, cs[first], data)
    ensures FileIn(img', geo, cs, cur, n) == Some(data)
  {
    hide Base, EntsOf, EntsIn, Get, DirOk, Listed, ClusterOf, SizeOf, Sectors, WfDisk, BytesOf, ChainsOk;
    WholeParts(img', geo, cs, cur);
    FoundOk(EntsIn(img', geo, cs, cur), geo, cs, cur, n);
    if first != 0 {
      assert first in cs - {cur} && SameBytes(img, img', geo, (cs - {cur})[first]);
      SameBytesIs(img, img', geo, cs[first]);
    }
  }

  lemma HeadInFat(img: seq<Sector>, geo: Geo, cs: Chains, cur: nat, c: nat)
    requires Base(img, geo, cs, cur) && c in cs
    ensures WfDisk(img, geo) && ChainOk(img, geo, cs[c]) && cs[c] != [] && cs[c][0] == c
    ensures 2 <= c < Entries(geo) && c < FIRST_END && !IsEnd(c)
  {
    assert Headed(geo, cs, c);
  }

  lemma OthersWithout(img: seq<Sector>, geo: Geo, cs: Chains, cur: nat, c: nat)
    requires Base(img, geo, cs, cur) && c in cs
    ensures WfDisk(img, geo) && Apart(geo, cs - {c})
  {
    OthersApart(geo, cs, c);
  }

  /** The directory's own chain was kept: its list is the same. */
  lemma SameDirectory(img: seq<Sector>, img': seq<Sector>, geo: Geo, cs: Chains, cs': Chains, cur: nat)
    requires Base(img, geo, cs, cur) && Base(img', geo, cs', cur) && Keeps(img, img', geo, cs') && cs'[cur] == cs[cur]
    ensures EntsIn(img', geo, cs', cur) == EntsIn(img, geo, cs, cur)
  {
    hide EntsOf, Sectors, WfDisk, Mirrored, InRange, ChainsOk, BytesOf;
    assert Headed(geo, cs, cur) && SameBytes(img, img', geo, cs'[cur]);
    SameBytesIs(img, img', geo, cs[cur]);
  }

  lemma FollowedIn(img: seq<Sector>, geo: Geo, start: nat, s: seq<nat>)
    requires WfDisk(img, geo) && Followed(img, geo, start, s)
    ensures forall i :: 0 <= i < |s| ==> s[i] < Entries(geo)
  {}

  lemma OldGoneWhole(img: seq<Sector>, img': seq<Sector>, geo: Geo, cs: Chains, cs': Chains, cur: nat, n: Name83)
    requires OldGone(img, img', geo, cs, cs', cur, n)
    ensures Whole(img', geo, cs', cur)
  {}

  lemma OldGoneParts(img: seq<Sector>, img': seq<Sector>, geo: Geo, cs: Chains, cs': Chains, cur: nat, n: Name83)
    requires OldGone(img, img', geo, cs, cs', cur, n)
    ensures Whole(img, geo, cs, cur) && Whole(img', geo, cs', cur) &&
      cs' == cs - {ChainOf(EntsIn(img, geo, cs, cur), n)}
    ensures Keeps(img, img', geo, cs' - {cur})
    ensures forall m: Name83 ::
      Get(EntsIn(img', geo, cs', cur), m) == if m == n then None else Get(EntsIn(img, geo, cs, cur), m)
    ensures forall m: Name83 :: FileIn(img', geo, cs', cur, m) == if m == n then None else FileIn(img, geo, cs, cur, m)
  {}

  lemma ClustersExist(img: seq<Sector>, geo: Geo)
    requires WfDisk(img, geo)
    ensures geo.perCluster > 0
  {}

  lemma NoChainOf(img: seq<Sector>, geo: Geo, cs: Chains, cur: nat, n: Name83)
    requires Base(img, geo, cs, cur)
    ensures Get(EntsIn(img, geo, cs, cur), n) == None ==> ChainOf(EntsIn(img, geo, cs, cur), n) !in cs
  {
    hide EntsIn, Get, Base;
    NoZeroChain(img, geo, cs, cur);
  }

  // ---------------------------------------------------------------- a file is read

  /** The bytes of whole clusters that hold `size` bytes. */
  function Rounded(geo: Geo, size: nat): nat
    requires geo.perCluster > 0
  {
    SECTOR * Span(geo, Need(SECTOR * geo.perCluster, size))
  }

  lemma ChainFacts(img: seq<Sector>, geo: Geo, s: seq<nat>)
    requires WfDisk(img, geo) && ChainOk(img, geo, s)
    ensures Clusters(geo, s) && AtChain(s, 0, s[0]) && forall i :: 0 <= i < |s| ==> 2 <= s[i] < FIRST_END
  {}

  /** The bytes of one cluster inside those of the chain. */
  lemma ClusterBytes(img: seq<Sector>, geo: Geo, s: seq<nat>, i: nat)
    requires WfDisk(img, geo) && Clusters(geo, s) && i < |s|
    ensures OnDisk(img, Run(geo, s[i])) && SECTOR * Span(geo, i) + SECTOR * geo.perCluster <= |BytesOf(img, geo, s)|
    ensures BytesOf(img, geo, s)[SECTOR * Span(geo, i)..SECTOR * Span(geo, i) + SECTOR * geo.perCluster] ==
            Data(img, Run(geo, s[i]))
  {
    hide Span, Lba, Sectors, WfDisk;
    ChainOnDisk(img, geo, s);
    SpanMonotone(geo, i, |s|);
    var l, r, a := Sectors(geo, s), Run(geo, s[i]), Span(geo, i);
    forall t | 0 <= t < geo.perCluster ensures r[t] == l[a + t] { SectorAt(geo, s, i, t); }
    forall q | 0 <= q < SECTOR * geo.perCluster ensures Data(img, r)[q] == Data(img, l)[SECTOR * a + q] {
      Behind(SECTOR * a + q, a);
    }
  }

  /** Each turn reads a whole cluster inside the rounded size. */
  lemma ReadStep(geo: Geo, size: nat, remaining: nat, i: nat)
    requires geo.perCluster > 0 && 0 < remaining <= size
    requires i + Need(SECTOR * geo.perCluster, remaining) == Need(SECTOR * geo.perCluster, size)
    ensures SECTOR * Span(geo, i) + SECTOR * geo.perCluster <= Rounded(geo, size)
    ensures SECTOR * Span(geo, i + 1) == SECTOR * Span(geo, i) + SECTOR * geo.perCluster
    ensures remaining > SECTOR * geo.perCluster ==>
      i + 1 + Need(SECTOR * geo.perCluster, remaining - SECTOR * geo.perCluster) == Need(SECTOR * geo.perCluster, size)
  {
    hide Span;
    NeedMore(SECTOR * geo.perCluster, remaining);
    SpanMonotone(geo, i, Need(SECTOR * geo.perCluster, size));
    SpanNext(geo, i);
  }

  lemma BufferGrows(b: seq<byte>, whole: seq<byte>, at: nat, n: nat, m: nat)
    requires m <= n && at + n <= |b| && at + n <= |whole| && b[..at] == whole[..at] &&
      b[at..at + n] == whole[at..at + n]
    ensures b[..at + m] == whole[..at + m]
  {
    forall k | 0 <= k < at + m ensures b[k] == whole[k] {
      if k < at { assert b[..at][k] == whole[..at][k]; } else {
        assert b[at..at + n][k - at] == whole[at..at + n][k - at];
      }
    }
  }

  /** An entry without a chain has no bytes; another one has the first of its chain's. */
  lemma EntryParts(img: seq<Sector>, geo: Geo, cs: Chains, cur: nat, e: Ent)
    requires Base(img, geo, cs, cur) && EntryOk(geo, cs, cur, e)
    ensures WfDisk(img, geo) && Apart(geo, cs) && var c := ClusterOf(e);
            if c < 2 then Content(img, geo, cs, cur, e) == []
            else c in cs && ChainOk(img, geo, cs[c]) && cs[c][0] == c && SizeOf(e) <= SECTOR * Span(geo, |cs[c]|) &&
                 Clusters(geo, cs[c]) && Content(img, geo, cs, cur, e) == BytesOf(img, geo, cs[c])[..SizeOf(e)]
  {
    hide ClusterOf, SizeOf, Span, Mirrored, InRange, WfDisk, BytesOf;
    NoZeroChain(img, geo, cs, cur);
    if ClusterOf(e) in cs { HeadInFat(img, geo, cs, cur, ClusterOf(e)); }
  }

  lemma MarkedGet(es: seq<Ent>, n: Name83)
    requires DirOk(es)
    ensures DirOk(WithMark(es, Find(es, n)))
    ensures forall m: Name83 :: Get(WithMark(es, Find(es, n)), m) == if m == n then None else Get(es, m)
  {
    hide Find, DirOk;
    var k := Find(es, n);
    if k >= 0 {
      Deleted(es, k, es[k][0 := DELETED], n);
    } else {
      forall m: Name83 ensures Get(es, m) == if m == n then None else Get(es, m) {}
    }
  }

  /** An entry of the directory was marked: only its name is gone. */
  lemma MarkedGone(img: seq<Sector>, img': seq<Sector>, geo: Geo, cs: Chains, cur: nat, n: Name83)
    requires Whole(img, geo, cs, cur) && Base(img', geo, cs, cur) && Keeps(img, img', geo, cs - {cur})
    requires EntsIn(img', geo, cs, cur) == WithMark(EntsIn(img, geo, cs, cur), Find(EntsIn(img, geo, cs, cur), n))
    ensures Whole(img', geo, cs, cur)
    ensures forall m: Name83 ::
      Get(EntsIn(img', geo, cs, cur), m) == if m == n then None else Get(EntsIn(img, geo, cs, cur), m)
    ensures forall m: Name83 :: FileIn(img', geo, cs, cur, m) == if m == n then None else FileIn(img, geo, cs, cur, m)
  {
    hide Base, EntsOf, EntsIn, Find, DirOk, Listed, ClusterOf, Kept, Apart, Sectors, FileIn, Named, WfDisk, Visible;
    WholeParts(img, geo, cs, cur);
    var es, fs, k := EntsIn(img, geo, cs, cur), EntsIn(img', geo, cs, cur), Find(EntsIn(img, geo, cs, cur), n);
    MarkedGet(es, n);
    if k >= 0 { ListedGone(es, geo, cs, cur, k, es[k][0 := DELETED]); }
    PartsWhole(img', geo, cs, cur);
    forall m: Name83 ensures FileIn(img', geo, cs, cur, m) == if m == n then None else FileIn(img, geo, cs, cur, m) {
      if m == n {
        NoFile(img', geo, cs, cur, n);
      } else {
        NamedChain(img, geo, cs, cur, m);
        FileSame(img, img', geo, cs, cs, cur, cs - {cur}, m);
      }
    }
  }
}
