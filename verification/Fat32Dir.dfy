/** Files and directories as chains of clusters: the sectors of a chain, the bytes of a file, and the 32-byte
    entries of a directory. */
module Fat32Dir {
  import opened Bytes
  import opened Fat32Table

  type Ent = s: seq<byte> | |s| == 32 witness seq(32, _ => 0)
  type Name83 = s: seq<byte> | |s| == 11 witness seq(11, _ => 32)

  const ENTRY: nat := 32
  const PER_DIR_SECTOR: nat := 16
  const DELETED: byte := 0xE5
  const ATTR_DIRECTORY: nat := 0x10
  const ATTR_ARCHIVE: byte := 0x20
  const ATTR_LONG_NAME: nat := 0x0F

  // ---------------------------------------------------------------- the sectors of a chain

  /** `cluster_to_lba`, from the start of the partition. */
  function Lba(geo: Geo, c: nat): nat
    requires c >= 2
  {
    DataStart(geo) + Span(geo, c - 2)
  }

  predicate Clusters(geo: Geo, s: seq<nat>) {
    forall i :: 0 <= i < |s| ==> IsCluster(geo, s[i])
  }

  function SectorIn(geo: Geo, c: nat, t: nat): nat
    requires c >= 2
  {
    Lba(geo, c) + t
  }

  /** The sectors of a cluster. */
  function Run(geo: Geo, c: nat): (l: seq<nat>)
    requires c >= 2
    ensures |l| == geo.perCluster
  {
    seq(geo.perCluster, t requires 0 <= t => SectorIn(geo, c, t))
  }

  /** The sectors of a chain, in order. */
  function Sectors(geo: Geo, s: seq<nat>): (l: seq<nat>)
    requires Clusters(geo, s)
    ensures |l| == Span(geo, |s|)
  {
    if s == [] then []
    else
      SpanNext(geo, |s| - 1);
      Sectors(geo, s[..|s| - 1]) + Run(geo, s[|s| - 1])
  }

  lemma SpanNext(geo: Geo, n: nat)
    ensures Span(geo, n + 1) == Span(geo, n) + geo.perCluster && Span(geo, 0) == 0
  {}

  lemma {:induction false} SpanMonotone(geo: Geo, m: nat, n: nat)
    requires m < n
    ensures Span(geo, m) + geo.perCluster <= Span(geo, n)
    decreases n - m
  {
    hide Span;
    SpanNext(geo, m);
    if m + 1 < n { SpanMonotone(geo, m + 1, n); }
  }

  /** Sector `t` of cluster `i` of the chain. */
  lemma {:induction false} SectorAt(geo: Geo, s: seq<nat>, i: nat, t: nat)
    requires Clusters(geo, s) && i < |s| && t < geo.perCluster
    ensures Span(geo, i) + t < |Sectors(geo, s)| && Sectors(geo, s)[Span(geo, i) + t] == Lba(geo, s[i]) + t
    decreases |s|
  {
    hide Lba, Span;
    SpanMonotone(geo, i, |s|);
    SpanNext(geo, |s| - 1);
    if i < |s| - 1 {
      SpanMonotone(geo, i, |s| - 1);
      SectorAt(geo, s[..|s| - 1], i, t);
    }
  }

  /** A sector of a chain is a sector of one of its clusters. */
  lemma {:induction false} SectorOf(geo: Geo, s: seq<nat>, j: nat) returns (i: nat, t: nat)
    requires Clusters(geo, s) && j < |Sectors(geo, s)|
    ensures i < |s| && t < geo.perCluster && j == Span(geo, i) + t && Sectors(geo, s)[j] == Lba(geo, s[i]) + t
    decreases |s|
  {
    hide Lba, Span;
    SpanNext(geo, |s| - 1);
    if j < Span(geo, |s| - 1) {
      i, t := SectorOf(geo, s[..|s| - 1], j);
    } else {
      i, t := |s| - 1, j - Span(geo, |s| - 1);
      SectorAt(geo, s, i, t);
    }
  }

  /** Different clusters have different sectors, all behind the FAT and on the disk. */
  lemma LbasApart(geo: Geo, c: nat, d: nat, t: nat, u: nat)
    requires IsCluster(geo, c) && IsCluster(geo, d) && t < geo.perCluster && u < geo.perCluster
    ensures Lba(geo, c) + t == Lba(geo, d) + u ==> c == d && t == u
    ensures DataStart(geo) <= Lba(geo, c) + t < DataStart(geo) + Span(geo, geo.total)
  {
    hide Span;
    if c < d { SpanMonotone(geo, c - 2, d - 2); } else if d < c { SpanMonotone(geo, d - 2, c - 2); }
    SpanMonotone(geo, c - 2, geo.total);
  }

  /** The sectors of a chain of different clusters are different and lie in the data area. */
  lemma SectorsApart(geo: Geo, s: seq<nat>, j: nat, k: nat)
    requires Clusters(geo, s) && j < |Sectors(geo, s)| && k < |Sectors(geo, s)|
    requires forall a, b :: 0 <= a < b < |s| ==> s[a] != s[b]
    ensures Sectors(geo, s)[j] == Sectors(geo, s)[k] ==> j == k
    ensures DataStart(geo) <= Sectors(geo, s)[j] < DataStart(geo) + Span(geo, geo.total)
  {
    hide Lba, Span, Sectors;
    var i, t := SectorOf(geo, s, j);
    var m, u := SectorOf(geo, s, k);
    LbasApart(geo, s[i], s[m], t, u);
  }

  /** Disjoint chains have disjoint sectors. */
  lemma ChainsApart(geo: Geo, s: seq<nat>, r: seq<nat>, j: nat, k: nat)
    requires Clusters(geo, s) && Clusters(geo, r) && j < |Sectors(geo, s)| && k < |Sectors(geo, r)|
    requires forall c :: c in s ==> c !in r
    ensures Sectors(geo, s)[j] != Sectors(geo, r)[k]
  {
    hide Lba, Span, Sectors;
    var i, t := SectorOf(geo, s, j);
    var m, u := SectorOf(geo, r, k);
    LbasApart(geo, s[i], r[m], t, u);
    assert s[i] in s && r[m] in r;
  }

  // ---------------------------------------------------------------- bytes and entries

  predicate OnDisk(img: seq<Sector>, l: seq<nat>) {
    (forall j :: 0 <= j < |l| ==> l[j] < |img|) && forall x :: 0 <= x < |img| ==> |img[x]| == SECTOR
  }

  /** The bytes of a run of sectors. */
  function Data(img: seq<Sector>, l: seq<nat>): (d: seq<byte>)
    requires OnDisk(img, l)
    ensures |d| == SECTOR * |l|
  {
    seq(SECTOR * |l|, q requires 0 <= q < SECTOR * |l| => img[l[q / SECTOR]][q % SECTOR])
  }

  function EntAt(b: Sector, i: nat): Ent
    requires |b| == SECTOR && i < PER_DIR_SECTOR
  {
    b[ENTRY * i..ENTRY * i + ENTRY]
  }

  /** The entries of a directory, sector by sector. */
  function Ents(img: seq<Sector>, l: seq<nat>): (es: seq<Ent>)
    requires OnDisk(img, l)
    ensures |es| == PER_DIR_SECTOR * |l|
  {
    seq(PER_DIR_SECTOR * |l|, q requires 0 <= q < PER_DIR_SECTOR * |l| => EntAt(img[l[q / PER_DIR_SECTOR]],
      q % PER_DIR_SECTOR))
  }

  lemma EntIndex(img: seq<Sector>, l: seq<nat>, j: nat, i: nat)
    requires OnDisk(img, l) && j < |l| && i < PER_DIR_SECTOR
    ensures PER_DIR_SECTOR * j + i < |Ents(img, l)| && Ents(img, l)[PER_DIR_SECTOR * j + i] == EntAt(img[l[j]], i)
  {}

  /** A 32-byte change of one sector changes one entry. */
  lemma OneEntry(img: seq<Sector>, l: seq<nat>, j: nat, i: nat, e: Ent)
    requires OnDisk(img, l) && j < |l| && i < PER_DIR_SECTOR
    requires forall a, b :: 0 <= a < b < |l| ==> l[a] != l[b]
    ensures var img' := img[l[j] := Patch(img[l[j]], ENTRY * i, e)];
            OnDisk(img', l) && Ents(img', l) == Ents(img, l)[PER_DIR_SECTOR * j + i := e]
  {
    hide Patch;
    var b := img[l[j]];
    var img' := img[l[j] := Patch(b, ENTRY * i, e)];
    forall q | 0 <= q < PER_DIR_SECTOR * |l|
      ensures Ents(img', l)[q] == if q == PER_DIR_SECTOR * j + i then e else Ents(img, l)[q]
    {
      var k, m := q / PER_DIR_SECTOR, q % PER_DIR_SECTOR;
      if k == j { PatchWindow(b, ENTRY * i, e, ENTRY * m, ENTRY); }
    }
  }

  lemma DataSplit(img: seq<Sector>, a: seq<nat>, b: seq<nat>)
    requires OnDisk(img, a) && OnDisk(img, b)
    ensures OnDisk(img, a + b) && Data(img, a + b) == Data(img, a) + Data(img, b)
  {
    forall q | 0 <= q < SECTOR * |a + b| ensures Data(img, a + b)[q] == (Data(img, a) + Data(img, b))[q] {
      if q >= SECTOR * |a| { Behind(q, |a|); }
    }
  }

  lemma Behind(q: nat, n: nat)
    requires q >= SECTOR * n
    ensures (q - SECTOR * n) / SECTOR == q / SECTOR - n && (q - SECTOR * n) % SECTOR == q % SECTOR
  {}

  /** The same sectors hold the same bytes and entries. */
  lemma SameSectors(img: seq<Sector>, img': seq<Sector>, l: seq<nat>)
    requires OnDisk(img, l) && OnDisk(img', l) && forall j :: 0 <= j < |l| ==> img'[l[j]] == img[l[j]]
    ensures Data(img', l) == Data(img, l) && Ents(img', l) == Ents(img, l)
  {}

  // ---------------------------------------------------------------- one entry

  function FirstByte(e: Ent): byte { e[0] }
  function NameOf(e: Ent): Name83 { e[..11] }
  function AttrOf(e: Ent): nat { e[11] }
  function ClusterOf(e: Ent): nat { GetU16(e, 20) * TWO_16 + GetU16(e, 26) }
  function SizeOf(e: Ent): nat { GetU32(e, 28) }
  predicate IsDirectory(e: Ent) { AttrOf(e) / ATTR_DIRECTORY % 2 == 1 }

  predicate Free(e: Ent) { FirstByte(e) == 0 || FirstByte(e) == DELETED }

  /** The scan of `find_entry` looks at this entry's name. */
  predicate Visible(e: Ent) { !Free(e) && AttrOf(e) != ATTR_LONG_NAME }

  predicate Hit(e: Ent, n: Name83) { Visible(e) && NameOf(e) == n }

  /** The index of the entry `find_entry` stops at: the first hit, unless an entry that was never used comes
      first; -1 if there is none. */
  function Find(es: seq<Ent>, n: Name83): (k: int)
    ensures -1 <= k < |es|
  {
    if es == [] || FirstByte(es[0]) == 0 then -1
    else if Hit(es[0], n) then 0
    else
      var k := Find(es[1..], n);
      if k < 0 then -1 else k + 1
  }

  /** Behind an entry that was never used there are only such entries, and no name is there twice. */
  ghost predicate DirOk(es: seq<Ent>) {
    (forall i, j :: 0 <= i < j < |es| && FirstByte(es[i]) == 0 ==> FirstByte(es[j]) == 0) &&
    forall i, j :: 0 <= i < j < |es| && Visible(es[i]) && Visible(es[j]) ==> NameOf(es[i]) != NameOf(es[j])
  }

  /** In such a directory an entry is found exactly when it is a hit. */
  lemma {:induction false} FindIs(es: seq<Ent>, n: Name83)
    requires DirOk(es)
    ensures forall k :: 0 <= k < |es| ==> (Hit(es[k], n) <==> Find(es, n) == k)
    decreases |es|
  {
    hide Hit;
    if es != [] && FirstByte(es[0]) != 0 {
      FindIs(es[1..], n);
      forall k | 0 <= k < |es| ensures Hit(es[k], n) <==> Find(es, n) == k {
        if k > 0 { assert es[1..][k - 1] == es[k]; }
        OneHit(es, n, k);
      }
    } else {
      forall k | 0 <= k < |es| ensures !Hit(es[k], n) { NoHit(es, n, k); }
    }
  }

  lemma OneHit(es: seq<Ent>, n: Name83, k: nat)
    requires DirOk(es) && k < |es|
    ensures k > 0 && Hit(es[0], n) ==> !Hit(es[k], n)
  {}

  lemma NoHit(es: seq<Ent>, n: Name83, k: nat)
    requires DirOk(es) && k < |es| && FirstByte(es[0]) == 0
    ensures !Hit(es[k], n)
  {}

  // ---------------------------------------------------------------- a directory as a map

  datatype Option<T> = None | Some(value: T)

  /** What the directory says of a name. */
  function Get(es: seq<Ent>, n: Name83): Option<Ent> {
    var k := Find(es, n);
    if k < 0 then None else Some(es[k])
  }

  /** The first free slot takes an entry under a new name: the map gains exactly it. */
  lemma Created(es: seq<Ent>, k: nat, e: Ent, n: Name83)
    requires DirOk(es) && k < |es| && Free(es[k]) && forall i :: 0 <= i < k ==> !Free(es[i])
    requires Visible(e) && NameOf(e) == n && Find(es, n) < 0
    ensures DirOk(es[k := e]) && Find(es[k := e], n) == k
    ensures forall m: Name83 :: Get(es[k := e], m) == if m == n then Some(e) else Get(es, m)
  {
    hide Find;
    var fs := es[k := e];
    FindIs(es, n);
    forall i, j | 0 <= i < j < |fs| && Visible(fs[i]) && Visible(fs[j]) ensures NameOf(fs[i]) != NameOf(fs[j]) {
      if i == k { assert !Hit(es[j], n); }
      if j == k { assert !Hit(es[i], n); }
    }
    assert DirOk(fs);
    FindIs(fs, n);
    assert Hit(fs[k], n);
    forall m: Name83 ensures Get(fs, m) == if m == n then Some(e) else Get(es, m) {
      FindIs(es, m);
      FindIs(fs, m);
      if m != n { SameFind(es, fs, m, k); }
    }
  }

  lemma SameFind(es: seq<Ent>, fs: seq<Ent>, m: Name83, k: nat)
    requires |fs| == |es| && k < |es| && !Hit(es[k], m) && !Hit(fs[k], m)
    requires forall i :: 0 <= i < |es| && i != k ==> fs[i] == es[i]
    requires forall i :: 0 <= i < |es| ==> (Hit(es[i], m) <==> Find(es, m) == i)
    requires forall i :: 0 <= i < |fs| ==> (Hit(fs[i], m) <==> Find(fs, m) == i)
    ensures Find(fs, m) == Find(es, m) && Get(fs, m) == Get(es, m)
  {
    hide Find, Hit;
    var a, b := Find(es, m), Find(fs, m);
    if a >= 0 { assert Hit(fs[a], m); }
    if b >= 0 { assert Hit(es[b], m); }
  }

  lemma GoneFind(es: seq<Ent>, fs: seq<Ent>, n: Name83, k: nat)
    requires |fs| == |es| && k < |es| && Find(es, n) == k && Free(fs[k])
    requires forall i :: 0 <= i < |es| && i != k ==> fs[i] == es[i]
    requires forall i :: 0 <= i < |es| ==> (Hit(es[i], n) <==> Find(es, n) == i)
    requires forall i :: 0 <= i < |fs| ==> (Hit(fs[i], n) <==> Find(fs, n) == i)
    ensures Get(fs, n) == None
  {
    hide Find;
    forall i | 0 <= i < |fs| ensures !Hit(fs[i], n) {
      if i != k { assert fs[i] == es[i]; }
    }
  }

  /** An entry was marked deleted: the map loses exactly its name. */
  lemma Deleted(es: seq<Ent>, k: nat, e: Ent, n: Name83)
    requires DirOk(es) && Find(es, n) == k < |es| && FirstByte(e) == DELETED
    ensures DirOk(es[k := e]) && Free(es[k := e][k])
    ensures forall m: Name83 :: Get(es[k := e], m) == if m == n then None else Get(es, m)
  {
    hide Find;
    var fs := es[k := e];
    FindIs(es, n);
    assert Hit(es[k], n);
    assert DirOk(fs);
    FindIs(fs, n);
    forall m: Name83 ensures Get(fs, m) == if m == n then None else Get(es, m) {
      FindIs(es, m);
      FindIs(fs, m);
      if m != n { SameFind(es, fs, m, k); } else { GoneFind(es, fs, n, k); }
    }
  }

  /** The entry found got a new size and nothing else. */
  lemma Resized(es: seq<Ent>, k: nat, e: Ent, n: Name83)
    requires DirOk(es) && Find(es, n) == k < |es| && Visible(e) && NameOf(e) == n
    ensures DirOk(es[k := e])
    ensures forall m: Name83 :: Get(es[k := e], m) == if m == n then Some(e) else Get(es, m)
  {
    hide Find;
    var fs := es[k := e];
    FindIs(es, n);
    assert Hit(es[k], n);
    assert DirOk(fs);
    FindIs(fs, n);
    assert Hit(fs[k], n);
    forall m: Name83 ensures Get(fs, m) == if m == n then Some(e) else Get(es, m) {
      FindIs(es, m);
      FindIs(fs, m);
      if m != n { SameFind(es, fs, m, k); }
    }
  }
}
