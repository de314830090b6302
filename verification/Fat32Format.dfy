/** `format` and `mount`: a formatted volume is in order, with an empty root directory. */
module Fat32Format {
  import opened Bytes
  import opened Fat32Table
  import opened Fat32Dir
  import opened Fat32State
  import opened Fat32Steps
  import opened Fat32Volume
  import opened Fat32Files
  import opened Fat32Layout

  /** The volume that `format` makes of `n` sectors, given the size of a FAT. */
  function GeoFor(n: nat, fat: nat): Geo
    requires RESERVED + 2 * fat <= n
  {
    Geo(RESERVED, fat, PerClusterFor(n), CountFor(n, fat))
  }

  /** The first sector of a fresh FAT: three entries are taken, the root directory's among them. */
  function FatHead(): (b: Sector)
    ensures |b| == SECTOR
  {
    [0xF8, 0xFF, 0xFF, 0x0F, 0xFF, 0xFF, 0xFF, 0x0F, 0xFF, 0xFF, 0xFF, 0x0F] + Zeros(500)
  }

  /** The information sector. */
  function InfoSector(): (b: Sector)
    ensures |b| == SECTOR
  {
    [0x52, 0x52, 0x61, 0x41] + Zeros(480) + seq(8, _ => 0xFF) + Zeros(18) + [0x55, 0xAA]
  }

  predicate Sectored(img: seq<Sector>) { forall x :: 0 <= x < |img| ==> |img[x]| == SECTOR }

  /** Sector `x` of a fresh FAT that starts at `start`. */
  function FreshSector(x: int): Sector { if x == 0 then FatHead() else Zeros(SECTOR) }

  ghost predicate FreshFats(img: seq<Sector>, fat: nat, m: nat) {
    RESERVED + 2 * fat <= |img| && m <= fat &&
    forall s :: 0 <= s < m ==> img[RESERVED + s] == FreshSector(s) && img[RESERVED + fat + s] == FreshSector(s)
  }

  /** What `format` leaves on the disk. */
  ghost predicate Fresh(img: seq<Sector>, fat: nat) {
    Sectored(img) && FreshFats(img, fat, fat) && fat > 0 && RESERVED + 2 * fat + PerClusterFor(|img|) <= |img| &&
    img[0] == Boot(|img|, fat) &&
    forall x :: RESERVED + 2 * fat <= x < RESERVED + 2 * fat + PerClusterFor(|img|) ==> img[x] == Zeros(SECTOR)
  }

  /** `format`: refused below 2048 sectors; otherwise the FAT has room for every cluster of the volume, and every
      cluster lies on the partition. There are always more than the sixteen clusters the source tests for. */
  method Format(disk: array<Sector>) returns (ok: bool, ghost fat: nat)
    requires Sectored(disk[..]) && disk.Length < TWO_32
    modifies disk
    ensures ok <==> disk.Length >= MIN_SECTORS
    ensures ok ==> Fresh(disk[..], fat) && Fits(disk.Length, fat, CountFor(disk.Length, fat))
    ensures ok ==> CountFor(disk.Length, fat) >= 16
    ensures ok ==> (CountFor(disk.Length, fat) + 1 >= FIRST_END <==> disk.Length >= TOO_LARGE)
    ensures !ok ==> disk[..] == old(disk[..])
  {
    hide Boot, FatHead, InfoSector, Fits, PerClusterFor, CountFor, FreshSector;
    var n := disk.Length;
    if n < MIN_SECTORS { return false, 0; }
    var fatSize, clusters := Size(n);
    fat := fatSize;
    FitsRoot(n, fatSize, clusters);
    disk[0] := Boot(n, fatSize);
    disk[6] := Boot(n, fatSize);
    disk[1] := InfoSector();
    WriteFats(disk, fatSize);
    WriteRoot(disk, fatSize);
    ok := true;
  }

  lemma FitsRoot(n: nat, fat: nat, cc: nat)
    requires Fits(n, fat, cc) && cc >= 16
    ensures fat > 0 && RESERVED + 2 * fat + PerClusterFor(n) <= n && PerClusterFor(n) > 0
  {}

  method WriteFats(disk: array<Sector>, fat: nat)
    requires Sectored(disk[..]) && fat > 0 && RESERVED + 2 * fat <= disk.Length
    modifies disk
    ensures Sectored(disk[..]) && FreshFats(disk[..], fat, fat) && disk[0] == old(disk[0])
  {
    hide FatHead;
    disk[RESERVED] := FatHead();
    disk[RESERVED + fat] := FatHead();
    var s := 1;
    while s < fat
      invariant 1 <= s <= fat && Sectored(disk[..]) && FreshFats(disk[..], fat, s) && disk[0] == old(disk[0])
    {
      disk[RESERVED + s] := Zeros(SECTOR);
      disk[RESERVED + fat + s] := Zeros(SECTOR);
      s := s + 1;
    }
  }

  method WriteRoot(disk: array<Sector>, fat: nat)
    requires Sectored(disk[..]) && FreshFats(disk[..], fat, fat) && fat > 0
    requires RESERVED + 2 * fat + PerClusterFor(disk.Length) <= disk.Length && disk[0] == Boot(disk.Length, fat)
    modifies disk
    ensures Fresh(disk[..], fat)
  {
    hide FatHead, Boot, PerClusterFor, FreshSector;
    var s := 0;
    while s < PerClusterFor(disk.Length)
      invariant s <= PerClusterFor(disk.Length) && Sectored(disk[..]) && FreshFats(disk[..], fat, fat)
      invariant disk[0] == old(disk[0])
      invariant forall x :: RESERVED + 2 * fat <= x < RESERVED + 2 * fat + s ==> disk[x] == Zeros(SECTOR)
    {
      disk[RESERVED + 2 * fat + s] := Zeros(SECTOR);
      s := s + 1;
    }
  }

  // ---------------------------------------------------------------- the fresh volume is in order

  lemma FreshWf(img: seq<Sector>, fat: nat)
    requires MIN_SECTORS <= |img| && Fresh(img, fat) && Fits(|img|, fat, CountFor(|img|, fat))
    requires 16 <= CountFor(|img|, fat) <= FIRST_END - 2
    ensures WfDisk(img, GeoFor(|img|, fat)) && Mirrored(img, GeoFor(|img|, fat))
    ensures IsCluster(GeoFor(|img|, fat), ROOT) && Lba(GeoFor(|img|, fat), ROOT) == RESERVED + 2 * fat
  {
    hide Boot, FatHead, FreshSector, CountFor, PerClusterFor;
    var geo := GeoFor(|img|, fat);
    forall x | geo.fatStart <= x < geo.fatStart + geo.fatSize ensures img[x] == img[x + geo.fatSize] {
      assert img[RESERVED + (x - RESERVED)] == FreshSector(x - RESERVED);
    }
  }

  /** Entries 0, 1 and 2 are ends of chains, all others free. */
  lemma FreshEntry(img: seq<Sector>, geo: Geo, fat: nat, c: nat)
    requires WfDisk(img, geo) && geo.fatStart == RESERVED && geo.fatSize == fat && FreshFats(img, fat, fat) &&
      c < Entries(geo)
    ensures Fat(img, geo, c) == 0 || Fat(img, geo, c) >= FIRST_END
    ensures Fat(img, geo, c) >= FIRST_END <==> c < 3
  {
    EntryFits(geo, c);
    var x := FatSector(geo, c) - RESERVED;
    assert img[RESERVED + x] == FreshSector(x);
    HeadWords(c);
    if c >= 3 { ZeroWord(FreshSector(x), FatOff(c)); }
  }

  lemma HeadWords(c: nat)
    ensures c < 3 ==> GetU32(FatHead(), 4 * c) % TWO_28 >= FIRST_END
  {
    if c < 3 {
      assert FatHead()[4 * c..4 * c + 4] == [if c == 0 then 0xF8 else 0xFF, 0xFF, 0xFF, 0x0F];
      assert Number([if c == 0 then 0xF8 else 0xFF, 0xFF, 0xFF, 0x0F]) == (if c == 0 then 0xF8 else 0xFF) +
        256 * Number([0xFF, 0xFF, 0x0F]);
      assert Number([0xFF, 0xFF, 0x0F]) == 0xFF + 256 * Number([0xFF, 0x0F]);
      assert Number([0xFF, 0x0F]) == 0xFF + 256 * Number([0x0F]);
      assert Number([0x0F]) == 0x0F;
    }
  }

  const ROOT_CHAIN: Chains := map[ROOT := [ROOT]]

  lemma FreshBase(img: seq<Sector>, fat: nat)
    requires MIN_SECTORS <= |img| && Fresh(img, fat) && Fits(|img|, fat, CountFor(|img|, fat))
    requires 16 <= CountFor(|img|, fat) <= FIRST_END - 2
    ensures Base(img, GeoFor(|img|, fat), ROOT_CHAIN, ROOT)
  {
    hide Boot, FatHead, FreshSector, CountFor, PerClusterFor, Fits, Fat, WfDisk;
    var geo := GeoFor(|img|, fat);
    FreshWf(img, fat);
    forall c: nat | c < Entries(geo) ensures IsEnd(Fat(img, geo, c)) || Fat(img, geo, c) < Entries(geo) {
      FreshEntry(img, geo, fat, c);
    }
    InTheFat(img, geo);
    FreshEntry(img, geo, fat, ROOT);
    assert LinkIs(img, geo, [ROOT], 0);
  }

  lemma InTheFat(img: seq<Sector>, geo: Geo)
    requires WfDisk(img, geo) && IsCluster(geo, ROOT)
    ensures ROOT < Entries(geo)
  {}

  lemma ZeroEnt(b: Sector, r: nat)
    requires b == Zeros(SECTOR) && r < PER_DIR_SECTOR
    ensures FirstByte(EntAt(b, r)) == 0
  {}

  /** A formatted volume is in order, and its root directory is empty. */
  lemma FreshWhole(img: seq<Sector>, fat: nat)
    requires MIN_SECTORS <= |img| && Fresh(img, fat) && Fits(|img|, fat, CountFor(|img|, fat))
    requires 16 <= CountFor(|img|, fat) <= FIRST_END - 2
    ensures Whole(img, GeoFor(|img|, fat), ROOT_CHAIN, ROOT)
    ensures forall m: Name83 :: Get(EntsIn(img, GeoFor(|img|, fat), ROOT_CHAIN, ROOT), m) == None
  {
    hide Boot, FatHead, FreshSector, CountFor, PerClusterFor, Fits, Fat, Base, Find, Lba, Span, Sectors, EntsIn, WfDisk,
      EntsOf;
    var geo := GeoFor(|img|, fat);
    FreshBase(img, fat);
    FreshWf(img, fat);
    var es := EntsIn(img, geo, ROOT_CHAIN, ROOT);
    DirChain(img, geo, ROOT_CHAIN, ROOT);
    ChainOnDisk(img, geo, [ROOT]);
    assert |es| == PER_DIR_SECTOR * Span(geo, 1);
    SpanNext(geo, 0);
    forall k | 0 <= k < |es| ensures FirstByte(es[k]) == 0 {
      var j, r := k / PER_DIR_SECTOR, k % PER_DIR_SECTOR;
      DirSector(img, geo, [ROOT], j);
      SectorAt(geo, [ROOT], 0, j);
      ZeroEnt(img[Sectors(geo, [ROOT])[j]], r);
      assert es[PER_DIR_SECTOR * j + r] == EntAt(img[Sectors(geo, [ROOT])[j]], r);
    }
    PartsWhole(img, geo, ROOT_CHAIN, ROOT);
    forall m: Name83 ensures Get(es, m) == None { FoundAt(es, m, 0); }
  }

  /** `format`, then `mount`: the volume is in order, the root directory is empty and every cluster but its own is
      free. */
  method FormatAndMount(disk: array<Sector>) returns (fs: FatFiles)
    requires Sectored(disk[..]) && MIN_SECTORS <= disk.Length < TOO_LARGE
    modifies disk
    ensures fs.Sound() && fs.vol.disk == disk && fs.current == ROOT && fs.chains == ROOT_CHAIN
    ensures forall m: Name83 :: fs.FileOf(m) == None
  {
    hide Boot, FatHead, CountFor, PerClusterFor, Fits, Whole, FileIn, MountOf, FreshFats, Base, EntsIn;
    var ok;
    ghost var fat;
    ok, fat := Format(disk);
    var n := disk.Length;
    var mounted := MountOf(disk[0]);
    MountSays(n, fat);
    var vol := new FatVolume(mounted.geo, disk);
    FreshWhole(disk[..], fat);
    fs := new FatFiles(vol, mounted.root, ROOT_CHAIN);
    forall m: Name83 ensures fs.FileOf(m) == None {
      NoFile(disk[..], GeoFor(n, fat), ROOT_CHAIN, ROOT, m);
      assert fs.FileOf(m) == FileIn(disk[..], GeoFor(n, fat), ROOT_CHAIN, ROOT, m);
    }
  }
}
