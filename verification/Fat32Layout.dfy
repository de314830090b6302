/** How `format` divides a partition, what `mount` reads from the boot sector, and that the two agree. */
module Fat32Layout {
  import opened Bytes
  import opened Fat32Table

  const MIN_SECTORS: nat := 2048
  const RESERVED: nat := 32
  const ROUNDS: nat := 8
  const ROOT: nat := 2

  function PerClusterFor(n: nat): (k: nat)
    ensures k == 1 || k == 2 || k == 4 || k == 8
  {
    if n >= 260000 then 8 else if n >= 65000 then 4 else if n >= 16000 then 2 else 1
  }

  /** The sectors of a FAT with `cc` clusters. */
  function FatFor(cc: nat): nat { ((cc + 2) * 4 + 511) / 512 }

  /** The clusters behind two FATs of `fat` sectors. */
  function CountFor(n: nat, fat: nat): nat
    requires RESERVED + 2 * fat <= n
  {
    (n - RESERVED - 2 * fat) / PerClusterFor(n)
  }

  /** A number of clusters that the partition could hold without a FAT. */
  predicate Within(n: nat, cc: nat) { n >= MIN_SECTORS && cc * PerClusterFor(n) <= n - RESERVED }

  lemma FatFits(n: nat, cc: nat)
    requires Within(n, cc)
    ensures RESERVED + 2 * FatFor(cc) <= n && FatFor(cc) > 0 && Within(n, CountFor(n, FatFor(cc)))
    ensures CountFor(n, FatFor(cc)) >= 16
    ensures cc + 2 <= PER_SECTOR * FatFor(cc) < cc + 2 + PER_SECTOR
  {}

  /** What one round of the sizing loop makes of a count. */
  function Next(n: nat, cc: nat): nat
    requires Within(n, cc)
  {
    FatFits(n, cc);
    CountFor(n, FatFor(cc))
  }

  /** More clusters need a larger FAT, which leaves fewer. */
  lemma NextFalls(n: nat, a: nat, b: nat)
    requires Within(n, a) && Within(n, b) && a <= b
    ensures Next(n, b) <= Next(n, a)
  {
    FatFits(n, a);
    FatFits(n, b);
    assert FatFor(a) <= FatFor(b);
  }

  /** The first count is too small: it leaves two sectors of FAT to every cluster. */
  lemma FirstIsLow(n: nat)
    requires n >= MIN_SECTORS
    ensures var cc := (n - RESERVED) / (PerClusterFor(n) + 2); Within(n, cc) && cc <= Next(n, cc)
  {
    var cc := (n - RESERVED) / (PerClusterFor(n) + 2);
    assert Within(n, cc);
    FatFits(n, cc);
    assert cc >= 200;
    assert FatFor(cc) <= cc;
  }

  /** Both FATs have room for every cluster and both end on the partition. */
  predicate Fits(n: nat, fat: nat, cc: nat) {
    fat > 0 && cc + 2 <= PER_SECTOR * fat && RESERVED + 2 * fat + cc * PerClusterFor(n) <= n
  }

  lemma SizedFits(n: nat, sized: nat)
    requires Within(n, sized) && Next(n, sized) <= sized
    ensures Fits(n, FatFor(sized), Next(n, sized)) && Next(n, sized) >= 16
  {
    FatFits(n, sized);
  }

  /** The round's arithmetic stays within 32 bits. */
  lemma RoundFits(n: nat, cc: nat)
    requires n < TWO_32 && Within(n, cc)
    ensures (cc + 2) * 4 + 511 < TWO_32
  {}

  /** The loop need not settle: here it goes back and forth between two counts. */
  lemma Swings()
    ensures Within(2111, 2045) && Within(2111, 2047) && Next(2111, 2045) == 2047 && Next(2111, 2047) == 2045
  {
    assert FatFor(2045) == 16 && FatFor(2047) == 17;
    assert CountFor(2111, 16) == 2047 && CountFor(2111, 17) == 2045;
  }

  /** From here on a partition has so many clusters that the last one's number looks like an end of chain. */
  const TOO_LARGE: nat := 0x803F_FFD8

  /** `cc` is within `slack` of the count that fills the partition, in parts of a cluster: 8 sectors of data and
      two 64ths of a sector of FAT each. */
  predicate Near(n: nat, cc: nat, slack: int) { -slack <= 513 * cc - 64 * (n - RESERVED) <= slack }

  /** How far a count may be off after some rounds. */
  function Slack(round: nat): (s: nat)
    ensures (round == 1 ==> s <= 0x800_0300) && (round == 2 ==> s <= 0x4_0300) && (round == 3 ==> s <= 1160)
    ensures round >= 4 ==> s <= 646
  {
    if round == 0 then 0x10_0000_0000 else Slack(round - 1) / 512 + 643
  }

  /** The count before round `round` on a large partition. */
  predicate NearBefore(n: nat, cc: nat, round: nat) { n >= 260000 ==> Near(n, cc, Slack(round)) }

  lemma FirstIsNear(n: nat)
    requires n < TWO_32
    ensures n >= MIN_SECTORS ==> NearBefore(n, (n - RESERVED) / (PerClusterFor(n) + 2), 0)
  {}

  /** One round brings the count 512 times nearer, but for rounding. */
  lemma Nearer(n: nat, cc: nat, round: nat)
    requires Within(n, cc) && NearBefore(n, cc, round)
    ensures NearBefore(n, Next(n, cc), round + 1)
  {
    hide FatFor;
    FatFits(n, cc);
    if n >= 260000 { NextBounds(n, cc); }
  }

  lemma NextBounds(n: nat, cc: nat)
    requires 260000 <= n && Within(n, cc)
    ensures 64 * (n - RESERVED) - 641 <= 512 * Next(n, cc) + cc <= 64 * (n - RESERVED) - 2
  {
    hide FatFor;
    FatFits(n, cc);
  }

  /** A count that a round leaves as it is, is near. */
  lemma SettledIsNear(n: nat, cc: nat)
    requires Within(n, cc) && Next(n, cc) == cc
    ensures NearBefore(n, cc, ROUNDS - 1)
  {
    hide Next;
    if n >= 260000 { NextBounds(n, cc); }
  }

  /** A FAT sized for a count that near leaves the last cluster's number below the end marks exactly if the
      partition is smaller. */
  lemma WhereEndsBegin(n: nat, sized: nat)
    requires Within(n, sized) && NearBefore(n, sized, ROUNDS - 1)
    ensures Next(n, sized) + 1 >= FIRST_END <==> n >= TOO_LARGE
  {
    hide FatFor;
    FatFits(n, sized);
    assert n >= 260000 ==> Near(n, sized, 646);
    if TOO_LARGE <= n < TOO_LARGE + 2 {
      assert sized <= 0x0FFF_FFFE;
      assert FatFor(sized) <= 0x20_0000;
    }
  }

  /** The sizing loop of `format`, with eight rounds and its early exit. The counts swing around the right one, by
      turns too small and too large, so after the last round the FAT was sized for at least as many clusters as
      there are, even where the loop does not settle. The last cluster is numbered `cc + 1`; from `TOO_LARGE` sectors
      on, and only there, the loops over chains take that number for an end. */
  method Size(n: nat) returns (fat: nat, cc: nat)
    requires MIN_SECTORS <= n < TWO_32
    ensures RESERVED + 2 * fat <= n && cc == CountFor(n, fat) && cc >= 16 && Fits(n, fat, cc)
    ensures cc + 1 >= FIRST_END <==> n >= TOO_LARGE
  {
    hide FatFor, CountFor, Within, Fits, PerClusterFor, NearBefore;
    cc := (n - RESERVED) / (PerClusterFor(n) + 2);
    FirstIsLow(n);
    FirstIsNear(n);
    FatFits(n, cc);
    fat := FatFor(cc);
    ghost var sized := cc;
    var iter := 0;
    while iter < ROUNDS
      invariant iter <= ROUNDS && Within(n, cc) && (if iter % 2 == 0 then cc <= Next(n, cc) else Next(n, cc) <= cc)
      invariant iter > 0 ==> Within(n, sized) && fat == FatFor(sized) && cc == Next(n, sized)
      invariant iter > 0 && iter % 2 == 0 ==> cc <= sized
      invariant NearBefore(n, cc, iter) && (iter > 0 ==> NearBefore(n, sized, iter - 1))
    {
      FatFits(n, cc);
      RoundFits(n, cc);
      Nearer(n, cc, iter);
      fat := FatFor(cc);
      sized := cc;
      var newCount := CountFor(n, fat);
      if newCount == cc {
        SettledIsNear(n, cc);
        break;
      }
      if iter % 2 == 0 { NextFalls(n, cc, newCount); } else { NextFalls(n, newCount, cc); }
      iter, cc := iter + 1, newCount;
    }
    FatFits(n, sized);
    SizedFits(n, sized);
    WhereEndsBegin(n, sized);
  }

  // ---------------------------------------------------------------- the boot sector

  const JUMP_AND_OEM: seq<byte> := [0xEB, 0x58, 0x90, 77, 83, 87, 73, 78, 52, 46, 49]
  const DRIVE_TO_TYPE: seq<byte> :=
    [0x80, 0, 0x29, 0x12, 0x34, 0x56, 0x78] + [80, 79, 68, 85, 77, 65, 84, 79, 83, 32, 32] +
      [70, 65, 84, 51, 50, 32, 32, 32]

  /** Sector size, cluster size, reserved sectors and FATs; no 16-bit counts. */
  function FrontFields(perCluster: byte): (s: seq<byte>)
    ensures |s| == 21
  {
    LittleEndian(SECTOR, 2) + [perCluster] + LittleEndian(RESERVED, 2) + [2] + [0, 0, 0, 0] + [0xF8] + [0, 0] +
    [0x20, 0, 0x40, 0] + [0, 0, 0, 0]
  }

  /** The boot sector that `format` writes. */
  function Boot(n: nat, fat: nat): (b: seq<byte>)
    ensures |b| == SECTOR
  {
    JUMP_AND_OEM + FrontFields(PerClusterFor(n)) + LittleEndian(n, 4) + LittleEndian(fat, 4) + [0, 0, 0, 0] +
    LittleEndian(ROOT, 4) + [1, 0, 6, 0] + Zeros(12) + DRIVE_TO_TYPE + Zeros(420) + [0x55, 0xAA]
  }

  datatype Mounted = NotFat32 | Mounted(geo: Geo, root: nat)

  /** What `mount` makes of a boot sector. The source does not look at the number of FATs, divides by any cluster
      size and subtracts without a test; this model mounts none of the sectors where that matters. */
  function MountOf(b: seq<byte>): Mounted
    requires |b| == SECTOR
  {
    var fatSize, reserved, perCluster := GetU32(b, 36), GetU16(b, 14), b[13];
    var before := reserved + 2 * fatSize;
    if GetU16(b, 11) != SECTOR || GetU16(b, 22) != 0 || fatSize == 0 || b[16] != 2 || perCluster == 0 then NotFat32
    else if GetU32(b, 32) < before then NotFat32
    else Mounted(Geo(reserved, fatSize, perCluster, (GetU32(b, 32) - before) / perCluster), GetU32(b, 44))
  }

  lemma FrontSays(k: byte)
    ensures var f := FrontFields(k);
            f[0..2] == LittleEndian(SECTOR, 2) && f[2] == k && f[3..5] == LittleEndian(RESERVED, 2) && f[5] == 2 &&
            f[11..13] == [0, 0]
  {
    hide LittleEndian;
  }

  /** `mount` finds in the boot sector what `format` put there. */
  lemma MountSays(n: nat, fat: nat)
    requires n < TWO_32 && 0 < fat && RESERVED + 2 * fat <= n
    ensures MountOf(Boot(n, fat)) == Mounted(Geo(RESERVED, fat, PerClusterFor(n), CountFor(n, fat)), ROOT)
  {
    hide LittleEndian, Number, FrontFields, PerClusterFor;
    var b, f := Boot(n, fat), FrontFields(PerClusterFor(n));
    WordSizes();
    FrontSays(PerClusterFor(n));
    assert b[11..32] == f;
    assert b[11..13] == f[0..2] && b[14..16] == f[3..5] && b[22..24] == f[11..13] && b[13] == f[2] && b[16] == f[5];
    assert b[32..36] == LittleEndian(n, 4) && b[36..40] == LittleEndian(fat, 4) && b[44..48] == LittleEndian(ROOT, 4);
    NumberOfLittleEndian(SECTOR, 2);
    NumberOfLittleEndian(RESERVED, 2);
    NumberOfLittleEndian(n, 4);
    NumberOfLittleEndian(fat, 4);
    NumberOfLittleEndian(ROOT, 4);
    NumberOfZeros([0, 0]);
  }
}
