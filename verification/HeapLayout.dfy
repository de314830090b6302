/** The heap's layout as values: regions in list order, and in each region its live blocks in address
    order. `Linked` says that the headers in memory spell out exactly this layout. */
module HeapLayout {

  const ALIGNMENT: nat := 16
  const HEADER: nat := 48          // size of both header structures
  const PAGE: nat := 4096
  const MAX_PAGES: nat := 0xFFFF_FFFF / 4096
  const BLOCK_MAGIC: nat := 0xC0DE_C0DE
  const BLOCK_DEAD: nat := 0xDEAD_DEAD

  /** The header structures; addresses are numbers and 0 is the null pointer. */
  datatype RegionHeader =
    RegionHeader(prev: nat, next: nat, first: nat, pages: nat, size: nat, usage: int)
  datatype BlockHeader =
    BlockHeader(prev: nat, next: nat, region: nat, magic: nat, size: nat, reqSize: nat)

  /** A live block: its header's address, its payload size, the size that was asked for. */
  datatype Blk = Blk(addr: nat, size: nat, req: nat)
  datatype Reg = Reg(addr: nat, pages: nat, blocks: seq<Blk>)

  function Payload(b: Blk): nat { b.addr + HEADER }
  function BlkEnd(b: Blk): nat { b.addr + HEADER + b.size }
  function RegEnd(r: Reg): nat { r.addr + r.pages * PAGE }

  /** Gap `k` lies before block `k`; the last one ends at the end of the region. */
  function GapStart(r: Reg, k: nat): nat
    requires k <= |r.blocks|
  {
    if k == 0 then r.addr + HEADER else BlkEnd(r.blocks[k - 1])
  }

  function GapEnd(r: Reg, k: nat): nat
    requires k <= |r.blocks|
  {
    if k == |r.blocks| then RegEnd(r) else r.blocks[k].addr
  }

  predicate GapFits(r: Reg, k: nat, needed: nat) {
    k <= |r.blocks| && GapStart(r, k) + needed <= GapEnd(r, k)
  }

  /** Gap `k` is the first one that holds `needed` bytes. */
  ghost predicate FirstGap(r: Reg, k: nat, needed: nat) {
    GapFits(r, k, needed) && forall j: nat :: j < k ==> !GapFits(r, j, needed)
  }

  ghost predicate NoGap(r: Reg, needed: nat) {
    forall j: nat :: j <= |r.blocks| ==> !GapFits(r, j, needed)
  }

  predicate BlkOk(b: Blk) {
    b.addr % ALIGNMENT == 0 && b.size % ALIGNMENT == 0 && 0 < b.req <= b.size
  }

  /** Region header, then blocks in address order with gaps between them, all inside the region. */
  ghost predicate RegOk(r: Reg) {
    0 < r.addr && r.addr % ALIGNMENT == 0 && 16 <= r.pages <= MAX_PAGES &&
    (forall j :: 0 <= j < |r.blocks| ==> BlkOk(r.blocks[j])) &&
    InOrder(r)
  }

  ghost predicate InOrder(r: Reg) {
    (forall j {:trigger GapStart(r, j)} :: 0 <= j < |r.blocks| ==> GapStart(r, j) <= r.blocks[j].addr) &&
    GapStart(r, |r.blocks|) <= RegEnd(r)
  }

  ghost predicate Separate(a: Reg, b: Reg) {
    RegEnd(a) <= b.addr || RegEnd(b) <= a.addr
  }

  ghost predicate Geometry(rs: seq<Reg>) {
    (forall i :: 0 <= i < |rs| ==> RegOk(rs[i])) &&
    (forall i, j :: 0 <= i < j < |rs| ==> Separate(rs[i], rs[j]))
  }

  ghost predicate NoneEmpty(rs: seq<Reg>) {
    forall i :: 0 <= i < |rs| ==> rs[i].blocks != []
  }

  // ---------------------------------------------------------------- sums over blocks and regions

  function BlockBytes(bs: seq<Blk>): nat {
    if bs == [] then 0 else BlockBytes(bs[..|bs| - 1]) + HEADER + bs[|bs| - 1].size
  }

  function Requested(bs: seq<Blk>): nat {
    if bs == [] then 0 else Requested(bs[..|bs| - 1]) + bs[|bs| - 1].req
  }

  function Usage(r: Reg): nat { HEADER + BlockBytes(r.blocks) }

  function PagesOf(r: Reg): int { r.pages }
  function ReqOf(r: Reg): int { Requested(r.blocks) }
  function LiveOf(r: Reg): int { |r.blocks| }

  function Sum(rs: seq<Reg>, f: Reg -> int): int {
    if rs == [] then 0 else Sum(rs[..|rs| - 1], f) + f(rs[|rs| - 1])
  }

  lemma BytesSnoc(a: seq<Blk>, x: Blk)
    ensures BlockBytes(a + [x]) == BlockBytes(a) + HEADER + x.size
    ensures Requested(a + [x]) == Requested(a) + x.req
  {
    assert (a + [x])[..|a|] == a;
  }

  lemma {:induction false} BytesInsert(a: seq<Blk>, x: Blk, b: seq<Blk>)
    ensures BlockBytes(a + [x] + b) == BlockBytes(a + b) + HEADER + x.size
    ensures Requested(a + [x] + b) == Requested(a + b) + x.req
  {
    if b == [] {
      assert a + [x] + b == a + [x] && a + b == a;
      BytesSnoc(a, x);
    } else {
      var c, y := b[..|b| - 1], b[|b| - 1];
      BytesInsert(a, x, c);
      BytesSnoc(a + [x] + c, y);
      BytesSnoc(a + c, y);
      assert a + [x] + b == (a + [x] + c) + [y] && a + b == (a + c) + [y];
    }
  }

  lemma {:induction false} SumUpdate(rs: seq<Reg>, f: Reg -> int, i: nat, r: Reg)
    requires i < |rs|
    ensures Sum(rs[i := r], f) == Sum(rs, f) - f(rs[i]) + f(r)
  {
    var n := |rs| - 1;
    if i == n {
      assert rs[i := r][..n] == rs[..n];
    } else {
      SumUpdate(rs[..n], f, i, r);
      assert rs[i := r][..n] == rs[..n][i := r];
    }
  }

  lemma SumAppend(rs: seq<Reg>, f: Reg -> int, r: Reg)
    ensures Sum(rs + [r], f) == Sum(rs, f) + f(r)
  {
    assert (rs + [r])[..|rs|] == rs;
  }

  lemma {:induction false} SumRemove(rs: seq<Reg>, f: Reg -> int, i: nat)
    requires i < |rs|
    ensures Sum(rs[..i] + rs[i + 1..], f) == Sum(rs, f) - f(rs[i])
  {
    var n := |rs| - 1;
    if i == n {
      assert rs[..i] + rs[i + 1..] == rs[..n];
    } else {
      SumRemove(rs[..n], f, i);
      assert (rs[..i] + rs[i + 1..])[..n - 1] == rs[..n][..i] + rs[..n][i + 1..];
      assert (rs[..i] + rs[i + 1..])[n - 1] == rs[n];
    }
  }

  // ---------------------------------------------------------------- order inside a region

  lemma {:induction false} BlocksOrdered(r: Reg, i: nat, j: nat)
    requires InOrder(r) && i < j <= |r.blocks|
    ensures BlkEnd(r.blocks[i]) <= GapStart(r, j)
    ensures j < |r.blocks| ==> BlkEnd(r.blocks[i]) <= r.blocks[j].addr
    decreases j
  {
    if i + 1 < j { BlocksOrdered(r, i, j - 1); }
  }

  lemma BlockInside(r: Reg, j: nat)
    requires InOrder(r) && j < |r.blocks|
    ensures r.addr + HEADER <= r.blocks[j].addr && BlkEnd(r.blocks[j]) <= RegEnd(r)
  {
    assert GapStart(r, 0) <= r.blocks[0].addr;
    if j > 0 { BlocksOrdered(r, 0, j); }
    BlocksOrdered(r, j, |r.blocks|);
  }

  lemma BlocksApart(rs: seq<Reg>, i: nat, j: nat, k: nat, l: nat)
    requires Geometry(rs) && i < |rs| && k < |rs| && j < |rs[i].blocks| && l < |rs[k].blocks|
    requires i != k || j != l
    ensures BlkEnd(rs[i].blocks[j]) <= rs[k].blocks[l].addr || BlkEnd(rs[k].blocks[l]) <= rs[i].blocks[j].addr
  {
    BlockInside(rs[i], j);
    BlockInside(rs[k], l);
    if i == k {
      if j < l { BlocksOrdered(rs[i], j, l); } else { BlocksOrdered(rs[i], l, j); }
    } else if i < k {
      assert Separate(rs[i], rs[k]);
    } else {
      assert Separate(rs[k], rs[i]);
    }
  }

  lemma {:induction false} UsageFits(r: Reg, k: nat)
    requires InOrder(r) && k <= |r.blocks|
    ensures r.addr + HEADER + BlockBytes(r.blocks[..k]) <= GapStart(r, k)
    decreases k
  {
    if k > 0 {
      UsageFits(r, k - 1);
      assert r.blocks[..k][..k - 1] == r.blocks[..k - 1];
    }
  }

  lemma UsageBelowSize(r: Reg)
    requires RegOk(r)
    ensures Usage(r) <= r.pages * PAGE < 0x1_0000_0000
  {
    UsageFits(r, |r.blocks|);
    assert r.blocks[..|r.blocks|] == r.blocks;
  }

  // ---------------------------------------------------------------- the headers that spell a layout

  function AddrAt(bs: seq<Blk>, j: int): nat {
    if 0 <= j < |bs| then bs[j].addr else 0
  }

  function RegAddrAt(rs: seq<Reg>, i: int): nat {
    if 0 <= i < |rs| then rs[i].addr else 0
  }

  function HeaderOfBlock(r: Reg, j: nat): BlockHeader
    requires j < |r.blocks|
  {
    BlockHeader(AddrAt(r.blocks, j - 1), AddrAt(r.blocks, j + 1), r.addr, BLOCK_MAGIC,
                r.blocks[j].size, r.blocks[j].req)
  }

  function HeaderOfRegion(rs: seq<Reg>, i: nat): RegionHeader
    requires i < |rs|
  {
    RegionHeader(RegAddrAt(rs, i - 1), RegAddrAt(rs, i + 1), AddrAt(rs[i].blocks, 0),
                 rs[i].pages, rs[i].pages * PAGE, Usage(rs[i]))
  }

  ghost predicate LinkedAt(hs: map<nat, BlockHeader>, r: Reg, j: nat) {
    j < |r.blocks| && r.blocks[j].addr in hs && hs[r.blocks[j].addr] == HeaderOfBlock(r, j)
  }

  ghost predicate BlocksLinked(hs: map<nat, BlockHeader>, r: Reg) {
    forall j: nat :: j < |r.blocks| ==> LinkedAt(hs, r, j)
  }

  ghost predicate RegionLinkedAt(rh: map<nat, RegionHeader>, rs: seq<Reg>, i: nat) {
    i < |rs| && rs[i].addr in rh && rh[rs[i].addr] == HeaderOfRegion(rs, i)
  }

  ghost predicate RegionsLinked(rh: map<nat, RegionHeader>, rs: seq<Reg>) {
    forall i: nat :: i < |rs| ==> RegionLinkedAt(rh, rs, i)
  }

  ghost predicate Linked(rh: map<nat, RegionHeader>, hs: map<nat, BlockHeader>, root: nat, rs: seq<Reg>) {
    root == RegAddrAt(rs, 0) && RegionsLinked(rh, rs) &&
    forall i :: 0 <= i < |rs| ==> BlocksLinked(hs, rs[i])
  }

  // ---------------------------------------------------------------- inserting and removing a block

  function Inserted(r: Reg, k: nat, b: Blk): Reg
    requires k <= |r.blocks|
  {
    r.(blocks := r.blocks[..k] + [b] + r.blocks[k..])
  }

  function Removed(r: Reg, k: nat): Reg
    requires k < |r.blocks|
  {
    r.(blocks := r.blocks[..k] + r.blocks[k + 1..])
  }

  lemma AddrsDistinct(r: Reg, i: nat, j: nat)
    requires InOrder(r) && i < j < |r.blocks|
    ensures 0 < r.blocks[i].addr < r.blocks[j].addr
  {
    BlocksOrdered(r, i, j);
    BlockInside(r, i);
  }

  /** A block placed at the start of gap `k` keeps the region well formed. */
  lemma InsertedOk(r: Reg, k: nat, b: Blk)
    requires RegOk(r) && GapFits(r, k, HEADER + b.size) && b.addr == GapStart(r, k)
    requires b.size % ALIGNMENT == 0 && 0 < b.req <= b.size
    ensures BlkOk(b) && RegOk(Inserted(r, k, b))
    ensures Usage(Inserted(r, k, b)) == Usage(r) + HEADER + b.size
    ensures Requested(Inserted(r, k, b).blocks) == Requested(r.blocks) + b.req
  {
    GapStartAligned(r, k);
    InsertedInOrder(r, k, b);
    BytesInsert(r.blocks[..k], b, r.blocks[k..]);
    assert r.blocks[..k] + r.blocks[k..] == r.blocks;
  }

  lemma InsertedInOrder(r: Reg, k: nat, b: Blk)
    requires InOrder(r) && GapFits(r, k, HEADER + b.size) && b.addr == GapStart(r, k)
    ensures InOrder(Inserted(r, k, b))
  {
    var q := Inserted(r, k, b);
    forall j {:trigger GapStart(q, j)} | 0 <= j < |q.blocks| ensures GapStart(q, j) <= q.blocks[j].addr {
      if j < k {
        assert GapStart(r, j) <= r.blocks[j].addr;
      } else if j > k + 1 {
        assert GapStart(r, j - 1) <= r.blocks[j - 1].addr;
      }
    }
  }

  lemma GapStartAligned(r: Reg, k: nat)
    requires RegOk(r) && k <= |r.blocks|
    ensures GapStart(r, k) % ALIGNMENT == 0
  {
    if k > 0 { assert BlkOk(r.blocks[k - 1]); }
  }

  lemma RemovedOk(r: Reg, k: nat)
    requires RegOk(r) && k < |r.blocks|
    ensures RegOk(Removed(r, k))
    ensures Usage(Removed(r, k)) == Usage(r) - HEADER - r.blocks[k].size
    ensures Requested(Removed(r, k).blocks) == Requested(r.blocks) - r.blocks[k].req
  {
    RemovedInOrder(r, k);
    BytesInsert(r.blocks[..k], r.blocks[k], r.blocks[k + 1..]);
    assert r.blocks[..k] + [r.blocks[k]] + r.blocks[k + 1..] == r.blocks;
  }

  lemma RemovedInOrder(r: Reg, k: nat)
    requires InOrder(r) && k < |r.blocks|
    ensures InOrder(Removed(r, k))
  {
    var q := Removed(r, k);
    assert GapStart(r, k) <= r.blocks[k].addr;
    forall j {:trigger GapStart(q, j)} | 0 <= j < |q.blocks| ensures GapStart(q, j) <= q.blocks[j].addr {
      assert GapStart(r, if j < k then j else j + 1) <= q.blocks[j].addr;
    }
  }

  /** The block headers after a new block's header is written and its neighbours are relinked. */
  ghost function SplicedIn(hs: map<nat, BlockHeader>, r: Reg, k: nat, b: Blk): map<nat, BlockHeader>
    requires k <= |r.blocks| && BlocksLinked(hs, r)
  {
    var before, after := AddrAt(r.blocks, k - 1), AddrAt(r.blocks, k);
    var h1 := hs[b.addr := BlockHeader(before, after, r.addr, BLOCK_MAGIC, b.size, b.req)];
    assert k > 0 ==> LinkedAt(hs, r, k - 1);
    assert k < |r.blocks| ==> LinkedAt(hs, r, k);
    var h2 := if k < |r.blocks| then h1[after := h1[after].(prev := b.addr)] else h1;
    if k > 0 then h2[before := h2[before].(next := b.addr)] else h2
  }

  lemma SpliceInLinks(hs: map<nat, BlockHeader>, r: Reg, k: nat, b: Blk)
    requires InOrder(r) && BlocksLinked(hs, r)
    requires GapFits(r, k, HEADER + b.size) && b.addr == GapStart(r, k)
    ensures BlocksLinked(SplicedIn(hs, r, k, b), Inserted(r, k, b))
  {
    var q, h := Inserted(r, k, b), SplicedIn(hs, r, k, b);
    forall j: nat | j < |q.blocks| ensures LinkedAt(h, q, j) {
      SpliceInAt(hs, r, k, b, j);
    }
  }

  lemma SpliceInAt(hs: map<nat, BlockHeader>, r: Reg, k: nat, b: Blk, j: nat)
    requires InOrder(r) && BlocksLinked(hs, r) && j <= |r.blocks|
    requires GapFits(r, k, HEADER + b.size) && b.addr == GapStart(r, k)
    ensures LinkedAt(SplicedIn(hs, r, k, b), Inserted(r, k, b), j)
  {
    if k > 0 { BlocksOrdered(r, k - 1, k); assert k < |r.blocks| ==> r.blocks[k - 1].addr < r.blocks[k].addr; }
    if j < k {
      assert LinkedAt(hs, r, j);
      if j < k - 1 { AddrsDistinct(r, j, k - 1); }
      if k < |r.blocks| { AddrsDistinct(r, j, k); }
    } else if j > k {
      assert LinkedAt(hs, r, j - 1);
      if k > 0 { AddrsDistinct(r, k - 1, j - 1); BlocksOrdered(r, k - 1, j - 1); }
      if k < j - 1 { AddrsDistinct(r, k, j - 1); }
    }
  }

  /** The block headers after block `k` is unlinked and its own header is marked dead. */
  ghost function SplicedOut(hs: map<nat, BlockHeader>, r: Reg, k: nat): map<nat, BlockHeader>
    requires k < |r.blocks| && BlocksLinked(hs, r)
  {
    var before, after := AddrAt(r.blocks, k - 1), AddrAt(r.blocks, k + 1);
    assert LinkedAt(hs, r, k);
    assert k > 0 ==> LinkedAt(hs, r, k - 1);
    assert k + 1 < |r.blocks| ==> LinkedAt(hs, r, k + 1);
    var h1 := if k > 0 then hs[before := hs[before].(next := after)] else hs;
    var h2 := if k + 1 < |r.blocks| then h1[after := h1[after].(prev := before)] else h1;
    h2[r.blocks[k].addr := h2[r.blocks[k].addr].(magic := BLOCK_DEAD)]
  }

  lemma SpliceOutLinks(hs: map<nat, BlockHeader>, r: Reg, k: nat)
    requires InOrder(r) && BlocksLinked(hs, r) && k < |r.blocks|
    ensures BlocksLinked(SplicedOut(hs, r, k), Removed(r, k))
  {
    var q, h := Removed(r, k), SplicedOut(hs, r, k);
    forall j: nat | j < |q.blocks| ensures LinkedAt(h, q, j) {
      SpliceOutAt(hs, r, k, j);
    }
  }

  lemma SpliceOutAt(hs: map<nat, BlockHeader>, r: Reg, k: nat, j: nat)
    requires InOrder(r) && BlocksLinked(hs, r) && k < |r.blocks| && j + 1 < |r.blocks|
    ensures LinkedAt(SplicedOut(hs, r, k), Removed(r, k), j)
  {
    if k > 0 { AddrsDistinct(r, k - 1, k); }
    if k + 1 < |r.blocks| { AddrsDistinct(r, k, k + 1); }
    if k > 0 && k + 1 < |r.blocks| { AddrsDistinct(r, k - 1, k + 1); }
    if j < k {
      assert LinkedAt(hs, r, j);
      AddrsDistinct(r, j, k);
      if j < k - 1 { AddrsDistinct(r, j, k - 1); }
    } else {
      assert LinkedAt(hs, r, j + 1);
      AddrsDistinct(r, k, j + 1);
      if k + 1 < j + 1 { AddrsDistinct(r, k + 1, j + 1); }
    }
  }

  /** `b` agrees with `a` on every address outside `[lo, hi)`. */
  ghost predicate SameOutside(a: map<nat, BlockHeader>, b: map<nat, BlockHeader>, lo: nat, hi: nat) {
    forall x :: x in a && !(lo <= x < hi) ==> x in b && b[x] == a[x]
  }

  lemma SplicesAreLocal(hs: map<nat, BlockHeader>, r: Reg, k: nat, b: Blk)
    requires InOrder(r) && BlocksLinked(hs, r) && k <= |r.blocks|
    ensures r.addr <= b.addr < RegEnd(r) ==> SameOutside(hs, SplicedIn(hs, r, k, b), r.addr, RegEnd(r))
    ensures k < |r.blocks| ==> SameOutside(hs, SplicedOut(hs, r, k), r.addr, RegEnd(r))
  {
    if k > 0 { BlockInside(r, k - 1); }
    if k < |r.blocks| { BlockInside(r, k); }
    if k + 1 < |r.blocks| { BlockInside(r, k + 1); }
  }

  lemma OtherRegionsLinked(a: map<nat, BlockHeader>, b: map<nat, BlockHeader>, rs: seq<Reg>, i: nat, j: nat)
    requires Geometry(rs) && i < |rs| && j < |rs| && i != j
    requires SameOutside(a, b, rs[i].addr, RegEnd(rs[i])) && BlocksLinked(a, rs[j])
    ensures BlocksLinked(b, rs[j])
  {
    if i < j { assert Separate(rs[i], rs[j]); } else { assert Separate(rs[j], rs[i]); }
    forall k: nat | k < |rs[j].blocks| ensures LinkedAt(b, rs[j], k) {
      assert LinkedAt(a, rs[j], k);
      BlockInside(rs[j], k);
    }
  }

  // ---------------------------------------------------------------- the region list

  lemma RegionAddrsDistinct(rs: seq<Reg>, i: nat, j: nat)
    requires Geometry(rs) && i < j < |rs|
    ensures rs[i].addr != rs[j].addr && rs[i].addr != 0 && rs[j].addr != 0
  {
    assert Separate(rs[i], rs[j]) && RegOk(rs[i]) && RegOk(rs[j]);
  }

  /** Region `i` changes its blocks but not its place: only its own header changes. */
  ghost function RegionsUpdated(rh: map<nat, RegionHeader>, rs: seq<Reg>, i: nat, r: Reg): map<nat, RegionHeader>
    requires RegionsLinked(rh, rs) && i < |rs| && r.addr == rs[i].addr
  {
    assert RegionLinkedAt(rh, rs, i);
    rh[r.addr := rh[r.addr].(first := AddrAt(r.blocks, 0), usage := Usage(r))]
  }

  lemma RegionRelinked(rh: map<nat, RegionHeader>, rs: seq<Reg>, i: nat, r: Reg)
    requires Geometry(rs) && RegionsLinked(rh, rs) && i < |rs| && r.addr == rs[i].addr && r.pages == rs[i].pages
    ensures RegionsLinked(RegionsUpdated(rh, rs, i, r), rs[i := r])
  {
    assert RegionLinkedAt(rh, rs, i);
    var h, q := RegionsUpdated(rh, rs, i, r), rs[i := r];
    forall j: nat | j < |rs| ensures RegionLinkedAt(h, q, j) {
      assert RegionLinkedAt(rh, rs, j);
      if j < i { RegionAddrsDistinct(rs, j, i); }
      if i < j { RegionAddrsDistinct(rs, i, j); }
    }
  }

  /** A region appended to the list: its own header, and the old tail's link. */
  ghost function RegionsWith(rh: map<nat, RegionHeader>, rs: seq<Reg>, r: Reg): map<nat, RegionHeader>
    requires RegionsLinked(rh, rs)
  {
    var n := |rs|;
    assert n > 0 ==> RegionLinkedAt(rh, rs, n - 1);
    (if n == 0 then rh else rh[rs[n - 1].addr := rh[rs[n - 1].addr].(next := r.addr)])
      [r.addr := RegionHeader(RegAddrAt(rs, n - 1), 0, AddrAt(r.blocks, 0), r.pages, r.pages * PAGE, Usage(r))]
  }

  lemma RegionAppended(rh: map<nat, RegionHeader>, rs: seq<Reg>, r: Reg)
    requires Geometry(rs + [r]) && RegionsLinked(rh, rs)
    ensures RegionsLinked(RegionsWith(rh, rs, r), rs + [r])
  {
    var n, q := |rs|, rs + [r];
    var h := RegionsWith(rh, rs, r);
    if n > 0 { assert RegionLinkedAt(rh, rs, n - 1); }
    forall j: nat | j < n + 1 ensures RegionLinkedAt(h, q, j) {
      if j < n {
        assert RegionLinkedAt(rh, rs, j);
        RegionAddrsDistinct(q, j, n);
        if j < n - 1 { RegionAddrsDistinct(q, j, n - 1); }
      }
    }
  }

  function WithoutRegion(rs: seq<Reg>, i: nat): seq<Reg>
    requires i < |rs|
  {
    rs[..i] + rs[i + 1..]
  }

  /** A region unlinked from the list: its neighbours' links skip it. */
  ghost function RegionsWithout(rh: map<nat, RegionHeader>, rs: seq<Reg>, i: nat): map<nat, RegionHeader>
    requires RegionsLinked(rh, rs) && i < |rs|
  {
    var before, after := RegAddrAt(rs, i - 1), RegAddrAt(rs, i + 1);
    assert i > 0 ==> RegionLinkedAt(rh, rs, i - 1);
    assert i + 1 < |rs| ==> RegionLinkedAt(rh, rs, i + 1);
    var h1 := if i > 0 then rh[before := rh[before].(next := after)] else rh;
    if i + 1 < |rs| then h1[after := h1[after].(prev := before)] else h1
  }

  lemma RegionUnlinked(rh: map<nat, RegionHeader>, rs: seq<Reg>, i: nat)
    requires Geometry(rs) && RegionsLinked(rh, rs) && i < |rs|
    ensures RegionsLinked(RegionsWithout(rh, rs, i), WithoutRegion(rs, i))
  {
    var h, q := RegionsWithout(rh, rs, i), WithoutRegion(rs, i);
    GeometryIsDistinct(rs);
    forall j: nat | j < |q| ensures RegionLinkedAt(h, q, j) {
      RegionUnlinkedAt(rh, rs, i, j);
    }
  }

  ghost predicate DistinctAddrs(rs: seq<Reg>) {
    forall i, j :: 0 <= i < j < |rs| ==> rs[i].addr != rs[j].addr
  }

  lemma GeometryIsDistinct(rs: seq<Reg>)
    requires Geometry(rs)
    ensures DistinctAddrs(rs)
  {
    forall i, j | 0 <= i < j < |rs| ensures rs[i].addr != rs[j].addr { RegionAddrsDistinct(rs, i, j); }
  }

  lemma RegionUnlinkedAt(rh: map<nat, RegionHeader>, rs: seq<Reg>, i: nat, j: nat)
    requires DistinctAddrs(rs) && RegionsLinked(rh, rs) && i < |rs| && j + 1 < |rs|
    ensures RegionLinkedAt(RegionsWithout(rh, rs, i), WithoutRegion(rs, i), j)
  {
    var h, q := RegionsWithout(rh, rs, i), WithoutRegion(rs, i);
    var o := if j < i then j else j + 1;
    assert q[j] == rs[o] && RegionLinkedAt(rh, rs, o);
    assert RegAddrAt(q, j - 1) == if j == i then RegAddrAt(rs, i - 1) else RegAddrAt(rs, o - 1);
    assert RegAddrAt(q, j + 1) == if j + 1 == i then RegAddrAt(rs, i + 1) else RegAddrAt(rs, o + 1);
    assert h[rs[o].addr].next == RegAddrAt(q, j + 1);
    assert h[rs[o].addr].prev == RegAddrAt(q, j - 1);
  }

  lemma GeometryWithout(rs: seq<Reg>, i: nat)
    requires Geometry(rs) && i < |rs|
    ensures Geometry(WithoutRegion(rs, i))
    ensures NoneEmpty(rs) ==> NoneEmpty(WithoutRegion(rs, i))
  {
    var q := WithoutRegion(rs, i);
    forall j, k | 0 <= j < k < |q| ensures Separate(q[j], q[k]) {
      assert Separate(rs[if j < i then j else j + 1], rs[if k < i then k else k + 1]);
    }
  }

  lemma GeometryUpdate(rs: seq<Reg>, i: nat, r: Reg)
    requires Geometry(rs) && i < |rs| && RegOk(r) && r.addr == rs[i].addr && r.pages == rs[i].pages
    ensures Geometry(rs[i := r])
  {
    var q := rs[i := r];
    forall j, k | 0 <= j < k < |rs| ensures Separate(q[j], q[k]) {
      assert Separate(rs[j], rs[k]);
    }
  }
}
