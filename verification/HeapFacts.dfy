/** What the heap's steps do to a layout: where a block is placed, what freeing and resizing leave, how
    regions relate to pages, and which bytes of memory survive. */
module HeapFacts {
  import opened Bytes
  import opened Phys
  import opened HeapLayout

  /** `(value + 15) & ~15` in 64-bit arithmetic */
  function AlignUp(value: nat): (r: nat) {
    (value + ALIGNMENT - 1) % TWO_64 / ALIGNMENT * ALIGNMENT
  }

  /** Rounding up covers the size exactly when it does not wrap; a size in the last 15 wraps to 0. */
  lemma AlignUpCovers(size: nat)
    requires 0 < size < TWO_64
    ensures AlignUp(size) % ALIGNMENT == 0
    ensures AlignUp(size) >= size <==> size <= TWO_64 - 16
    ensures size <= TWO_64 - 16 ==> AlignUp(size) < size + ALIGNMENT
    ensures size > TWO_64 - 16 ==> AlignUp(size) == 0
  {}

  function Product(a: nat, b: nat): nat { a * b }

  lemma ProductOverflow(count: nat, size: nat)
    requires size > 0
    ensures count > (TWO_64 - 1) / size <==> Product(count, size) >= TWO_64
  {
    var q := (TWO_64 - 1) / size;
    assert q * size <= TWO_64 - 1 < (q + 1) * size;
    if count > q { MulMono(q + 1, count, size); } else { MulMono(count, q, size); }
  }

  lemma MulMono(a: nat, b: nat, c: nat)
    requires a <= b
    ensures a * c <= b * c
  {}

  function PageIndex(r: Reg, hhdm: nat): int { (r.addr - hhdm) / PAGE_SIZE }

  /** The region occupies pages that the page allocator handed out. */
  ghost predicate BackedBy(r: Reg, hhdm: nat, owned: set<nat>) {
    var p := PageIndex(r, hhdm);
    0 < p && r.addr == hhdm + p * PAGE_SIZE && Pages(p, r.pages) <= owned
  }

  ghost predicate Backed(rs: seq<Reg>, hhdm: nat, owned: set<nat>) {
    forall i :: 0 <= i < |rs| ==> BackedBy(rs[i], hhdm, owned)
  }

  lemma PagesApart(p: nat, n: nat, q: nat, m: nat)
    requires n > 0 && m > 0
    ensures Pages(p, n) !! Pages(q, m) <==> p + n <= q || q + m <= p
  {
    var x := if p < q then q else p;
    assert InRun(x, p, n) && InRun(x, q, m) ==> x in Pages(p, n) && x in Pages(q, m);
    forall y | y in Pages(p, n) && y in Pages(q, m) ensures InRun(y, p, n) && InRun(y, q, m) {}
  }

  // ---------------------------------------------------------------- contents of live payloads

  ghost predicate PayloadByte(rs: seq<Reg>, i: nat, j: nat, x: nat) {
    i < |rs| && j < |rs[i].blocks| && Payload(rs[i].blocks[j]) <= x < BlkEnd(rs[i].blocks[j])
  }

  /** Every byte of every live payload is the same in both memories. */
  ghost predicate Intact(rs: seq<Reg>, m: nat -> byte, m': nat -> byte) {
    forall i: nat, j: nat, x: nat :: PayloadByte(rs, i, j, x) ==> m'(x) == m(x)
  }

  lemma IntactSelf(rs: seq<Reg>, m: nat -> byte)
    ensures Intact(rs, m, m)
  {}

  lemma IntactPrefix(rs: seq<Reg>, q: Reg, m: nat -> byte, m': nat -> byte)
    requires Intact(rs + [q], m, m')
    ensures Intact(rs, m, m')
  {
    forall i: nat, j: nat, x: nat | PayloadByte(rs, i, j, x) ensures m'(x) == m(x) {
      assert PayloadByte(rs + [q], i, j, x);
    }
  }

  lemma GapIsOutside(rs: seq<Reg>, i: nat, k: nat, n: nat, i': nat, j: nat)
    requires Geometry(rs) && i < |rs| && GapFits(rs[i], k, n) && i' < |rs| && j < |rs[i'].blocks|
    ensures BlkEnd(rs[i'].blocks[j]) <= GapStart(rs[i], k) || GapStart(rs[i], k) + n <= rs[i'].blocks[j].addr
  {
    GapInside(rs[i], k);
    BlockInside(rs[i'], j);
    if i == i' {
      if j < k { BlocksOrdered(rs[i], j, k); } else if k < j { AddrsDistinct(rs[i], k, j); }
    } else if i < i' {
      assert Separate(rs[i], rs[i']);
    } else {
      assert Separate(rs[i'], rs[i]);
    }
  }

  lemma GapInside(r: Reg, k: nat)
    requires InOrder(r) && k <= |r.blocks|
    ensures r.addr + HEADER <= GapStart(r, k) && GapEnd(r, k) <= RegEnd(r)
  {
    if k > 0 { BlockInside(r, k - 1); }
    if k < |r.blocks| { BlockInside(r, k); }
  }

  // ---------------------------------------------------------------- what placing a block keeps

  lemma SpliceKeeps(rh: map<nat, RegionHeader>, hs: map<nat, BlockHeader>, root: nat, rs: seq<Reg>,
                    i: nat, k: nat, b: Blk)
    requires Linked(rh, hs, root, rs) && Geometry(rs) && i < |rs|
    requires b.size % ALIGNMENT == 0 && 0 < b.req <= b.size
    requires GapFits(rs[i], k, HEADER + b.size) && b.addr == GapStart(rs[i], k)
    ensures RegionsLinked(rh, rs) && BlocksLinked(hs, rs[i])
    ensures var q := Inserted(rs[i], k, b);
            Linked(RegionsUpdated(rh, rs, i, q), SplicedIn(hs, rs[i], k, b), root, rs[i := q]) &&
            Geometry(rs[i := q])
  {
    var q := Inserted(rs[i], k, b);
    InsertedOk(rs[i], k, b);
    GeometryUpdate(rs, i, q);
    RegionRelinked(rh, rs, i, q);
    SpliceInLinks(hs, rs[i], k, b);
    GapInside(rs[i], k);
    SplicesAreLocal(hs, rs[i], k, b);
    var qs := rs[i := q];
    forall j | 0 <= j < |qs| ensures BlocksLinked(SplicedIn(hs, rs[i], k, b), qs[j]) {
      if j != i { OtherRegionsLinked(hs, SplicedIn(hs, rs[i], k, b), rs, i, j); }
    }
  }

  /** Where the code finds what it relinks: null exactly at the ends, and never the new header. */
  lemma SpliceSites(rh: map<nat, RegionHeader>, hs: map<nat, BlockHeader>, rs: seq<Reg>, i: nat, k: nat, b: Blk)
    requires RegionsLinked(rh, rs) && Geometry(rs) && i < |rs| && BlocksLinked(hs, rs[i])
    requires b.size % ALIGNMENT == 0 && 0 < b.req <= b.size
    requires GapFits(rs[i], k, HEADER + b.size) && b.addr == GapStart(rs[i], k)
    ensures var before, after := AddrAt(rs[i].blocks, k - 1), AddrAt(rs[i].blocks, k);
            (k > 0 <==> before != 0) && (k < |rs[i].blocks| <==> after != 0) &&
            (k > 0 ==> before in hs && before != b.addr) && (after != 0 ==> after in hs && after != b.addr) &&
            b.addr >= HEADER
    ensures rs[i].addr in rh && rh[rs[i].addr].usage == Usage(rs[i])
    ensures Usage(Inserted(rs[i], k, b)) == Usage(rs[i]) + HEADER + b.size
    ensures AddrAt(Inserted(rs[i], k, b).blocks, 0) == if k == 0 then b.addr else rh[rs[i].addr].first
  {
    assert RegionLinkedAt(rh, rs, i);
    InsertedOk(rs[i], k, b);
    GapInside(rs[i], k);
    if k > 0 { assert LinkedAt(hs, rs[i], k - 1); BlockInside(rs[i], k - 1); }
    if k < |rs[i].blocks| { assert LinkedAt(hs, rs[i], k); BlockInside(rs[i], k); }
  }

  lemma SpliceTotals(rs: seq<Reg>, i: nat, k: nat, b: Blk)
    requires Geometry(rs) && i < |rs|
    requires b.size % ALIGNMENT == 0 && 0 < b.req <= b.size
    requires GapFits(rs[i], k, HEADER + b.size) && b.addr == GapStart(rs[i], k)
    ensures var qs := rs[i := Inserted(rs[i], k, b)];
            Sum(qs, ReqOf) == Sum(rs, ReqOf) + b.req && Sum(qs, LiveOf) == Sum(rs, LiveOf) + 1 &&
            Sum(qs, PagesOf) == Sum(rs, PagesOf)
  {
    var q := Inserted(rs[i], k, b);
    InsertedOk(rs[i], k, b);
    SumUpdate(rs, ReqOf, i, q);
    SumUpdate(rs, LiveOf, i, q);
    SumUpdate(rs, PagesOf, i, q);
  }

  lemma GapHoldsNoPayload(rs: seq<Reg>, i: nat, k: nat)
    requires Geometry(rs) && i < |rs| && GapFits(rs[i], k, HEADER)
    ensures forall i': nat, j: nat, x: nat :: PayloadByte(rs, i', j, x) ==>
              !(GapStart(rs[i], k) <= x < GapStart(rs[i], k) + HEADER)
  {
    forall i': nat, j: nat, x: nat | PayloadByte(rs, i', j, x)
      ensures !(GapStart(rs[i], k) <= x < GapStart(rs[i], k) + HEADER)
    {
      GapIsOutside(rs, i, k, HEADER, i', j);
    }
  }


  /** `n` bytes at `src` in the first memory are at `dst` in the second; nothing else changed. */
  ghost predicate Copied(m: nat -> byte, m': nat -> byte, dst: nat, src: nat, n: nat) {
    (forall x: nat :: !(dst <= x < dst + n) ==> m'(x) == m(x)) &&
    (forall x: nat :: dst <= x < dst + n ==> m'(x) == m(src + (x - dst)))
  }

  function ResizedReg(r: Reg, j: nat, n: nat): Reg
    requires j < |r.blocks|
  {
    r.(blocks := r.blocks[j := r.blocks[j].(req := n)])
  }

  function Resized(rs: seq<Reg>, i: nat, j: nat, n: nat): seq<Reg>
    requires i < |rs| && j < |rs[i].blocks|
  {
    rs[i := ResizedReg(rs[i], j, n)]
  }

  lemma {:induction false} ResizedTotals(bs: seq<Blk>, j: nat, n: nat)
    requires j < |bs|
    ensures Requested(bs[j := bs[j].(req := n)]) == Requested(bs) - bs[j].req + n
    ensures BlockBytes(bs[j := bs[j].(req := n)]) == BlockBytes(bs)
  {
    var c := bs[j].(req := n);
    BytesInsert(bs[..j], bs[j], bs[j + 1..]);
    BytesInsert(bs[..j], c, bs[j + 1..]);
    assert bs == bs[..j] + [bs[j]] + bs[j + 1..] && bs[j := c] == bs[..j] + [c] + bs[j + 1..];
  }

  lemma ResizedOk(r: Reg, j: nat, n: nat)
    requires RegOk(r) && j < |r.blocks| && 0 < n <= r.blocks[j].req
    ensures RegOk(ResizedReg(r, j, n))
  {
    var q := ResizedReg(r, j, n);
    forall l {:trigger GapStart(q, l)} | 0 <= l < |q.blocks| ensures GapStart(q, l) <= q.blocks[l].addr {
      assert GapStart(r, l) <= r.blocks[l].addr;
    }
    assert GapStart(q, |q.blocks|) == GapStart(r, |r.blocks|);
    forall l | 0 <= l < |q.blocks| ensures BlkOk(q.blocks[l]) { assert BlkOk(r.blocks[l]); }
  }

  lemma ResizeLinks(hs: map<nat, BlockHeader>, r: Reg, j: nat, n: nat)
    requires InOrder(r) && BlocksLinked(hs, r) && j < |r.blocks|
    ensures r.blocks[j].addr in hs
    ensures var b := r.blocks[j].addr;
            var h := hs[b := hs[b].(reqSize := n)];
            BlocksLinked(h, ResizedReg(r, j, n)) && SameOutside(hs, h, r.addr, RegEnd(r))
  {
    var q, b := ResizedReg(r, j, n), r.blocks[j].addr;
    assert LinkedAt(hs, r, j);
    var h := hs[b := hs[b].(reqSize := n)];
    BlockInside(r, j);
    forall l: nat | l < |q.blocks| ensures LinkedAt(h, q, l) {
      assert LinkedAt(hs, r, l);
      if l < j { AddrsDistinct(r, l, j); }
      if j < l { AddrsDistinct(r, j, l); }
    }
  }

  lemma ResizeKeeps(rh: map<nat, RegionHeader>, hs: map<nat, BlockHeader>, root: nat, rs: seq<Reg>,
                    i: nat, j: nat, n: nat)
    requires Linked(rh, hs, root, rs) && Geometry(rs) && i < |rs| && j < |rs[i].blocks|
    requires 0 < n <= rs[i].blocks[j].req
    ensures rs[i].blocks[j].addr in hs
    ensures var b := rs[i].blocks[j].addr;
            Linked(rh, hs[b := hs[b].(reqSize := n)], root, Resized(rs, i, j, n)) && Geometry(Resized(rs, i, j, n))
  {
    hide BlocksLinked;
    var q, qs, b := ResizedReg(rs[i], j, n), Resized(rs, i, j, n), rs[i].blocks[j].addr;
    ResizeLinks(hs, rs[i], j, n);
    var h := hs[b := hs[b].(reqSize := n)];
    ResizedOk(rs[i], j, n);
    GeometryUpdate(rs, i, q);
    ResizedTotals(rs[i].blocks, j, n);
    RegionRelinked(rh, rs, i, q);
    assert RegionLinkedAt(rh, rs, i);
    assert RegionsUpdated(rh, rs, i, q) == rh;
    forall l | 0 <= l < |qs| ensures BlocksLinked(h, qs[l]) {
      if l != i { OtherRegionsLinked(hs, h, rs, i, l); }
    }
  }

  lemma ResizeTotals(rs: seq<Reg>, i: nat, j: nat, n: nat)
    requires i < |rs| && j < |rs[i].blocks|
    ensures var qs := Resized(rs, i, j, n);
            Sum(qs, ReqOf) == Sum(rs, ReqOf) - rs[i].blocks[j].req + n && Sum(qs, LiveOf) == Sum(rs, LiveOf) &&
            Sum(qs, PagesOf) == Sum(rs, PagesOf)
  {
    var q := ResizedReg(rs[i], j, n);
    ResizedTotals(rs[i].blocks, j, n);
    SumUpdate(rs, ReqOf, i, q);
    SumUpdate(rs, LiveOf, i, q);
    SumUpdate(rs, PagesOf, i, q);
  }

  ghost predicate NoGaps(rs: seq<Reg>, needed: nat) {
    forall i: nat :: i < |rs| ==> NoGap(rs[i], needed)
  }

  /** A block with payload address `p` was put into the first gap of region `i` that holds it. */
  ghost predicate PlacedIn(before: seq<Reg>, after: seq<Reg>, i: nat, p: nat, payload: nat, req: nat) {
    i < |before| && p >= HEADER &&
    exists k: nat ::
      FirstGap(before[i], k, HEADER + payload) && p == GapStart(before[i], k) + HEADER &&
      after == before[i := Inserted(before[i], k, Blk(p - HEADER, payload, req))]
  }

  /** A new region at the end of the list, holding one block at its very start. */
  ghost predicate PlacedNew(before: seq<Reg>, after: seq<Reg>, p: nat, payload: nat, req: nat) {
    p >= HEADER + HEADER && exists pages: nat :: after == WithNewRegion(before, pages, p, payload, req)
  }

  function WithNewRegion(rs: seq<Reg>, pages: nat, p: nat, payload: nat, req: nat): seq<Reg>
    requires p >= HEADER + HEADER
  {
    rs + [Reg(p - HEADER - HEADER, pages, [Blk(p - HEADER, payload, req)])]
  }

  lemma PlacedListed(before: seq<Reg>, after: seq<Reg>, hint: nat, i: nat, p: nat, payload: nat, req: nat)
    requires PlacedIn(before, after, i, p, payload, req)
    requires before[i].addr == hint ||
             forall j: nat :: j < |before| && (j < i || before[j].addr == hint) ==> NoGap(before[j], HEADER + payload)
    ensures Placed(before, after, hint, p, payload, req)
  {}

  lemma NewRegionHolds(q: Reg, k: nat, needed: nat)
    requires q.blocks == [] && GapFits(q, 0, needed)
    ensures !NoGap(q, needed)
    ensures FirstGap(q, k, needed) ==> k == 0 && GapStart(q, 0) == q.addr + HEADER
  {}

  /** Where `kmalloc` puts a block: the hinted region if it has room, else the first listed region that
      does, and a new region only when no region has room. */
  ghost predicate Placed(before: seq<Reg>, after: seq<Reg>, hint: nat, p: nat, payload: nat, req: nat) {
    (exists i: nat ::
       PlacedIn(before, after, i, p, payload, req) &&
       (before[i].addr == hint ||
        forall j: nat :: j < |before| && (j < i || before[j].addr == hint) ==> NoGap(before[j], HEADER + payload))) ||
    (NoGaps(before, HEADER + payload) && PlacedNew(before, after, p, payload, req))
  }

  /** The layout after block `j` of region `i` is freed. */
  function AfterFree(rs: seq<Reg>, i: nat, j: nat): seq<Reg>
    requires i < |rs| && j < |rs[i].blocks|
  {
    if |rs[i].blocks| == 1 then WithoutRegion(rs, i) else rs[i := Removed(rs[i], j)]
  }

  lemma UnlinkKeeps(rh: map<nat, RegionHeader>, hs: map<nat, BlockHeader>, root: nat, rs: seq<Reg>, i: nat, j: nat)
    requires Linked(rh, hs, root, rs) && Geometry(rs) && i < |rs| && j < |rs[i].blocks|
    ensures RegionsLinked(rh, rs) && BlocksLinked(hs, rs[i])
    ensures var q := Removed(rs[i], j);
            Linked(RegionsUpdated(rh, rs, i, q), SplicedOut(hs, rs[i], j), root, rs[i := q]) &&
            Geometry(rs[i := q])
  {
    var q := Removed(rs[i], j);
    RemovedOk(rs[i], j);
    GeometryUpdate(rs, i, q);
    RegionRelinked(rh, rs, i, q);
    SpliceOutLinks(hs, rs[i], j);
    SplicesAreLocal(hs, rs[i], j, rs[i].blocks[j]);
    var qs := rs[i := q];
    forall l | 0 <= l < |qs| ensures BlocksLinked(SplicedOut(hs, rs[i], j), qs[l]) {
      if l != i { OtherRegionsLinked(hs, SplicedOut(hs, rs[i], j), rs, i, l); }
    }
  }

  lemma UnlinkTotals(rs: seq<Reg>, i: nat, j: nat)
    requires Geometry(rs) && i < |rs| && j < |rs[i].blocks|
    ensures var qs := rs[i := Removed(rs[i], j)];
            Sum(qs, ReqOf) == Sum(rs, ReqOf) - rs[i].blocks[j].req && Sum(qs, LiveOf) == Sum(rs, LiveOf) - 1 &&
            Sum(qs, PagesOf) == Sum(rs, PagesOf)
    ensures rs[i].blocks[j].req > 0
  {
    var q := Removed(rs[i], j);
    assert BlkOk(rs[i].blocks[j]);
    RemovedOk(rs[i], j);
    SumUpdate(rs, ReqOf, i, q);
    SumUpdate(rs, LiveOf, i, q);
    SumUpdate(rs, PagesOf, i, q);
  }

  lemma UnlinkSites(rh: map<nat, RegionHeader>, hs: map<nat, BlockHeader>, rs: seq<Reg>, i: nat, j: nat)
    requires RegionsLinked(rh, rs) && Geometry(rs) && i < |rs| && BlocksLinked(hs, rs[i]) && j < |rs[i].blocks|
    ensures var bs := rs[i].blocks;
            (j > 0 ==> AddrAt(bs, j - 1) in hs && AddrAt(bs, j - 1) != bs[j].addr) &&
            (j + 1 < |bs| ==> AddrAt(bs, j + 1) in hs && AddrAt(bs, j + 1) != bs[j].addr &&
                              AddrAt(bs, j + 1) != AddrAt(bs, j - 1))
    ensures rs[i].addr in rh && rh[rs[i].addr].usage == Usage(rs[i])
    ensures Usage(Removed(rs[i], j)) == Usage(rs[i]) - (HEADER + rs[i].blocks[j].size)
    ensures AddrAt(Removed(rs[i], j).blocks, 0) == if j == 0 then AddrAt(rs[i].blocks, 1) else rh[rs[i].addr].first
  {
    assert RegionLinkedAt(rh, rs, i);
    RemovedOk(rs[i], j);
    if j > 0 { assert LinkedAt(hs, rs[i], j - 1); AddrsDistinct(rs[i], j - 1, j); }
    if j + 1 < |rs[i].blocks| { assert LinkedAt(hs, rs[i], j + 1); AddrsDistinct(rs[i], j, j + 1); }
    if j > 0 && j + 1 < |rs[i].blocks| { AddrsDistinct(rs[i], j - 1, j + 1); }
  }

  lemma UnlinkRegionFacts(rh: map<nat, RegionHeader>, hs: map<nat, BlockHeader>, root: nat, rs: seq<Reg>, i: nat)
    requires Linked(rh, hs, root, rs) && Geometry(rs) && i < |rs| && rs[i].blocks == []
    ensures RegionsLinked(rh, rs)
    ensures Linked(RegionsWithout(rh, rs, i), hs, if root == rs[i].addr then RegAddrAt(rs, i + 1)
      else root, WithoutRegion(rs, i))
    ensures Geometry(WithoutRegion(rs, i))
    ensures i > 0 ==> RegAddrAt(rs, i - 1) in rh
    ensures i + 1 < |rs| ==> RegAddrAt(rs, i + 1) in rh && RegAddrAt(rs, i + 1) != RegAddrAt(rs, i - 1)
  {
    hide Linked, RegionsWithout, BlocksLinked;
    LinkedWithout(rh, hs, root, rs, i);
    GeometryWithout(rs, i);
    GeometryIsDistinct(rs);
    assert RegOk(rs[i]);
    if i > 0 { assert RegionLinkedAt(rh, rs, i - 1) && RegOk(rs[i - 1]); }
    if i + 1 < |rs| { assert RegionLinkedAt(rh, rs, i + 1) && RegOk(rs[i + 1]); }
  }

  lemma UnlinkRegionTotals(rs: seq<Reg>, i: nat)
    requires i < |rs| && rs[i].blocks == []
    ensures var q := WithoutRegion(rs, i);
            Sum(q, PagesOf) == Sum(rs, PagesOf) - rs[i].pages && Sum(q, ReqOf) == Sum(rs, ReqOf) &&
            Sum(q, LiveOf) == Sum(rs, LiveOf)
  {
    SumRemove(rs, PagesOf, i);
    SumRemove(rs, ReqOf, i);
    SumRemove(rs, LiveOf, i);
  }

  lemma LinkedWithout(rh: map<nat, RegionHeader>, hs: map<nat, BlockHeader>, root: nat, rs: seq<Reg>, i: nat)
    requires Linked(rh, hs, root, rs) && Geometry(rs) && i < |rs|
    ensures RegionsLinked(rh, rs)
    ensures Linked(RegionsWithout(rh, rs, i), hs, if root == rs[i].addr then RegAddrAt(rs, i + 1)
      else root, WithoutRegion(rs, i))
  {
    hide BlocksLinked, Geometry;
    RegionUnlinked(rh, rs, i);
    GeometryIsDistinct(rs);
    var q := WithoutRegion(rs, i);
    forall j | 0 <= j < |q| ensures BlocksLinked(hs, q[j]) {
      assert q[j] == rs[if j < i then j else j + 1];
    }
  }

  lemma BackingWithout(rs: seq<Reg>, i: nat, hhdm: nat, owned: set<nat>)
    requires Geometry(rs) && Backed(rs, hhdm, owned) && i < |rs|
    ensures Backed(WithoutRegion(rs, i), hhdm, owned)
    ensures Backed(WithoutRegion(rs, i), hhdm, owned - Pages(PageIndex(rs[i], hhdm), rs[i].pages))
  {
    var q := WithoutRegion(rs, i);
    var rest := owned - Pages(PageIndex(rs[i], hhdm), rs[i].pages);
    forall j | 0 <= j < |q| ensures BackedBy(q[j], hhdm, owned) && BackedBy(q[j], hhdm, rest) {
      var o := if j < i then j else j + 1;
      assert q[j] == rs[o];
      assert BackedBy(rs[o], hhdm, owned) && BackedBy(rs[i], hhdm, owned) && RegOk(rs[o]) && RegOk(rs[i]);
      if o < i { assert Separate(rs[o], rs[i]); } else { assert Separate(rs[i], rs[o]); }
      PagesApart(PageIndex(rs[i], hhdm), rs[i].pages, PageIndex(rs[o], hhdm), rs[o].pages);
    }
  }

  /** A region on pages that were not owned before lies apart from every region on owned pages. */
  lemma FreshRegion(rs: seq<Reg>, r: Reg, hhdm: nat, before: set<nat>, after: set<nat>)
    requires Geometry(rs) && Backed(rs, hhdm, before) && hhdm % PAGE == 0
    requires 16 <= r.pages <= MAX_PAGES && r.blocks == [] && r.addr >= hhdm
    requires var p := PageIndex(r, hhdm);
             0 < p && r.addr == hhdm + p * PAGE_SIZE && Pages(p, r.pages) !! before &&
               after == before + Pages(p, r.pages)
    ensures RegOk(r) && BackedBy(r, hhdm, after) && Geometry(rs + [r]) && Backed(rs, hhdm, after)
  {
    assert r.addr % ALIGNMENT == 0;
    forall i | 0 <= i < |rs| ensures Separate(rs[i], r) && BackedBy(rs[i], hhdm, after) {
      assert BackedBy(rs[i], hhdm, before) && RegOk(rs[i]);
      PagesApart(PageIndex(rs[i], hhdm), rs[i].pages, PageIndex(r, hhdm), r.pages);
    }
  }

  lemma AppendFacts(rh: map<nat, RegionHeader>, rs: seq<Reg>, q: Reg)
    requires Geometry(rs + [q]) && RegionsLinked(rh, rs) && q.blocks == []
    ensures RegionsLinked(RegionsWith(rh, rs, q), rs + [q])
    ensures Usage(q) == HEADER && AddrAt(q.blocks, 0) == 0
    ensures Sum(rs + [q], PagesOf) == Sum(rs, PagesOf) + q.pages
    ensures Sum(rs + [q], ReqOf) == Sum(rs, ReqOf) && Sum(rs + [q], LiveOf) == Sum(rs, LiveOf)
    ensures forall hs: map<nat, BlockHeader> :: BlocksLinked(hs, q)
  {
    RegionAppended(rh, rs, q);
    SumAppend(rs, PagesOf, q);
    SumAppend(rs, ReqOf, q);
    SumAppend(rs, LiveOf, q);
  }

  function FreeBytes(r: Reg): int { r.pages * PAGE - Usage(r) }

  /** Of the first `c` regions, `b` is the first with the most free bytes, at address `hint`; the hint
      is null when none has any. */
  ghost predicate BestAt(rs: seq<Reg>, c: nat, b: nat, hint: nat, free: int) {
    c <= |rs| && 0 <= free && (hint == 0 <==> free == 0) &&
    (forall j :: 0 <= j < c ==> FreeBytes(rs[j]) <= free) &&
    (hint != 0 ==> b < c && rs[b].addr == hint && FreeBytes(rs[b]) == free &&
                   forall j :: 0 <= j < b ==> FreeBytes(rs[j]) < free)
  }

  lemma BestNone(rs: seq<Reg>)
    ensures BestAt(rs, 0, 0, 0, 0)
  {}

  lemma BestStep(rs: seq<Reg>, c: nat, b: nat, hint: nat, free: int)
    requires BestAt(rs, c, b, hint, free) && c < |rs| && rs[c].addr != 0
    ensures if FreeBytes(rs[c]) > free then BestAt(rs, c + 1, c, rs[c].addr, FreeBytes(rs[c]))
            else BestAt(rs, c + 1, b, hint, free)
  {}

  lemma BestIsListed(rs: seq<Reg>, b: nat, hint: nat, free: int)
    requires BestAt(rs, |rs|, b, hint, free)
    ensures hint == 0 || exists i: nat :: i < |rs| && rs[i].addr == hint
  {}
}
