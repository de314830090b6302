/** The kernel heap over the page allocator: headers relinked in place, a best-fit hint, five counters.
    Memory is typed: `regions` and `blocks` are the headers at their addresses, `mem` the bytes outside
    them. The ghost field `rs` is the layout the headers spell. */
module Heap {
  import opened Bytes
  import opened Phys
  import opened HeapLayout
  import opened HeapFacts
  import opened HeapBlocks

  class Heap {
    const phys: PhysAllocator
    var regions: map<nat, RegionHeader>
    var blocks: map<nat, BlockHeader>
    var mem: nat -> byte
    var root: nat
    var best: nat
    var initialized: bool
    var totalRegionBytes: int
    var inUse: int
    var peak: int
    var regionCount: int
    var live: int
    ghost var rs: seq<Reg>
    /** Where a header's bytes may have been overwritten since: under a later block or in a region given back. */
    ghost var stale: iset<nat>

    /** The headers spell a well-formed layout, and the counters are its totals. */
    ghost predicate Core()
      reads this
    {
      Linked(regions, blocks, root, rs) && Geometry(rs) && Totals()
    }

    ghost predicate Totals()
      reads this
    {
      totalRegionBytes == Sum(rs, PagesOf) * PAGE && regionCount == |rs| &&
      inUse == Sum(rs, ReqOf) && live == Sum(rs, LiveOf) && inUse <= peak
    }

    ghost predicate Backing()
      reads this, phys, phys.bitmap
    {
      phys.Valid() && phys.hhdm % PAGE == 0 &&
      (rs != [] ==> phys.initialized) && Backed(rs, phys.hhdm, phys.owned)
    }

    ghost predicate HintOk()
      reads this
    {
      best == 0 || exists i: nat :: i < |rs| && rs[i].addr == best
    }

    /** What holds between calls. */
    ghost predicate Valid()
      reads this, phys, phys.bitmap
    {
      Core() && Backing() && HintOk() && NoneEmpty(rs)
    }

    constructor (physAllocator: PhysAllocator)
      ensures phys == physAllocator && !initialized && rs == []
    {
      phys := physAllocator;
      regions, blocks, root, best := map[], map[], 0, 0;
      mem := (x: nat) => 0;
      initialized := false;
      totalRegionBytes, inUse, peak, regionCount, live := 0, 0, 0, 0, 0;
      rs := [];
      stale := iset{};
    }

    /** A block's header, written into what was not a header before: whatever bytes were there are lost. */
    method Scribble(a: nat)
      modifies this`mem
      ensures forall x: nat :: !(a <= x < a + HEADER) ==> mem(x) == old(mem)(x)
    {
      var m := mem;
      mem := (x: nat) => if a <= x < a + HEADER then 0 else m(x);
    }

    /** The new header, and the two neighbours' links to it. */
    method WriteHeader(r: nat, a: nat, before: nat, after: nat, payload: nat, req: nat, ghost reg: Reg, ghost k: nat)
      requires k <= |reg.blocks| && BlocksLinked(blocks, reg) && r == reg.addr
      requires before == AddrAt(reg.blocks, k - 1) && after == AddrAt(reg.blocks, k)
      requires (k > 0 <==> before != 0) && (k < |reg.blocks| <==> after != 0)
      requires (before != 0 ==> before in blocks) && (after != 0 ==> after in blocks)
      modifies this`blocks, this`mem
      ensures blocks == SplicedIn(old(blocks), reg, k, Blk(a, payload, req))
      ensures forall x: nat :: !(a <= x < a + HEADER) ==> mem(x) == old(mem)(x)
    {
      blocks := blocks[a := BlockHeader(before, after, r, BLOCK_MAGIC, payload, req)];
      Scribble(a);
      if after != 0 { blocks := blocks[after := blocks[after].(prev := a)]; }
      if before != 0 { blocks := blocks[before := blocks[before].(next := a)]; }
    }

    /** The region's own header, and the statistics. */
    method CountIn(r: nat, a: nat, first: bool, needed: nat, req: nat)
      requires r in regions && regions[r].usage + needed < TWO_32
      modifies this`regions, this`inUse, this`peak, this`live
      ensures var h := old(regions)[r];
              regions == old(regions)[r := h.(first := if first then a else h.first, usage := h.usage + needed)]
      ensures inUse == old(inUse) + req && live == old(live) + 1
      ensures peak == if inUse > old(peak) then inUse else old(peak)
    {
      if first { regions := regions[r := regions[r].(first := a)]; }
      regions := regions[r := regions[r].(usage := regions[r].usage + needed)];
      inUse := inUse + req;
      if inUse > peak { peak := inUse; }
      live := live + 1;
    }

    /** A header at `x` shares bytes with the `n` bytes at `a`. */
    ghost predicate Overlaps(x: nat, a: nat, n: nat) { a < x + HEADER && x < a + n }

    ghost function Under(a: nat, n: nat): iset<nat> { iset x: nat | Overlaps(x, a, n) }

    /** The 32-bit usage of a region holds one more block. */
    lemma UsageHolds(i: nat, k: nat, b: Blk)
      requires Core() && i < |rs| && GapFits(rs[i], k, HEADER + b.size) && b.addr == GapStart(rs[i], k)
      requires b.size % ALIGNMENT == 0 && 0 < b.req <= b.size
      ensures rs[i].addr in regions && regions[rs[i].addr].usage + HEADER + b.size < TWO_32
    {
      hide BlocksLinked, Sum, InOrder, Totals;
      RegionSite(i);
      assert RegOk(rs[i]);
      InsertedOk(rs[i], k, b);
      UsageBelowSize(Inserted(rs[i], k, b));
    }

    /** A new header at the start of gap `k`, linked between its neighbours. */
    method Splice(r: nat, a: nat, before: nat, after: nat, payload: nat, req: nat, ghost i: nat, ghost k: nat)
      requires Core() && i < |rs| && rs[i].addr == r
      requires payload % ALIGNMENT == 0 && 0 < req <= payload
      requires GapFits(rs[i], k, HEADER + payload) && a == GapStart(rs[i], k)
      requires before == AddrAt(rs[i].blocks, k - 1) && after == AddrAt(rs[i].blocks, k)
      modifies this`regions, this`blocks, this`mem, this`rs, this`stale, this`inUse, this`peak, this`live
      ensures Core()
      ensures rs == old(rs)[i := Inserted(old(rs)[i], k, Blk(a, payload, req))]
      ensures inUse == old(inUse) + req && peak == if inUse > old(peak) then inUse else old(peak)
      ensures Intact(old(rs), old(mem), mem)
    {
      hide Linked, Geometry, RegionsLinked, BlocksLinked, Sum, RegOk, InOrder;
      ghost var b := Blk(a, payload, req);
      ghost var q := Inserted(rs[i], k, b);
      SpliceKeeps(regions, blocks, root, rs, i, k, b);
      SpliceSites(regions, blocks, rs, i, k, b);
      SpliceTotals(rs, i, k, b);
      GapHoldsNoPayload(rs, i, k);
      UsageHolds(i, k, b);
      WriteHeader(r, a, before, after, payload, req, rs[i], k);
      CountIn(r, a, before == 0, HEADER + payload, req);
      assert regions == RegionsUpdated(old(regions), old(rs), i, q);
      rs := rs[i := q];
      stale := stale + Under(a, HEADER + payload) - iset{a};
    }

    /** First fit in one region: before the first block, between blocks, after the last one. An empty
        region takes the block without a size check, so it must be known to hold it. */
    method PlaceBlock(r: nat, payload: nat, req: nat, ghost i: nat) returns (p: nat, ghost k: nat)
      requires Core() && i < |rs| && rs[i].addr == r
      requires payload % ALIGNMENT == 0 && 0 < req <= payload
      requires rs[i].blocks == [] ==> GapFits(rs[i], 0, HEADER + payload)
      modifies this`regions, this`blocks, this`mem, this`rs, this`stale, this`inUse, this`peak, this`live
      ensures Core()
      ensures p == 0 <==> NoGap(old(rs)[i], HEADER + payload)
      ensures p == 0 ==> rs == old(rs) && inUse == old(inUse) && peak == old(peak) && mem == old(mem)
      ensures p != 0 ==>
                FirstGap(old(rs)[i], k, HEADER + payload) && p == GapStart(old(rs)[i], k) + HEADER &&
                rs == old(rs)[i := Inserted(old(rs)[i], k, Blk(p - HEADER, payload, req))] &&
                inUse == old(inUse) + req && peak == if inUse > old(peak) then inUse else old(peak)
      ensures Intact(old(rs), old(mem), mem)
    {
      hide Linked, Geometry, RegionsLinked, BlocksLinked, Sum, RegOk, InOrder, Totals;
      ghost var reg := rs[i];
      ghost var n := |reg.blocks|;
      var needed := HEADER + payload;
      RegionSite(i);
      var first := regions[r].first;
      k := 0;
      if first == 0 {
        assert GapFits(reg, k, needed);
        Splice(r, r + HEADER, 0, 0, payload, req, i, 0);
        p := r + HEADER + HEADER;
        return;
      }
      BlockSite(i, 0);
      if first - (r + HEADER) >= needed {
        assert GapFits(reg, k, needed);
        Splice(r, r + HEADER, 0, first, payload, req, i, 0);
        p := r + HEADER + HEADER;
        return;
      }
      p, k := PlaceBehind(r, first, payload, req, i);
    }

    /** The rest of the search: the gaps between blocks and the one after the last. */
    method PlaceBehind(r: nat, first: nat, payload: nat, req: nat, ghost i: nat) returns (p: nat, ghost k: nat)
      requires Core() && i < |rs| && rs[i].addr == r && rs[i].blocks != [] && first == rs[i].blocks[0].addr
      requires payload % ALIGNMENT == 0 && 0 < req <= payload && !GapFits(rs[i], 0, HEADER + payload)
      modifies this`regions, this`blocks, this`mem, this`rs, this`stale, this`inUse, this`peak, this`live
      ensures Core()
      ensures p == 0 <==> NoGap(old(rs)[i], HEADER + payload)
      ensures p == 0 ==> rs == old(rs) && inUse == old(inUse) && peak == old(peak) && mem == old(mem)
      ensures p != 0 ==>
                FirstGap(old(rs)[i], k, HEADER + payload) && p == GapStart(old(rs)[i], k) + HEADER &&
                rs == old(rs)[i := Inserted(old(rs)[i], k, Blk(p - HEADER, payload, req))] &&
                inUse == old(inUse) + req && peak == if inUse > old(peak) then inUse else old(peak)
      ensures Intact(old(rs), old(mem), mem)
    {
      hide Linked, Geometry, RegionsLinked, BlocksLinked, Sum, RegOk, InOrder, Totals;
      ghost var reg := rs[i];
      ghost var n := |reg.blocks|;
      var needed := HEADER + payload;
      RegionSite(i);
      BlockSite(i, 0);
      k := 0;
      var cur := first;
      while blocks[cur].next != 0
        invariant k < n && LinkedAt(blocks, reg, k) && cur == reg.blocks[k].addr
        invariant forall j: nat :: j <= k ==> !GapFits(reg, j, needed)
        invariant unchanged(this)
        decreases n - k
      {
        BlockSite(i, k);
        BlockSite(i, k + 1);
        var after := cur + HEADER + blocks[cur].size;
        var next := blocks[cur].next;
        k := k + 1;
        if next - after >= needed {
          assert GapFits(reg, k, needed);
          Splice(r, after, cur, next, payload, req, i, k);
          p := after + HEADER;
          return;
        }
        cur := next;
      }
      BlockSite(i, k);
      var afterLast := cur + HEADER + blocks[cur].size;
      k := n;
      if r + regions[r].size - afterLast >= needed {
        assert GapFits(reg, k, needed);
        Splice(r, afterLast, cur, 0, payload, req, i, k);
        p := afterLast + HEADER;
        return;
      }
      p := 0;
    }

    /** What the code reads in the header of region `i`. */
    lemma RegionSite(i: nat)
      requires Core() && i < |rs|
      ensures rs[i].addr in regions && rs[i].addr != 0 && rs[i].pages > 0
      ensures var h := regions[rs[i].addr];
              h == HeaderOfRegion(rs, i) && (h.first == 0 <==> rs[i].blocks == []) &&
              (h.next == 0 <==> i + 1 == |rs|) && (h.prev == 0 <==> i == 0)
    {
      assert RegionLinkedAt(regions, rs, i) && RegOk(rs[i]);
      if i > 0 { assert RegOk(rs[i - 1]); }
      if i + 1 < |rs| { assert RegOk(rs[i + 1]); }
      if rs[i].blocks != [] { BlockInside(rs[i], 0); }
    }

    /** What the code reads in the header of block `j` of region `i`. */
    lemma BlockSite(i: nat, j: nat)
      requires Core() && i < |rs| && j < |rs[i].blocks|
      ensures LinkedAt(blocks, rs[i], j) && rs[i].blocks[j].addr >= rs[i].addr + HEADER > HEADER
      ensures BlkEnd(rs[i].blocks[j]) <= GapEnd(rs[i], j + 1)
      ensures var h := blocks[rs[i].blocks[j].addr];
              (h.next == 0 <==> j + 1 == |rs[i].blocks|) && (h.prev == 0 <==> j == 0)
    {
      assert BlocksLinked(blocks, rs[i]) && RegOk(rs[i]);
      assert LinkedAt(blocks, rs[i], j);
      BlockInside(rs[i], j);
      if j > 0 { BlockInside(rs[i], j - 1); }
      if j + 1 < |rs[i].blocks| { BlocksOrdered(rs[i], j, j + 1); }
    }

    /** The hint becomes the first region with the most free bytes, or null when no region has any. */
    method RefreshBestHint()
      requires Core()
      modifies this`best
      ensures Core() && HintOk()
      ensures exists b: nat, free: int :: BestAt(rs, |rs|, b, best, free)
    {
      hide Linked, Geometry, RegionsLinked, BlocksLinked, Sum, RegOk, BestAt;
      var bestFree := 0;
      var hint := 0;
      var r := root;
      ghost var c: nat, b: nat := 0, 0;
      RootSite();
      BestNone(rs);
      while r != 0
        modifies {}
        invariant c <= |rs| && r == RegAddrAt(rs, c) && (r == 0 <==> c == |rs|)
        invariant BestAt(rs, c, b, hint, bestFree)
        decreases |rs| - c
      {
        RegionSite(c);
        BestStep(rs, c, b, hint, bestFree);
        var freeBytes := regions[r].size - regions[r].usage;
        if freeBytes > bestFree {
          bestFree := freeBytes;
          hint := r;
          b := c;
        }
        r := regions[r].next;
        c := c + 1;
      }
      BestIsListed(rs, b, hint, bestFree);
      best := hint;
    }

    lemma RootSite()
      requires Core()
      ensures root == RegAddrAt(rs, 0) && (root == 0 <==> rs == [])
      ensures forall j: nat :: j < |rs| ==> rs[j].addr != 0
    {
      forall j: nat | j < |rs| ensures rs[j].addr != 0 { assert RegOk(rs[j]); }
      if rs != [] { RegionSite(0); }
    }

    // -------------------------------------------------------------- regions

    method RegionAlloc(pages: nat) returns (v: nat)
      requires Backing() && Geometry(rs) && 16 <= pages <= MAX_PAGES
      modifies phys`freePages, phys`usedPages, phys`lastAllocPage, phys`owned, phys.bitmap
      ensures Backing()
      ensures v == 0 <==> old(phys.Refuses(pages))
      ensures v == 0 ==> phys.freePages == old(phys.freePages) && phys.owned == old(phys.owned)
      ensures v != 0 ==>
                var r := Reg(v, pages, []);
                phys.initialized && RegOk(r) && BackedBy(r, phys.hhdm, phys.owned) && Geometry(rs + [r]) &&
                phys.freePages == old(phys.freePages) - pages
    {
      var at := phys.AllocPages(pages);
      if at == 0 { return 0; }
      v := at + phys.hhdm;
      ghost var r := Reg(v, pages, []);
      FreshRegion(rs, r, phys.hhdm, old(phys.owned), phys.owned);
    }

    method RegionFree(v: nat, pages: nat)
      requires phys.Valid() && pages > 0
      modifies phys`freePages, phys`usedPages, phys`owned, phys.bitmap
      ensures phys.hhdm == 0 || v < phys.hhdm ==> phys.owned == old(phys.owned) && phys.freePages == old(phys.freePages)
      ensures phys.hhdm == 0 || v < phys.hhdm ==> phys.Valid()
      ensures phys.initialized && BackedBy(Reg(v, pages, []), phys.hhdm, old(phys.owned)) && phys.hhdm != 0 ==>
                phys.Valid() && phys.owned == old(phys.owned) - Pages(PageIndex(Reg(v, pages, []), phys.hhdm), pages) &&
                phys.freePages == old(phys.freePages) + pages
    {
      if v == 0 { return; }
      if phys.hhdm == 0 || v < phys.hhdm { return; }
      ghost var p := PageIndex(Reg(v, pages, []), phys.hhdm);
      if phys.initialized && BackedBy(Reg(v, pages, []), phys.hhdm, phys.owned) {
        forall j: nat | p <= j < p + pages
          ensures j in phys.owned && Bit(phys.bitmap[..], j) && j < phys.totalPages
        {
          assert InRun(j, p, pages) && j in Pages(p, pages);
        }
        assert p + pages - 1 in phys.owned;
      }
      phys.FreePages(v - phys.hhdm, pages);
    }

    /** The pages of a region made for one block of `payload` bytes. */
    function PagesFor(payload: nat): nat {
      var pages := (payload + HEADER + HEADER + PAGE_SIZE - 1) / PAGE_SIZE;
      if pages < 16 then 16 else pages
    }

    /** Such a region is too large, or the page allocator has no run for it. */
    ghost predicate CannotGrow(payload: nat)
      reads this, phys, phys.bitmap
    {
      PagesFor(payload) > MAX_PAGES || phys.Refuses(PagesFor(payload))
    }

    /** A new region at the end of the list, large enough for one block of `payload` bytes. */
    method CreateRegion(payload: nat) returns (r: nat, ghost q: Reg)
      requires Core() && Backing() && payload < TWO_32
      modifies this`regions, this`root, this`rs, this`totalRegionBytes, this`regionCount
      modifies phys`freePages, phys`usedPages, phys`lastAllocPage, phys`owned, phys.bitmap
      ensures Core() && Backing()
      ensures r == 0 <==> old(CannotGrow(payload))
      ensures r == 0 ==> rs == old(rs) && phys.freePages == old(phys.freePages) && phys.owned == old(phys.owned)
      ensures r != 0 ==> q.addr == r && q.blocks == [] && rs == old(rs) + [q] && GapFits(q, 0, HEADER + payload)
      ensures r != 0 ==> phys.freePages == old(phys.freePages) - q.pages
    {
      hide Linked, Totals, Sum;
      var want := payload + HEADER + HEADER;
      var pages := (want + PAGE_SIZE - 1) / PAGE_SIZE;
      if pages < 16 { pages := 16; }
      q := Reg(0, pages, []);
      if pages > MAX_PAGES {
        r := 0;
        return;
      }
      r := RegionAlloc(pages);
      q := Reg(r, pages, []);
      if r == 0 { return; }
      AppendRegion(r, pages);
    }

    method AppendRegion(r: nat, pages: nat)
      requires Core() && Geometry(rs + [Reg(r, pages, [])])
      modifies this`regions, this`root, this`rs, this`totalRegionBytes, this`regionCount
      ensures Core() && rs == old(rs) + [Reg(r, pages, [])]
    {
      ghost var q := Reg(r, pages, []);
      AppendFacts(regions, rs, q);
      if root == 0 {
        regions := regions[r := RegionHeader(0, 0, 0, pages, pages * PAGE_SIZE, HEADER)];
        root := r;
      } else {
        var tail := TailOfRegions();
        regions := regions[tail := regions[tail].(next := r)];
        regions := regions[r := RegionHeader(tail, 0, 0, pages, pages * PAGE_SIZE, HEADER)];
      }
      totalRegionBytes := totalRegionBytes + pages * PAGE_SIZE;
      regionCount := regionCount + 1;
      rs := rs + [q];
    }

    method TailOfRegions() returns (tail: nat)
      requires Core() && root != 0
      ensures rs != [] && tail == rs[|rs| - 1].addr && tail in regions
    {
      RootSite();
      tail := root;
      ghost var c := 0;
      RegionSite(0);
      while regions[tail].next != 0
        invariant c < |rs| && tail == rs[c].addr && tail in regions
        decreases |rs| - c
      {
        RegionSite(c);
        tail := regions[tail].next;
        c := c + 1;
        RegionSite(c);
      }
      RegionSite(c);
    }

    /** Unlinks an empty region and returns its pages. With a zero direct-map offset the pages are not
        returned: `region_free` gives up. */
    method DestroyRegion(r: nat, ghost i: nat)
      requires Core() && Backing() && i < |rs| && rs[i].addr == r && rs[i].blocks == []
      modifies this`regions, this`root, this`best, this`rs, this`stale, this`totalRegionBytes, this`regionCount
      modifies phys`freePages, phys`usedPages, phys`owned, phys.bitmap
      ensures Core() && Backing() && rs == WithoutRegion(old(rs), i)
      ensures phys.freePages == old(phys.freePages) + if phys.hhdm == 0 then 0 else old(rs)[i].pages
    {
      hide RegOk, InOrder, BlocksLinked, Sum, RegionsLinked;
      RegionSite(i);
      assert BackedBy(rs[i], phys.hhdm, phys.owned);
      assert rs[i] == Reg(r, rs[i].pages, []);
      BackingWithout(rs, i, phys.hhdm, phys.owned);
      var pages := regions[r].pages;
      UnlinkRegion(r, i);
      RegionFree(r, pages);
    }

    /** The neighbours' links, and the root, skip the region. */
    method SkipRegion(r: nat, h: RegionHeader, ghost i: nat)
      requires RegionsLinked(regions, rs) && i < |rs| && rs[i].addr == r && h == HeaderOfRegion(rs, i) &&
        root == RegAddrAt(rs, 0)
      requires (h.prev == 0 <==> i == 0) && (h.next == 0 <==> i + 1 == |rs|) && (root == r <==> i == 0)
      modifies this`regions, this`root
      ensures regions == RegionsWithout(old(regions), rs, i) && root == if i == 0 then h.next else old(root)
    {
      hide HeaderOfBlock;
      if h.prev != 0 { assert RegionLinkedAt(regions, rs, i - 1); }
      if h.next != 0 { assert RegionLinkedAt(regions, rs, i + 1); }
      if h.prev != 0 { regions := regions[h.prev := regions[h.prev].(next := h.next)]; }
      if h.next != 0 { regions := regions[h.next := regions[h.next].(prev := h.prev)]; }
      if root == r { root := h.next; }
    }

    method UnlinkRegion(r: nat, ghost i: nat)
      requires Core() && i < |rs| && rs[i].addr == r && rs[i].blocks == []
      modifies this`regions, this`root, this`best, this`rs, this`stale, this`totalRegionBytes, this`regionCount
      ensures Core() && rs == WithoutRegion(old(rs), i)
    {
      hide Linked, Geometry, RegionsLinked, BlocksLinked, Sum, RegOk, Under;
      UnlinkRegionFacts(regions, blocks, root, rs, i);
      UnlinkRegionTotals(rs, i);
      RegionSite(i);
      RootSite();
      var h := regions[r];
      if i > 0 { RegionAddrsDistinct(rs, 0, i); }
      SkipRegion(r, h, i);
      if best == r { best := 0; }
      totalRegionBytes := totalRegionBytes - h.size;
      regionCount := regionCount - 1;
      rs := WithoutRegion(rs, i);
      stale := stale + Under(r, h.size);
    }

    // -------------------------------------------------------------- the interface

    method Init()
      requires if initialized then Valid() else rs == [] && phys.Valid() && phys.hhdm % PAGE == 0
      modifies this`root, this`best, this`totalRegionBytes, this`inUse, this`peak, this`regionCount, this`live,
               this`initialized
      ensures initialized && Valid()
      ensures old(initialized) ==> unchanged(this)
    {
      if initialized { return; }
      root, best := 0, 0;
      totalRegionBytes, inUse, peak, regionCount, live := 0, 0, 0, 0, 0;
      initialized := true;
    }

    ghost predicate LiveAt(i: nat, j: nat, ptr: nat)
      reads this
    {
      i < |rs| && j < |rs[i].blocks| && Payload(rs[i].blocks[j]) == ptr
    }

    ghost predicate IsLive(ptr: nat)
      reads this
    {
      exists i: nat, j: nat :: LiveAt(i, j, ptr)
    }

    ghost function Live(): set<Blk>
      reads this
    {
      LiveBlocks(rs)
    }

    /** The live block that `ptr` points to. */
    ghost function BlockOf(ptr: nat): (b: Blk)
      requires IsLive(ptr)
      reads this
      ensures b in Live() && Payload(b) == ptr
    {
      var i: nat, j: nat :| LiveAt(i, j, ptr);
      assert HasBlock(rs, i, j, rs[i].blocks[j]);
      rs[i].blocks[j]
    }

    /** A pointer is live exactly when it points to the payload of a live block, and then of only one. */
    lemma LiveIsBlock(ptr: nat)
      requires Core()
      ensures IsLive(ptr) <==> exists b :: b in Live() && Payload(b) == ptr
      ensures forall b, c :: b in Live() && c in Live() && Payload(b) == Payload(c) ==> b == c
    {
      hide Linked, Totals;
      forall b, c | b in Live() && c in Live() && Payload(b) == Payload(c) ensures b == c {
        if b != c { LivePairApart(rs, b, c); }
      }
      if i: nat, j: nat :| LiveAt(i, j, ptr) {
        assert HasBlock(rs, i, j, rs[i].blocks[j]);
      }
      forall b | b in Live() && Payload(b) == ptr ensures IsLive(ptr) {
        var i: nat, j: nat :| HasBlock(rs, i, j, b);
        assert LiveAt(i, j, ptr);
      }
    }

    lemma LiveHeader(b: Blk)
      requires Core() && b in Live()
      ensures b.addr in blocks && b.addr != 0 && blocks[b.addr].magic == BLOCK_MAGIC && blocks[b.addr].reqSize == b.req
    {
      hide Linked, Totals, Geometry;
      var i: nat, j: nat :| HasBlock(rs, i, j, b);
      BlockSite(i, j);
    }

    /** The pages of all regions. */
    ghost function HeapPages(): int
      reads this
    {
      Sum(rs, PagesOf)
    }

    /** The neighbours' links skip the block, its header is marked dead, its region's usage goes down. */
    method SkipBlock(b: nat, h: BlockHeader, ghost i: nat, ghost j: nat)
      requires Linked(regions, blocks, root, rs) && Geometry(rs) && LiveAt(i, j, b + HEADER)
      requires b in blocks && blocks[b] == h == HeaderOfBlock(rs[i], j)
      requires (h.next == 0 <==> j + 1 == |rs[i].blocks|) && (h.prev == 0 <==> j == 0)
      modifies this`regions, this`blocks
      ensures RegionsLinked(old(regions), rs) && BlocksLinked(old(blocks), rs[i])
      ensures blocks == SplicedOut(old(blocks), rs[i], j) && b in blocks && blocks[b].magic == BLOCK_DEAD
      ensures regions == RegionsUpdated(old(regions), rs, i, Removed(rs[i], j)) && rs[i].addr in regions
      ensures regions[rs[i].addr].first == AddrAt(Removed(rs[i], j).blocks, 0)
    {
      hide Linked, Geometry, RegionsLinked, BlocksLinked, Usage;
      UnlinkKeeps(regions, blocks, root, rs, i, j);
      UnlinkSites(regions, blocks, rs, i, j);
      var r := h.region;
      if h.prev != 0 {
        blocks := blocks[h.prev := blocks[h.prev].(next := h.next)];
      } else {
        regions := regions[r := regions[r].(first := h.next)];
      }
      if h.next != 0 { blocks := blocks[h.next := blocks[h.next].(prev := h.prev)]; }
      blocks := blocks[b := blocks[b].(magic := BLOCK_DEAD)];
      regions := regions[r := regions[r].(usage := regions[r].usage - (HEADER + h.size))];
    }

    /** Unlinks block `j` of region `i` and takes it out of the statistics. */
    method UnlinkBlock(b: nat, ghost i: nat, ghost j: nat)
      requires Core() && LiveAt(i, j, b + HEADER)
      modifies this`regions, this`blocks, this`rs, this`stale, this`inUse, this`live
      ensures Core() && rs == old(rs)[i := Removed(old(rs)[i], j)]
      ensures inUse == old(inUse) - old(rs)[i].blocks[j].req && DeadHeader(b + HEADER)
      ensures old(rs)[i].addr in regions && regions[old(rs)[i].addr].first == AddrAt(rs[i].blocks, 0)
    {
      hide Linked, Geometry, RegionsLinked, BlocksLinked, Sum, RegOk, InOrder, SplicedOut, RegionsUpdated, Removed,
        AddrAt;
      ghost var q := Removed(rs[i], j);
      UnlinkKeeps(regions, blocks, root, rs, i, j);
      UnlinkTotals(rs, i, j);
      BlockSite(i, j);
      var h := blocks[b];
      inUse := inUse - h.reqSize;
      live := live - 1;
      SkipBlock(b, h, i, j);
      rs := rs[i := q];
      stale := stale - iset{b};
    }

    /** Frees a live block; its region goes back to the page allocator when this was its last block. Null is left
        alone, and so is a block freed before, as long as its header is still there: freeing it again does nothing. */
    method Kfree(ptr: nat)
      requires Valid() && (ptr == 0 || IsLive(ptr) || DeadHeader(ptr))
      modifies this`regions, this`blocks, this`root, this`best, this`rs, this`stale
      modifies this`inUse, this`live, this`totalRegionBytes, this`regionCount
      modifies phys`freePages, phys`usedPages, phys`owned, phys.bitmap
      ensures Valid()
      ensures phys.hhdm != 0 ==> phys.freePages + HeapPages() == old(phys.freePages + HeapPages())
      ensures !old(IsLive(ptr)) ==> rs == old(rs) && inUse == old(inUse)
      ensures old(IsLive(ptr)) ==>
                exists i: nat, j: nat ::
                  old(LiveAt(i, j, ptr)) && rs == AfterFree(old(rs), i, j) &&
                  inUse == old(inUse) - old(rs)[i].blocks[j].req
      ensures old(IsLive(ptr)) ==> Live() == old(Live()) - {old(BlockOf(ptr))}
      ensures old(IsLive(ptr)) && |rs| == |old(rs)| ==> DeadHeader(ptr)
    {
      hide Linked, Geometry, RegionsLinked, BlocksLinked, Sum, RegOk, InOrder, Totals, Backed, HintOk, NoneEmpty;
      LiveSite(ptr);
      LiveIsBlock(ptr);
      if ptr == 0 { return; }
      var b := ptr - HEADER;
      if blocks[b].magic != BLOCK_MAGIC { return; }
      ghost var i: nat, j: nat :| LiveAt(i, j, ptr);
      assert HasBlock(rs, i, j, rs[i].blocks[j]);
      FreedLive(rs, i, j);
      FreeLive(b, i, j);
    }

    /** The block leaves its list and the statistics; every region keeps its pages. */
    method TakeOut(b: nat, ghost i: nat, ghost j: nat) returns (r: nat)
      requires Valid() && LiveAt(i, j, b + HEADER)
      modifies this`regions, this`blocks, this`rs, this`stale, this`inUse, this`live
      ensures Core() && Backing() && rs == old(rs)[i := Removed(old(rs)[i], j)]
      ensures HeapPages() == old(HeapPages()) && inUse == old(inUse) - old(rs)[i].blocks[j].req
      ensures DeadHeader(b + HEADER)
      ensures r == rs[i].addr && r in regions && (regions[r].first == 0 <==> |old(rs)[i].blocks| == 1)
    {
      hide Linked, Geometry, RegionsLinked, BlocksLinked, Sum, RegOk, InOrder, AddrAt, Totals;
      BlockSite(i, j);
      r := blocks[b].region;
      UnlinkTotals(rs, i, j);
      UnlinkBlock(b, i, j);
      RegionSite(i);
    }

    method FreeLive(b: nat, ghost i: nat, ghost j: nat)
      requires Valid() && LiveAt(i, j, b + HEADER)
      modifies this`regions, this`blocks, this`root, this`best, this`rs, this`stale
      modifies this`inUse, this`live, this`totalRegionBytes, this`regionCount
      modifies phys`freePages, phys`usedPages, phys`owned, phys.bitmap
      ensures Valid() && rs == AfterFree(old(rs), i, j)
      ensures phys.hhdm != 0 ==> phys.freePages + HeapPages() == old(phys.freePages + HeapPages())
      ensures inUse == old(inUse) - old(rs)[i].blocks[j].req
      ensures |rs| == |old(rs)| ==> DeadHeader(b + HEADER)
    {
      hide Linked, Geometry, RegionsLinked, BlocksLinked, Sum, RegOk, InOrder, Totals, Backed, Under;
      var r := TakeOut(b, i, j);
      if regions[r].first == 0 {
        UnlinkRegionTotals(rs, i);
        DestroyRegion(r, i);
        RefreshBestHint();
        assert WithoutRegion(old(rs)[i := Removed(old(rs)[i], j)], i) == WithoutRegion(old(rs), i);
        return;
      }
      RefreshBestHint();
    }

    /** Live pointers are not null and have live headers. */
    lemma LiveSites()
      requires Core()
      ensures forall i: nat, j: nat, ptr: nat :: LiveAt(i, j, ptr) ==>
                ptr > HEADER && ptr - HEADER in blocks && blocks[ptr - HEADER].magic == BLOCK_MAGIC
    {
      forall i: nat, j: nat, ptr: nat | LiveAt(i, j, ptr)
        ensures ptr > HEADER && ptr - HEADER in blocks && blocks[ptr - HEADER].magic == BLOCK_MAGIC
      {
        BlockSite(i, j);
      }
    }

    /** When `kmalloc` gives nothing: nothing is asked for or too much, or no gap holds the block and no region can
        be made for it. */
    ghost predicate Fails(size: nat)
      reads this, phys, phys.bitmap
    {
      size == 0 || !initialized || AlignUp(size) >= TWO_32 ||
      (NoGaps(rs, HEADER + AlignUp(size)) && CannotGrow(AlignUp(size)))
    }

    /** First fit in the hinted region, then in the others in list order, then in a new region. */
    method Kmalloc(size: nat) returns (p: nat)
      requires Valid() && size <= TWO_64 - 16
      modifies this`regions, this`blocks, this`mem, this`root, this`best, this`rs, this`stale
      modifies this`inUse, this`peak, this`live, this`totalRegionBytes, this`regionCount
      modifies phys`freePages, phys`usedPages, phys`lastAllocPage, phys`owned, phys.bitmap
      ensures Valid()
      ensures phys.freePages + HeapPages() == old(phys.freePages + HeapPages())
      ensures Intact(old(rs), old(mem), mem)
      ensures p == 0 ==> rs == old(rs) && inUse == old(inUse) && peak == old(peak) && mem == old(mem)
      ensures p == 0 <==> old(Fails(size))
      ensures p != 0 ==> Placed(old(rs), rs, old(best), p, AlignUp(size), size)
      ensures Live() == old(Live()) + Made(p, size) && (p == 0 || p >= HEADER)
      ensures Fresh(old(Live()), p, size)
      ensures p != 0 ==> inUse == old(inUse) + size && peak == if inUse > old(peak) then inUse else old(peak)
    {
      hide Linked, Geometry, RegionsLinked, BlocksLinked, Sum, RegOk, InOrder, FirstGap, NoGap, AlignUp, LiveBlocks,
        PlacedIn, PlacedNew, NoGaps, Disjoint, Intact, Totals, Backed;
      IntactSelf(rs, mem);
      if !initialized || size == 0 { return 0; }
      AlignUpCovers(size);
      var payload := AlignUp(size);
      if payload > 0xFFFF_FFFF { return 0; }
      p := PlaceInListed(payload, size);
      if p == 0 { p := PlaceInNew(payload, size); }
      if p != 0 { PlacedLive(old(rs), rs, old(best), p, payload, size); }
    }

    /** The regions that exist: the hinted one first. Only a success elsewhere refreshes the hint. */
    method PlaceInListed(payload: nat, req: nat) returns (p: nat)
      requires Valid() && payload % ALIGNMENT == 0 && 0 < req <= payload
      modifies this`regions, this`blocks, this`mem, this`best, this`rs, this`stale, this`inUse, this`peak, this`live
      ensures Valid() && HeapPages() == old(HeapPages())
      ensures Intact(old(rs), old(mem), mem)
      ensures p == 0 ==>
        rs == old(rs) && inUse == old(inUse) && peak == old(peak) && mem == old(mem) && best == old(best)
      ensures p == 0 <==> NoGaps(old(rs), HEADER + payload)
      ensures p != 0 ==> Placed(old(rs), rs, old(best), p, payload, req)
      ensures p != 0 ==> inUse == old(inUse) + req && peak == if inUse > old(peak) then inUse else old(peak)
    {
      hide Linked, Geometry, RegionsLinked, BlocksLinked, Sum, RegOk, InOrder, NoGap, PlacedIn, Placed, Totals, Backed;
      if best != 0 {
        ghost var i: nat :| i < |rs| && rs[i].addr == best;
        p := PlaceListed(best, payload, req, i);
        if p != 0 {
          PlacedListed(old(rs), rs, old(best), i, p, payload, req);
          return;
        }
        HintIsDistinct(i);
      }
      RootSite();
      p := WalkRegions(payload, req);
    }

    /** The loop over the remaining regions; the hinted one has no room. */
    method WalkRegions(payload: nat, req: nat) returns (p: nat)
      requires Valid() && payload % ALIGNMENT == 0 && 0 < req <= payload
      requires forall j: nat :: j < |rs| && rs[j].addr == best ==> NoGap(rs[j], HEADER + payload)
      modifies this`regions, this`blocks, this`mem, this`best, this`rs, this`stale, this`inUse, this`peak, this`live
      ensures Valid() && HeapPages() == old(HeapPages())
      ensures Intact(old(rs), old(mem), mem)
      ensures p == 0 ==>
        rs == old(rs) && inUse == old(inUse) && peak == old(peak) && mem == old(mem) && best == old(best)
      ensures p == 0 <==> NoGaps(old(rs), HEADER + payload)
      ensures p != 0 ==> Placed(old(rs), rs, old(best), p, payload, req)
      ensures p != 0 ==> inUse == old(inUse) + req && peak == if inUse > old(peak) then inUse else old(peak)
    {
      hide Linked, Geometry, RegionsLinked, BlocksLinked, Sum, RegOk, InOrder, NoGap, PlacedIn, Placed, Totals, Backed;
      var r := root;
      ghost var c: nat := 0;
      RootSite();
      while r != 0
        invariant c <= |rs| && r == RegAddrAt(rs, c) && (r == 0 <==> c == |rs|)
        invariant Valid() && rs == old(rs) && best == old(best) && mem == old(mem) && inUse == old(inUse) &&
          peak == old(peak)
        invariant forall j: nat :: j < |rs| && (j < c || rs[j].addr == best) ==> NoGap(rs[j], HEADER + payload)
        decreases |rs| - c
      {
        RegionSite(c);
        if r != best {
          p := PlaceListed(r, payload, req, c);
          if p != 0 {
            PlacedListed(old(rs), rs, old(best), c, p, payload, req);
            RefreshBestHint();
            return;
          }
        }
        RegionSite(c);
        r := regions[r].next;
        c := c + 1;
      }
      p := 0;
    }

    lemma HintIsDistinct(i: nat)
      requires Core() && i < |rs|
      ensures forall j: nat :: j < |rs| && rs[j].addr == rs[i].addr ==> j == i
    {
      GeometryIsDistinct(rs);
    }

    /** A new region: placing into it cannot fail, so the code's `destroy_region` there is unreachable. */
    method PlaceInNew(payload: nat, req: nat) returns (p: nat)
      requires Valid() && payload % ALIGNMENT == 0 && 0 < req <= payload < TWO_32
      modifies this`regions, this`blocks, this`mem, this`root, this`best, this`rs, this`stale
      modifies this`inUse, this`peak, this`live, this`totalRegionBytes, this`regionCount
      modifies phys`freePages, phys`usedPages, phys`lastAllocPage, phys`owned, phys.bitmap
      ensures Valid()
      ensures phys.freePages + HeapPages() == old(phys.freePages + HeapPages())
      ensures Intact(old(rs), old(mem), mem)
      ensures p == 0 <==> old(CannotGrow(payload))
      ensures p == 0 ==> rs == old(rs) && inUse == old(inUse) && peak == old(peak) && mem == old(mem)
      ensures p != 0 ==> PlacedNew(old(rs), rs, p, payload, req)
      ensures p != 0 ==> inUse == old(inUse) + req && peak == if inUse > old(peak) then inUse else old(peak)
    {
      hide Linked, RegionsLinked, BlocksLinked, RegOk, InOrder, NoGap, Sum, Totals, GapFits, Intact, Geometry,
        PlacedNew;
      var r;
      ghost var q;
      r, q := CreateRegion(payload);
      if r == 0 {
        IntactSelf(old(rs), old(mem));
        return 0;
      }
      AppendedPages(old(rs), q);
      p := FillNew(r, payload, req, old(rs), q);
      RefreshBestHint();
    }

    lemma AppendedPages(before: seq<Reg>, q: Reg)
      ensures Sum(before + [q], PagesOf) == Sum(before, PagesOf) + q.pages
    {
      SumAppend(before, PagesOf, q);
    }

    /** The block is placed into the region just made. */
    method FillNew(r: nat, payload: nat, req: nat, ghost before: seq<Reg>, ghost q: Reg) returns (p: nat)
      requires Core() && Backing() && NoneEmpty(before) && rs == before + [q] && q.addr == r && q.blocks == []
      requires payload % ALIGNMENT == 0 && 0 < req <= payload && GapFits(q, 0, HEADER + payload)
      modifies this`regions, this`blocks, this`mem, this`rs, this`stale, this`inUse, this`peak, this`live
      ensures p != 0 && Core() && Backing() && NoneEmpty(rs) && HeapPages() == old(HeapPages())
      ensures PlacedNew(before, rs, p, payload, req) && Intact(before, old(mem), mem)
      ensures inUse == old(inUse) + req && peak == if inUse > old(peak) then inUse else old(peak)
    {
      hide Linked, RegionsLinked, BlocksLinked, RegOk, InOrder, NoGap, Sum, Totals, GapFits, GapStart, FirstGap,
        Inserted, Intact, Geometry, WithNewRegion;
      ghost var k: nat;
      p, k := PlaceBlock(r, payload, req, |before|);
      NewRegionHolds(q, k, HEADER + payload);
      IntactPrefix(before, q, old(mem), mem);
      if p == 0 { assert false; }
      InNewRegion(before, q, p, payload, req);
      AppendedPages(before, q);
    }

    lemma InNewRegion(before: seq<Reg>, q: Reg, p: nat, payload: nat, req: nat)
      requires q.blocks == [] && p == q.addr + HEADER + HEADER
      ensures var after := (before + [q])[|before| := Inserted(q, 0, Blk(p - HEADER, payload, req))];
              after == WithNewRegion(before, q.pages, p, payload, req) &&
                Sum(after, PagesOf) == Sum(before, PagesOf) + q.pages &&
              (NoneEmpty(before) ==> NoneEmpty(after)) && after[|before|].addr == q.addr &&
                after[|before|].pages == q.pages
    {
      var b := Blk(p - HEADER, payload, req);
      assert Inserted(q, 0, b).blocks == [b];
      SumUpdate(before + [q], PagesOf, |before|, Inserted(q, 0, b));
      SumAppend(before, PagesOf, q);
    }

    /** One try in a listed region, which is never empty. */
    method PlaceListed(r: nat, payload: nat, req: nat, ghost i: nat) returns (p: nat)
      requires Core() && Backing() && HintOk() && NoneEmpty(rs) && i < |rs| && rs[i].addr == r
      requires payload % ALIGNMENT == 0 && 0 < req <= payload
      modifies this`regions, this`blocks, this`mem, this`rs, this`stale, this`inUse, this`peak, this`live
      ensures Valid() && HeapPages() == old(HeapPages()) && Intact(old(rs), old(mem), mem)
      ensures p == 0 ==> rs == old(rs) && inUse == old(inUse) && peak == old(peak) && mem == old(mem)
      ensures p == 0 ==> NoGap(rs[i], HEADER + payload)
      ensures p != 0 ==> PlacedIn(old(rs), rs, i, p, payload, req) && !NoGap(old(rs)[i], HEADER + payload)
      ensures p != 0 ==> inUse == old(inUse) + req && peak == if inUse > old(peak) then inUse else old(peak)
    {
      hide Linked, Geometry, RegionsLinked, BlocksLinked, RegOk, InOrder, NoGap, Sum;
      ghost var k: nat;
      p, k := PlaceBlock(r, payload, req, i);
      if p != 0 {
        ghost var q := Inserted(old(rs)[i], k, Blk(p - HEADER, payload, req));
        assert forall j :: 0 <= j < |rs| ==> rs[j].addr == old(rs)[j].addr && rs[j].pages == old(rs)[j].pages;
        SumUpdate(old(rs), PagesOf, i, q);
      }
    }

    /** `memcpy` between buffers that do not overlap */
    method Memcpy(dst: nat, src: nat, n: nat)
      requires dst + n <= src || src + n <= dst
      modifies this`mem
      ensures Copied(old(mem), mem, dst, src, n)
    {
      var i := 0;
      while i < n
        invariant i <= n && Copied(old(mem), mem, dst, src, i)
      {
        var m, v := mem, mem(src + i);
        mem := (x: nat) => if x == dst + i then v else m(x);
        i := i + 1;
      }
    }

    /** Shrinking keeps the block and its payload size; only the requested size changes. */
    method Shrink(b: nat, newSize: nat, ghost i: nat, ghost j: nat)
      requires Valid() && LiveAt(i, j, b + HEADER) && 0 < newSize <= rs[i].blocks[j].req
      modifies this`blocks, this`rs, this`inUse
      ensures Valid() && rs == Resized(old(rs), i, j, newSize) && HeapPages() == old(HeapPages())
      ensures inUse == old(inUse) - old(rs)[i].blocks[j].req + newSize
    {
      hide Linked, Geometry, RegionsLinked, BlocksLinked, Sum, RegOk, InOrder;
      BlockSite(i, j);
      ResizeKeeps(regions, blocks, root, rs, i, j, newSize);
      ResizeTotals(rs, i, j, newSize);
      inUse := inUse - blocks[b].reqSize;
      blocks := blocks[b := blocks[b].(reqSize := newSize)];
      inUse := inUse + newSize;
      rs := Resized(rs, i, j, newSize);
      assert forall l :: 0 <= l < |rs| ==> rs[l].addr == old(rs)[l].addr && rs[l].pages == old(rs)[l].pages;
    }

    /** Zeroed allocation of `count` items; the product is checked for overflow first. */
    method Kcalloc(count: nat, size: nat) returns (p: nat)
      requires Valid() && count < TWO_64 && size < TWO_64 &&
        (Product(count, size) < TWO_64 ==> Product(count, size) <= TWO_64 - 16)
      modifies this`regions, this`blocks, this`mem, this`root, this`best, this`rs, this`stale
      modifies this`inUse, this`peak, this`live, this`totalRegionBytes, this`regionCount
      modifies phys`freePages, phys`usedPages, phys`lastAllocPage, phys`owned, phys.bitmap
      ensures Valid()
      ensures phys.freePages + HeapPages() == old(phys.freePages + HeapPages())
      ensures p == 0 <==> Product(count, size) >= TWO_64 || old(Fails(Product(count, size)))
      ensures peak == if p != 0 && inUse > old(peak) then inUse else old(peak)
      ensures Live() == old(Live()) + Made(p, Product(count, size))
      ensures forall c :: c in old(Live()) ==> SamePayload(c, old(mem), mem)
      ensures p != 0 ==> forall x: nat :: p <= x < p + Product(count, size) ==> mem(x) == 0
    {
      hide Linked, Geometry, RegionsLinked, BlocksLinked, Sum, RegOk, InOrder, AlignUp, LiveBlocks, Placed, Intact,
        Backed;
      if count == 0 || size == 0 { return 0; }
      ProductOverflow(count, size);
      if count > (TWO_64 - 1) / size { return 0; }
      var total := Product(count, size);
      p := Kmalloc(total);
      IntactPayloads(old(rs), old(mem), mem);
      if p == 0 { return; }
      AlignUpCovers(total);
      ghost var m, made := mem, Blk(p - HEADER, AlignUp(total), total);
      assert made in Made(p, total);
      ZeroFill(p, total);
      forall c | c in old(Live()) ensures SamePayload(c, old(mem), mem) {
        assert Disjoint(made, c) && SamePayload(c, old(mem), m);
      }
    }

    /** `memset` to zero */
    method ZeroFill(at: nat, n: nat)
      modifies this`mem
      ensures forall x: nat :: mem(x) == if at <= x < at + n then 0 else old(mem)(x)
    {
      var i := 0;
      while i < n
        invariant i <= n && forall x: nat :: mem(x) == if at <= x < at + i then 0 else old(mem)(x)
      {
        var m := mem;
        mem := (x: nat) => if x == at + i then 0 else m(x);
        i := i + 1;
      }
    }

    function PeakWith(peak: int, used: int): int { if used > peak then used else peak }

    /** Resize. Growing allocates, copies the requested bytes and frees; when it cannot allocate, the old
        block is untouched. */
    method Krealloc(ptr: nat, newSize: nat) returns (p: nat)
      requires Valid() && newSize <= TWO_64 - 16 && (ptr == 0 || IsLive(ptr) || DeadHeader(ptr))
      modifies this`regions, this`blocks, this`mem, this`root, this`best, this`rs, this`stale
      modifies this`inUse, this`peak, this`live, this`totalRegionBytes, this`regionCount
      modifies phys`freePages, phys`usedPages, phys`lastAllocPage, phys`owned, phys.bitmap
      ensures Valid()
      ensures phys.hhdm != 0 ==> phys.freePages + HeapPages() == old(phys.freePages + HeapPages())
      ensures forall c :: c in old(Live()) ==> SamePayload(c, old(mem), mem)
      ensures !old(IsLive(ptr)) ==> Live() == old(Live()) + Made(p, newSize)
      ensures !old(IsLive(ptr)) ==> (p == 0 <==> ptr != 0 || old(Fails(newSize)))
      ensures peak == if p == 0 || p == ptr then old(peak) else PeakWith(old(peak), old(inUse) + newSize)
      ensures old(IsLive(ptr)) ==>
                var b := old(BlockOf(ptr));
                if newSize == 0 then
                  p == 0 && Live() == old(Live()) - {b}
                else if newSize <= b.req then
                  p == ptr && Live() == old(Live()) - {b} + {b.(req := newSize)}
                else if old(Fails(newSize)) then
                  p == 0 && Live() == old(Live())
                else
                  p != 0 && Live() == old(Live()) - {b} + Made(p, newSize) && p >= HEADER &&
                    Fresh(old(Live()), p, newSize) &&
                  forall x: nat :: p <= x < p + b.req ==> mem(x) == old(mem)(ptr + (x - p))
    {
      hide Linked, Geometry, RegionsLinked, BlocksLinked, Sum, RegOk, InOrder, AlignUp, LiveBlocks, Placed, Intact,
        Backed, AfterFree, Fresh, HintOk, Totals, NoneEmpty, Fails, Made, SamePayload, LiveAt, IsLive, Core, Backing;
      LiveIsBlock(ptr);
      LiveSite(ptr);
      NothingMade(Live(), mem, newSize);
      if ptr == 0 {
        p := Kmalloc(newSize);
        IntactPayloads(old(rs), old(mem), mem);
        return;
      }
      if newSize == 0 {
        Kfree(ptr);
        return 0;
      }
      if blocks[ptr - HEADER].magic != BLOCK_MAGIC { return 0; }
      p := ReallocLive(ptr, newSize, BlockOf(ptr));
    }

    lemma LiveSite(ptr: nat)
      requires Core()
      ensures IsLive(ptr) ==> ptr > HEADER && ptr - HEADER in blocks && blocks[ptr - HEADER].magic == BLOCK_MAGIC
    {
      hide Core;
      LiveSites();
    }

    lemma NothingMade(live: set<Blk>, m: nat -> byte, n: nat)
      ensures forall c :: c in live ==> SamePayload(c, m, m)
      ensures Made(0, n) == {}
    {}

    method ReallocLive(ptr: nat, newSize: nat, ghost b: Blk) returns (p: nat)
      requires Valid() && b in Live() && Payload(b) == ptr && 0 < newSize <= TWO_64 - 16
      modifies this`regions, this`blocks, this`mem, this`root, this`best, this`rs, this`stale
      modifies this`inUse, this`peak, this`live, this`totalRegionBytes, this`regionCount
      modifies phys`freePages, phys`usedPages, phys`lastAllocPage, phys`owned, phys.bitmap
      ensures Valid()
      ensures phys.hhdm != 0 ==> phys.freePages + HeapPages() == old(phys.freePages + HeapPages())
      ensures forall c :: c in old(Live()) ==> SamePayload(c, old(mem), mem)
      ensures newSize <= b.req ==> p == ptr && Live() == old(Live()) - {b} + {b.(req := newSize)}
      ensures newSize > b.req ==> (p == 0 <==> old(Fails(newSize)))
      ensures newSize > b.req ==> p == 0 || p != ptr
      ensures peak == if p == 0 || p == ptr then old(peak) else PeakWith(old(peak), old(inUse) + newSize)
      ensures newSize > b.req ==> Live() == if p == 0 then old(Live()) else old(Live()) - {b} + Made(p, newSize)
      ensures newSize > b.req && p != 0 ==> p >= HEADER && Fresh(old(Live()), p, newSize)
      ensures newSize > b.req && p != 0 ==>
                forall x: nat :: p <= x < p + b.req ==> mem(x) == old(mem)(ptr + (x - p))
    {
      hide Linked, Geometry, RegionsLinked, BlocksLinked, Sum, RegOk, InOrder, AlignUp, Placed, Intact, Backed, Fails,
        Fresh, Made, HintOk, NoneEmpty, Totals;
      LiveHeader(b);
      if newSize <= blocks[ptr - HEADER].reqSize {
        ghost var i: nat, j: nat :| HasBlock(rs, i, j, b);
        ResizedLive(rs, i, j, newSize);
        Shrink(ptr - HEADER, newSize, i, j);
        return ptr;
      }
      p := Grow(ptr, newSize, b);
    }

    method Grow(ptr: nat, newSize: nat, ghost b: Blk) returns (p: nat)
      requires Valid() && b in Live() && Payload(b) == ptr && b.req < newSize <= TWO_64 - 16
      modifies this`regions, this`blocks, this`mem, this`root, this`best, this`rs, this`stale
      modifies this`inUse, this`peak, this`live, this`totalRegionBytes, this`regionCount
      modifies phys`freePages, phys`usedPages, phys`lastAllocPage, phys`owned, phys.bitmap
      ensures Valid()
      ensures phys.hhdm != 0 ==> phys.freePages + HeapPages() == old(phys.freePages + HeapPages())
      ensures forall c :: c in old(Live()) ==> SamePayload(c, old(mem), mem)
      ensures p == 0 <==> old(Fails(newSize))
      ensures p == 0 ==> Live() == old(Live())
      ensures peak == if p == 0 then old(peak) else PeakWith(old(peak), old(inUse) + newSize)
      ensures p != 0 ==> Live() == old(Live()) - {b} + Made(p, newSize) && p >= HEADER && p != ptr
      ensures p != 0 ==> Fresh(old(Live()), p, newSize)
      ensures p != 0 ==> forall x: nat :: p <= x < p + b.req ==> mem(x) == old(mem)(ptr + (x - p))
    {
      hide Linked, Geometry, RegionsLinked, BlocksLinked, Sum, RegOk, InOrder, AlignUp, LiveBlocks, Placed, Totals,
        SamePayload, Backed, AfterFree, Fresh, DeadHeader, HintOk, NoneEmpty, Fails, Made,
        Core, Backing, LiveAt;
      p := AllocateCopy(ptr, newSize, b);
      if p == 0 { return; }
      LiveIsBlock(ptr);
      Kfree(ptr);
    }

    /** The first two steps of growing: a new block, and the old block's requested bytes in it. */
    method AllocateCopy(ptr: nat, newSize: nat, ghost b: Blk) returns (p: nat)
      requires Valid() && b in Live() && Payload(b) == ptr && b.req < newSize <= TWO_64 - 16
      modifies this`regions, this`blocks, this`mem, this`root, this`best, this`rs, this`stale
      modifies this`inUse, this`peak, this`live, this`totalRegionBytes, this`regionCount
      modifies phys`freePages, phys`usedPages, phys`lastAllocPage, phys`owned, phys.bitmap
      ensures Valid()
      ensures phys.freePages + HeapPages() == old(phys.freePages + HeapPages())
      ensures forall c :: c in old(Live()) ==> SamePayload(c, old(mem), mem)
      ensures p == 0 <==> old(Fails(newSize))
      ensures p == 0 ==> Live() == old(Live())
      ensures peak == if p == 0 then old(peak) else PeakWith(old(peak), old(inUse) + newSize)
      ensures p != 0 ==> Live() == old(Live()) + Made(p, newSize) && b !in Made(p, newSize) && p >= HEADER && p != ptr
      ensures p != 0 ==> Fresh(old(Live()), p, newSize)
      ensures p != 0 ==> forall x: nat :: p <= x < p + b.req ==> mem(x) == old(mem)(ptr + (x - p))
    {
      hide Linked, Geometry, RegionsLinked, BlocksLinked, Sum, RegOk, InOrder, AlignUp, LiveBlocks, Placed, Intact,
        Backed;
      LiveSizes(b);
      p := Kmalloc(newSize);
      IntactPayloads(old(rs), old(mem), mem);
      if p == 0 { return; }
      AlignUpCovers(newSize);
      NewBlock(old(Live()), p, newSize, b);
      CopyRequested(ptr, p, b, Blk(p - HEADER, AlignUp(newSize), newSize), old(Live()), old(mem));
    }

    lemma NewBlock(live: set<Blk>, p: nat, n: nat, b: Blk)
      requires p >= HEADER && Fresh(live, p, n) && b in live
      ensures var made := Blk(p - HEADER, AlignUp(n), n);
              made in Made(p, n) && (forall c :: c in live ==> Disjoint(made, c)) &&
              (b.size > 0 && made.size > 0 ==> b !in Made(p, n))
    {
      var made := Blk(p - HEADER, AlignUp(n), n);
      assert made in Made(p, n);
      assert Disjoint(made, b);
    }

    /** The old block's requested bytes go into the new block. */
    method CopyRequested(ptr: nat, p: nat, ghost b: Blk, ghost made: Blk, ghost live: set<Blk>, ghost m0: nat -> byte)
      requires Valid() && b in live && live <= Live() && Payload(b) == ptr && Payload(made) == p
      requires b.req <= b.size && b.req <= made.size && forall c :: c in live ==> Disjoint(made, c)
      requires forall c :: c in live ==> SamePayload(c, m0, mem)
      modifies this`mem
      ensures Valid()
      ensures forall c :: c in live ==> SamePayload(c, m0, mem)
      ensures forall x: nat :: p <= x < p + b.req ==> mem(x) == m0(ptr + (x - p))
    {
      hide Linked, Geometry, LiveBlocks, Backed, SamePayload, Sum;
      LiveHeader(b);
      assert Disjoint(made, b);
      ghost var m := mem;
      Memcpy(p, ptr, blocks[ptr - HEADER].reqSize);
      CopyKeeps(live, made, b, m0, m, mem);
    }

    /** The copy writes only the new block. */
    lemma CopyKeeps(live: set<Blk>, made: Blk, b: Blk, m0: nat -> byte, m: nat -> byte, m': nat -> byte)
      requires b in live && b.req <= b.size && b.req <= made.size && forall c :: c in live ==> Disjoint(made, c)
      requires forall c :: c in live ==> SamePayload(c, m0, m)
      requires Copied(m, m', Payload(made), Payload(b), b.req)
      ensures forall c :: c in live ==> SamePayload(c, m0, m')
      ensures forall x: nat :: Payload(made) <= x < Payload(made) + b.req ==>
                m'(x) == m0(Payload(b) + (x - Payload(made)))
    {
      assert SamePayload(b, m0, m);
      forall c | c in live ensures SamePayload(c, m0, m') { assert Disjoint(made, c) && SamePayload(c, m0, m); }
    }

    lemma LiveSizes(b: Blk)
      requires Core() && b in Live()
      ensures 0 < b.req <= b.size
    {
      hide Linked, Totals, Geometry;
      LiveInside(rs, b);
    }

    /** A freed block's header that is still there: nothing was placed over it and its region was not given back. */
    ghost predicate DeadHeader(ptr: nat)
      reads this
    {
      ptr >= HEADER && ptr - HEADER in blocks && blocks[ptr - HEADER].magic == BLOCK_DEAD && ptr - HEADER !in stale
    }

    /** When no block is live there is nothing left: no regions, no bytes, no pages. */
    lemma NothingLive()
      requires Valid() && Live() == {}
      ensures rs == [] && root == 0 && best == 0 && HeapPages() == 0
      ensures inUse == 0 && live == 0 && regionCount == 0 && totalRegionBytes == 0
    {
      if rs != [] { SomeLive(rs); }
    }

    /** A run of calls by a client that frees and resizes only what it holds. Pages are conserved
        throughout, and when the client holds nothing the allocator is back where it started. */
    method Run(calls: seq<Call>) returns (held: seq<nat>)
      requires Valid() && Live() == {} && phys.hhdm != 0
      requires forall i :: 0 <= i < |calls| && !calls[i].Free? ==> calls[i].size <= TWO_64 - 16
      modifies this`regions, this`blocks, this`mem, this`root, this`best, this`rs, this`stale
      modifies this`inUse, this`peak, this`live, this`totalRegionBytes, this`regionCount
      modifies phys`freePages, phys`usedPages, phys`lastAllocPage, phys`owned, phys.bitmap
      ensures Valid() && Lists(held, Live())
      ensures phys.freePages + HeapPages() == old(phys.freePages)
      ensures held == [] ==> rs == [] && inUse == 0 && phys.freePages == old(phys.freePages)
    {
      hide Linked, Geometry, RegionsLinked, BlocksLinked, Sum, RegOk, InOrder, AlignUp, LiveBlocks, Placed, Intact,
        Backed;
      NothingLive();
      held := [];
      var n := 0;
      while n < |calls|
        invariant n <= |calls| && Valid() && Lists(held, Live()) && phys.hhdm == old(phys.hhdm)
        invariant phys.freePages + HeapPages() == old(phys.freePages)
      {
        held := Step(calls[n], held);
        n := n + 1;
      }
      if held == [] {
        ListsNothing(Live());
        NothingLive();
      }
    }

    method Step(call: Call, held: seq<nat>) returns (now: seq<nat>)
      requires Valid() && Lists(held, Live()) && phys.hhdm != 0
      requires !call.Free? ==> call.size <= TWO_64 - 16
      modifies this`regions, this`blocks, this`mem, this`root, this`best, this`rs, this`stale
      modifies this`inUse, this`peak, this`live, this`totalRegionBytes, this`regionCount
      modifies phys`freePages, phys`usedPages, phys`lastAllocPage, phys`owned, phys.bitmap
      ensures Valid() && Lists(now, Live())
      ensures phys.freePages + HeapPages() == old(phys.freePages + HeapPages())
    {
      hide Linked, Geometry, RegionsLinked, BlocksLinked, Sum, RegOk, InOrder, AlignUp, LiveBlocks, Placed, Intact,
        Backed, Lists, SamePayload;
      now := held;
      match call {
        case Malloc(size) =>
          var p := Kmalloc(size);
          if p != 0 {
            FreshPayload(old(Live()), p, size);
            ListsAdded(held, old(Live()), Blk(p - HEADER, AlignUp(size), size));
            now := held + [p];
          }
        case Free(which) =>
          if which < |held| {
            now := StepFree(which, held);
          }
        case Realloc(which, size) =>
          if which < |held| {
            now := StepRealloc(which, size, held);
          }
      }
    }

    method StepFree(i: nat, held: seq<nat>) returns (now: seq<nat>)
      requires Valid() && Lists(held, Live()) && phys.hhdm != 0 && i < |held|
      modifies this`regions, this`blocks, this`root, this`best, this`rs, this`stale
      modifies this`inUse, this`live, this`totalRegionBytes, this`regionCount
      modifies phys`freePages, phys`usedPages, phys`owned, phys.bitmap
      ensures Valid() && Lists(now, Live())
      ensures phys.freePages + HeapPages() == old(phys.freePages + HeapPages())
    {
      hide Linked, Geometry, RegionsLinked, BlocksLinked, Sum, RegOk, InOrder, AlignUp, LiveBlocks, Backed;
      assert held[i] in held;
      LiveIsBlock(held[i]);
      ListsRemoved(held, Live(), i, BlockOf(held[i]));
      Kfree(held[i]);
      now := held[..i] + held[i + 1..];
    }

    method StepRealloc(i: nat, size: nat, held: seq<nat>) returns (now: seq<nat>)
      requires Valid() && Lists(held, Live()) && phys.hhdm != 0 && i < |held| && size <= TWO_64 - 16
      modifies this`regions, this`blocks, this`mem, this`root, this`best, this`rs, this`stale
      modifies this`inUse, this`peak, this`live, this`totalRegionBytes, this`regionCount
      modifies phys`freePages, phys`usedPages, phys`lastAllocPage, phys`owned, phys.bitmap
      ensures Valid() && Lists(now, Live())
      ensures phys.freePages + HeapPages() == old(phys.freePages + HeapPages())
    {
      hide Linked, Geometry, RegionsLinked, BlocksLinked, Sum, RegOk, InOrder, AlignUp, LiveBlocks, Backed, SamePayload,
        Lists, Fresh, Made, Totals;
      ListsIndex(held, Live(), i);
      LiveIsBlock(held[i]);
      ghost var b := BlockOf(held[i]);
      var p := Krealloc(held[i], size);
      now := if size == 0 then held[..i] + held[i + 1..]
             else if p == 0 || p == held[i] then held
             else held[..i] + held[i + 1..] + [p];
      ListsAfter(held, old(Live()), i, b, size, p, Live());
    }
  }

  datatype Call = Malloc(size: nat) | Free(which: nat) | Realloc(which: nat, size: nat)
}

