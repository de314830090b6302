/** The physical page allocator: one bit per 4 KiB page, a scan that starts at a hint, two counters.
    `reserved` and `owned` are ghost: the pages `init` keeps back for good, and the pages handed out
    and not yet returned. */
module Phys {
  import opened Bytes

  const PAGE_SIZE: nat := 4096
  const LOW_RESERVED: nat := 0x100000
  const LOW_PAGES: nat := 256
  const TWO_64: nat := 0x1_0000_0000_0000_0000
  const INVALID_INDEX: nat := TWO_64 - 1

  /** One line of the boot loader's memory map; the table may hold null lines. */
  datatype MemEntry = NoEntry | Entry(base: nat, length: nat, usable: bool)

  // ---------------------------------------------------------------- runs of free pages

  ghost predicate FreeRun(bm: seq<byte>, p: nat, count: nat) {
    p + count <= 8 * |bm| && forall i: nat :: p <= i < p + count ==> !Bit(bm, i)
  }

  /** Some `count` consecutive free pages lie wholly inside `[lo, hi)`. */
  ghost predicate RunWithin(bm: seq<byte>, lo: nat, hi: nat, count: nat) {
    exists p: nat :: lo <= p && p + count <= hi && FreeRun(bm, p, count)
  }

  /** `count` consecutive pages starting at `p` are free when page numbers wrap at `total`. */
  ghost predicate CyclicRun(bm: seq<byte>, total: nat, p: nat, count: nat)
    requires total <= 8 * |bm|
  {
    (forall i: nat :: p <= i < p + count && i < total ==> !Bit(bm, i)) &&
    (forall i: nat :: i + total < p + count && i < total ==> !Bit(bm, i))
  }

  predicate InRun(i: nat, p: nat, count: nat) { p <= i < p + count }

  ghost function Pages(p: nat, count: nat): set<nat> {
    set i: nat | i < p + count && InRun(i, p, count)
  }

  /** How many of the pages `[p, p + count)` exist. */
  function Clip(total: nat, p: nat, count: nat): nat {
    if p + count <= total then count else if p < total then total - p else 0
  }

  /** `after` is `before` with pages `[p, p + count)` marked used, or marked free. */
  ghost predicate Marked(before: seq<byte>, after: seq<byte>, p: nat, count: nat) {
    |after| == |before| &&
    forall j: nat :: j < 8 * |before| ==> (Bit(after, j) <==> p <= j < p + count || Bit(before, j))
  }

  ghost predicate Unmarked(before: seq<byte>, after: seq<byte>, p: nat, count: nat) {
    |after| == |before| &&
    forall j: nat :: j < 8 * |before| ==> (Bit(after, j) <==> !(p <= j < p + count) && Bit(before, j))
  }

  // ---------------------------------------------------------------- the memory map

  function FirstPage(e: MemEntry): nat
    requires e.Entry?
  {
    var s := (e.base + PAGE_SIZE - 1) / PAGE_SIZE;
    if s < LOW_PAGES then LOW_PAGES else s
  }

  function EndPage(e: MemEntry): nat
    requires e.Entry?
  {
    (e.base + e.length) / PAGE_SIZE
  }

  /** A whole page of usable memory above the first megabyte. */
  predicate PageOf(e: MemEntry, p: nat) {
    e.Entry? && e.usable && FirstPage(e) <= p < EndPage(e)
  }

  ghost predicate Usable(map_: seq<MemEntry>, n: nat, p: nat)
    requires n <= |map_|
  {
    exists i: nat :: i < n && PageOf(map_[i], p)
  }

  /** What the boot protocol promises of the map: no page is in two usable entries, and no entry
      reaches the end of the 64-bit space. */
  ghost predicate SaneMap(map_: seq<MemEntry>) {
    (forall i: nat, j: nat, p: nat :: i < j < |map_| && PageOf(map_[i], p) ==> !PageOf(map_[j], p)) &&
    (forall i: nat :: i < |map_| && map_[i].Entry? ==> map_[i].base + map_[i].length + PAGE_SIZE < TWO_64)
  }

  /** Page `p` overlaps the `size` bytes of the bitmap at `at`. */
  predicate InBitmap(at: nat, size: nat, p: nat) {
    at / PAGE_SIZE <= p < (at + size + PAGE_SIZE - 1) / PAGE_SIZE
  }

  /** Where in entry `e` a bitmap of `size` bytes may start, if it fits above the first megabyte. */
  predicate Holds(e: MemEntry, size: nat, at: nat) {
    e.Entry? && e.usable && at == (if e.base < LOW_RESERVED then LOW_RESERVED else e.base) &&
    at + size <= e.base + e.length
  }

  method ReserveBitmapStorage(map_: seq<MemEntry>, size: nat) returns (at: nat)
    requires size > 0
    ensures at != 0 ==> at >= LOW_RESERVED && exists i: nat :: i < |map_| && Holds(map_[i], size, at)
    ensures at == 0 ==> forall i: nat, a: nat :: i < |map_| ==> !Holds(map_[i], size, a)
  {
    var i := 0;
    while i < |map_|
      invariant i <= |map_|
      invariant forall j: nat, a: nat :: j < i ==> !Holds(map_[j], size, a)
    {
      var e := map_[i];
      if e.Entry? && e.usable && e.length >= size {
        var candidate := e.base;
        if candidate >= LOW_RESERVED {
          assert Holds(map_[i], size, candidate);
          return candidate;
        }
        var skip := LOW_RESERVED - candidate;
        if skip < e.length && e.length - skip >= size {
          assert Holds(map_[i], size, candidate + skip);
          return candidate + skip;
        }
      }
      i := i + 1;
    }
    at := 0;
  }

  /** The highest end of the first `n` entries that are usable. */
  function Top(map_: seq<MemEntry>, n: nat): (top: nat)
    requires n <= |map_|
    ensures forall i: nat :: i < n && map_[i].Entry? && map_[i].usable ==> map_[i].base + map_[i].length <= top
    ensures top == 0 || exists i: nat :: i < n && EndsAt(map_[i], top)
  {
    if n == 0 then 0
    else
      var before := Top(map_, n - 1);
      assert before == 0 || exists i: nat :: i < n && EndsAt(map_[i], before);
      assert map_[n - 1].Entry? && map_[n - 1].usable ==> EndsAt(map_[n - 1], map_[n - 1].base + map_[n - 1].length);
      if map_[n - 1].Entry? && map_[n - 1].usable && map_[n - 1].base + map_[n - 1].length > before then
        map_[n - 1].base + map_[n - 1].length
      else before
  }

  predicate EndsAt(e: MemEntry, top: nat) { e.Entry? && e.usable && e.base + e.length == top }

  /** The pages up to that end, and the bytes of their bitmap. */
  function PagesUpTo(map_: seq<MemEntry>): nat { (Top(map_, |map_|) + PAGE_SIZE - 1) / PAGE_SIZE }

  function BitmapSize(map_: seq<MemEntry>): nat { (PagesUpTo(map_) + 7) / 8 }

  /** Some usable entry holds the bitmap above the first megabyte. */
  ghost predicate BitmapFits(map_: seq<MemEntry>) {
    exists i: nat, at: nat :: i < |map_| && Holds(map_[i], BitmapSize(map_), at)
  }

  method HighestUsable(map_: seq<MemEntry>) returns (top: nat)
    requires SaneMap(map_)
    ensures top == Top(map_, |map_|)
    ensures top == 0 || top + PAGE_SIZE < TWO_64
    ensures forall i: nat :: i < |map_| && map_[i].Entry? && map_[i].usable ==> EndPage(map_[i]) <= top / PAGE_SIZE
  {
    top := 0;
    for i := 0 to |map_|
      invariant top == Top(map_, i)
      invariant top == 0 || top + PAGE_SIZE < TWO_64
      invariant forall j: nat :: j < i && map_[j].Entry? && map_[j].usable ==> map_[j].base + map_[j].length <= top
    {
      var e := map_[i];
      if e.Entry? && e.usable && e.base + e.length > top { top := e.base + e.length; }
    }
  }

  class PhysAllocator {
    var bitmap: array<byte>
    var totalPages: nat
    var freePages: nat
    var usedPages: nat
    var hhdm: nat
    var initialized: bool
    var lastAllocPage: nat
    var bitmapPhys: nat   // the address `g_bitmap` points to, without the direct-map offset
    ghost var reserved: set<nat>
    ghost var owned: set<nat>

    ghost predicate Covered()
      reads this
    {
      totalPages <= 8 * bitmap.Length && totalPages * PAGE_SIZE < TWO_64
    }

    /** The bitmap covers the pages and both counters agree with it. */
    ghost predicate Counters()
      reads this, bitmap
    {
      Covered() &&
      freePages == ClearCount(bitmap[..], totalPages) &&
      usedPages == totalPages - freePages
    }

    /** Once `init` has run, the bookkeeping is exact and the reserved pages are still used. */
    ghost predicate Valid()
      reads this, bitmap
    {
      initialized ==> Guarded()
    }

    ghost predicate Guarded()
      reads this, bitmap
    {
      Counters() &&
      0 in reserved &&
      (forall p :: p in reserved && p < totalPages ==> Bit(bitmap[..], p)) &&
      (forall p :: p in owned ==> p < totalPages && Bit(bitmap[..], p) && p !in reserved)
    }

    constructor ()
      ensures !initialized && Valid() && fresh(bitmap) && owned == {}
    {
      bitmap := new byte[0];
      totalPages, freePages, usedPages, hhdm, lastAllocPage, bitmapPhys := 0, 0, 0, 0, 0, 0;
      initialized := false;
      reserved, owned := {}, {};
    }

    method BitSet(page: nat)
      requires Covered() && page < totalPages
      modifies bitmap
      ensures Marked(old(bitmap[..]), bitmap[..], page, 1)
      ensures ClearCount(bitmap[..], totalPages) ==
              old(ClearCount(bitmap[..], totalPages)) - (if Bit(old(bitmap[..]), page) then 0 else 1)
    {
      ghost var bm := bitmap[..];
      ByteOps(bitmap[page / 8], page % 8);
      bitmap[page / 8] := OrBit(bitmap[page / 8], page % 8);
      assert bitmap[..] == WithBit(bm, page);
      forall j: nat | j < 8 * |bm| { WithBitBits(bm, page, j); }
      ClearCountSet(bm, page, totalPages);
    }

    method BitClear(page: nat)
      requires Covered() && page < totalPages
      modifies bitmap
      ensures Unmarked(old(bitmap[..]), bitmap[..], page, 1)
      ensures ClearCount(bitmap[..], totalPages) ==
              old(ClearCount(bitmap[..], totalPages)) + (if Bit(old(bitmap[..]), page) then 1 else 0)
    {
      ghost var bm := bitmap[..];
      ByteOps(bitmap[page / 8], page % 8);
      bitmap[page / 8] := ClearBit(bitmap[page / 8], page % 8);
      assert bitmap[..] == WithoutBit(bm, page);
      forall j: nat | j < 8 * |bm| { WithoutBitBits(bm, page, j); }
      ClearCountCleared(bm, page, totalPages);
    }

    lemma LowUnusable(map_: seq<MemEntry>)
      ensures !Usable(map_, |map_|, 0)
    {}

    method BitTest(page: nat) returns (b: bool)
      requires page < 8 * bitmap.Length
      ensures b == Bit(bitmap[..], page)
    {
      b := TestBit(bitmap[page / 8], page % 8);
    }

    /** Boot: every page is used, then the whole pages of usable memory above 1 MiB are freed, then the
        pages holding the bitmap are taken back. */
    method Init(map_: seq<MemEntry>, hhdmOffset: nat)
      requires Valid() && SaneMap(map_)
      modifies this
      ensures Valid()
      ensures old(initialized) ==> unchanged(this)
      ensures !old(initialized) ==> (initialized <==> Top(map_, |map_|) > 0 && BitmapFits(map_))
      ensures !old(initialized) && initialized ==>
                fresh(bitmap) && owned == {} && hhdm == hhdmOffset && lastAllocPage == 0 &&
                totalPages == PagesUpTo(map_) && bitmap.Length == BitmapSize(map_) &&
                (exists i: nat :: i < |map_| && Holds(map_[i], bitmap.Length, bitmapPhys)) &&
                forall p: nat :: p < totalPages ==>
                  (p in reserved <==>
                     !Usable(map_, |map_|, p) || InBitmap(bitmapPhys, bitmap.Length, p)) &&
                  (p in reserved <==> Bit(bitmap[..], p))
    {
      hide TestBit, Usable, InBitmap, Holds, ClearCount;
      if initialized { return; }
      if |map_| == 0 { return; }
      hhdm := hhdmOffset;
      var top := HighestUsable(map_);
      if top == 0 { return; }
      totalPages := (top + PAGE_SIZE - 1) / PAGE_SIZE;
      var size := (totalPages + 7) / 8;
      var at := ReserveBitmapStorage(map_, size);
      if at == 0 { return; }
      assert BitmapFits(map_) by {
        ghost var i: nat :| i < |map_| && Holds(map_[i], size, at);
        assert Holds(map_[i], BitmapSize(map_), at);
      }
      bitmapPhys := at;
      MarkMap(map_, size);
      LowUnusable(map_);
      Open();
    }

    /** `init` is done: the pages still marked used are the reserved ones. */
    method Open()
      requires Counters() && totalPages > 0 && Bit(bitmap[..], 0)
      modifies this`lastAllocPage, this`initialized, this`owned, this`reserved
      ensures initialized && Guarded() && owned == {} && lastAllocPage == 0
      ensures forall p: nat :: p < totalPages ==> (p in reserved <==> Bit(bitmap[..], p))
    {
      lastAllocPage := 0;
      initialized := true;
      owned := {};
      reserved := set p: nat | p < totalPages && Bit(bitmap[..], p);
    }

    method MarkMap(map_: seq<MemEntry>, size: nat)
      requires SaneMap(map_) && totalPages <= 8 * size && totalPages * PAGE_SIZE < TWO_64
      requires forall i: nat :: i < |map_| && map_[i].Entry? && map_[i].usable ==> EndPage(map_[i]) <= totalPages
      modifies this`freePages, this`usedPages, this`bitmap
      ensures fresh(bitmap) && bitmap.Length == size && Counters()
      ensures forall p: nat :: p < totalPages ==>
                (Bit(bitmap[..], p) <==> !Usable(map_, |map_|, p) || InBitmap(bitmapPhys, size, p))
    {
      bitmap := new byte[size](_ => 255);
      freePages := 0;
      usedPages := totalPages;
      AllUsed(bitmap[..], totalPages);
      FreeUsable(map_);
      ReserveBitmapPages();
    }

    method FreeUsable(map_: seq<MemEntry>)
      requires Counters() && SaneMap(map_)
      requires forall p: nat :: p < totalPages ==> Bit(bitmap[..], p)
      requires forall i: nat :: i < |map_| && map_[i].Entry? && map_[i].usable ==> EndPage(map_[i]) <= totalPages
      modifies this`freePages, this`usedPages, bitmap
      ensures Counters()
      ensures forall p: nat :: p < totalPages ==> (Bit(bitmap[..], p) <==> !Usable(map_, |map_|, p))
    {
      var i := 0;
      while i < |map_|
        invariant i <= |map_| && Counters()
        invariant forall p: nat :: p < totalPages ==> (Bit(bitmap[..], p) <==> !Usable(map_, i, p))
      {
        ghost var before := bitmap[..];
        if map_[i].Entry? && map_[i].usable && FirstPage(map_[i]) < EndPage(map_[i]) {
          forall p: nat | PageOf(map_[i], p) ensures !Usable(map_, i, p) {}
          FreeEntry(FirstPage(map_[i]), EndPage(map_[i]));
        }
        forall p: nat | p < totalPages ensures Usable(map_, i + 1, p) <==> Usable(map_, i, p) || PageOf(map_[i], p) {}
        i := i + 1;
      }
    }

    method FreeEntry(lo: nat, hi: nat)
      requires Counters() && lo < hi <= totalPages
      requires forall p: nat :: lo <= p < hi ==> Bit(bitmap[..], p)
      modifies this`freePages, this`usedPages, bitmap
      ensures Counters() && Unmarked(old(bitmap[..]), bitmap[..], lo, hi - lo)
    {
      ghost var bm := bitmap[..];
      var p := lo;
      while p < hi
        invariant lo <= p <= hi && Counters()
        invariant Unmarked(bm, bitmap[..], lo, p - lo)
      {
        BitClear(p);
        freePages := freePages + 1;
        usedPages := usedPages - 1;
        p := p + 1;
      }
    }

    method ReserveBitmapPages()
      requires Counters()
      modifies this`freePages, this`usedPages, bitmap
      ensures Counters()
      ensures forall p: nat :: p < totalPages ==>
                (Bit(bitmap[..], p) <==> old(Bit(bitmap[..], p)) || InBitmap(bitmapPhys, bitmap.Length, p))
    {
      var start := bitmapPhys / PAGE_SIZE;
      var end := (bitmapPhys + bitmap.Length + PAGE_SIZE - 1) / PAGE_SIZE;
      var p := start;
      while p < end && p < totalPages
        invariant start <= p && (p <= end || p == start) && Counters()
        invariant forall q: nat :: q < totalPages ==>
                    (Bit(bitmap[..], q) <==> old(Bit(bitmap[..], q)) || start <= q < p)
      {
        var used := BitTest(p);
        if !used {
          BitSet(p);
          freePages := freePages - 1;
          usedPages := usedPages + 1;
        }
        p := p + 1;
      }
    }

    /** The scan: upward from the hint, then upward from page 0 to the hint. The run length is carried
        from the first loop into the second, so what it finds is a run of the page numbers taken
        cyclically; it is a real run whenever page 0 is used. */
    method FindFreeRun(count: nat, hint: nat) returns (r: nat)
      requires Counters()
      ensures r != INVALID_INDEX ==> 0 < count <= totalPages && r < totalPages
      ensures r != INVALID_INDEX ==> CyclicRun(bitmap[..], totalPages, r, count)
      ensures r != INVALID_INDEX && totalPages > 0 && Bit(bitmap[..], 0) ==>
                r + count <= totalPages && FreeRun(bitmap[..], r, count)
      ensures 0 < count <= totalPages && Bit(bitmap[..], 0) ==>
                var start := if hint >= totalPages then 0 else hint;
                r == INVALID_INDEX <==>
                !RunWithin(bitmap[..], start, totalPages, count) && !RunWithin(bitmap[..], 0, start, count)
    {
      if count == 0 || count > totalPages { return INVALID_INDEX; }
      var start := hint;
      if start >= totalPages { start := 0; }
      var run, runStart := ScanFromHint(count, start);
      if run >= count { return runStart; }
      r := ScanFromZero(count, start, run, runStart);
    }

    /** The first loop; it ends early when the run is long enough. */
    method ScanFromHint(count: nat, start: nat) returns (run: nat, runStart: nat)
      requires Counters() && 0 < count <= totalPages && start < totalPages
      ensures run <= count && (run > 0 ==> start <= runStart)
      ensures run == count ==> runStart + count <= totalPages && FreeRun(bitmap[..], runStart, count) &&
                               RunWithin(bitmap[..], start, totalPages, count)
      ensures run < count ==> Scanned(bitmap[..], start, totalPages, run, count)
      ensures 0 < run < count ==> runStart == totalPages - run
    {
      ghost var bm := bitmap[..];
      run, runStart := 0, 0;
      var p := start;
      EmptyScan(bm, start, count);
      while p < totalPages
        invariant start <= p <= totalPages
        invariant Scanned(bm, start, p, run, count)
        invariant run > 0 ==> runStart == p - run
      {
        var used := BitTest(p);
        ScanStep(bm, start, p, run, count);
        if !used {
          if run == 0 { runStart := p; }
          run := run + 1;
          if run >= count { return; }
        } else {
          run := 0;
        }
        p := p + 1;
      }
    }

    /** The second loop, entered with the run the first one ended on. */
    method ScanFromZero(count: nat, start: nat, carried: nat, carriedStart: nat) returns (r: nat)
      requires Counters() && 0 < count <= totalPages && start < totalPages
      requires Scanned(bitmap[..], start, totalPages, carried, count)
      requires carried > 0 ==> carriedStart == totalPages - carried
      ensures r != INVALID_INDEX ==> r < totalPages && CyclicRun(bitmap[..], totalPages, r, count)
      ensures r != INVALID_INDEX && Bit(bitmap[..], 0) ==>
                r + count <= totalPages && FreeRun(bitmap[..], r, count) && RunWithin(bitmap[..], 0, start, count)
      ensures r == INVALID_INDEX && Bit(bitmap[..], 0) ==> !RunWithin(bitmap[..], 0, start, count)
    {
      ghost var bm := bitmap[..];
      var run: nat, runStart: nat := carried, carriedStart;
      var p := 0;
      EmptyScan(bm, 0, count);
      while p < start
        invariant p <= start
        invariant run > 0 ==> runStart == if run <= p then p - run else totalPages + p - run
        invariant Wrapping(bm, totalPages, p, run, carried, count)
      {
        var used := BitTest(p);
        WrapStep(bm, totalPages, p, run, carried, count);
        if !used {
          if run == 0 { runStart := p; }
          run := run + 1;
          if run >= count { return runStart; }
        } else {
          run := 0;
        }
        p := p + 1;
      }
      return INVALID_INDEX;
    }

    /** Nothing asked for, too few pages, or no run that lies wholly on one side of the hint. */
    ghost predicate Refuses(count: nat)
      reads this, bitmap
    {
      var start := if lastAllocPage >= totalPages then 0 else lastAllocPage;
      !initialized || count == 0 || count > freePages ||
      (!RunWithin(bitmap[..], start, totalPages, count) && !RunWithin(bitmap[..], 0, start, count))
    }

    method AllocPages(count: nat) returns (phys: nat)
      requires Valid()
      modifies this`freePages, this`usedPages, this`lastAllocPage, this`owned, bitmap
      ensures Valid()
      ensures phys == 0 ==> bitmap[..] == old(bitmap[..]) && freePages == old(freePages) && owned == old(owned)
      ensures phys == 0 <==> old(Refuses(count))
      ensures phys != 0 ==>
                var p := phys / PAGE_SIZE;
                initialized && phys == p * PAGE_SIZE && 0 < p && p + count <= totalPages && 0 < count &&
                FreeRun(old(bitmap[..]), p, count) && Marked(old(bitmap[..]), bitmap[..], p, count) &&
                owned == old(owned) + Pages(p, count) && old(owned) !! Pages(p, count) &&
                reserved !! Pages(p, count) && freePages == old(freePages) - count
    {
      hide Bit, ClearCount, RunWithin, CyclicRun;
      if !initialized || count == 0 { return 0; }
      if count > freePages { return 0; }
      var p := FindFreeRun(count, lastAllocPage);
      if p == INVALID_INDEX { return 0; }
      MarkLoop(p, count);
      freePages := freePages - count;
      usedPages := usedPages + count;
      lastAllocPage := p + count;
      owned := owned + Pages(p, count);
      phys := p * PAGE_SIZE;
    }

    method MarkLoop(p: nat, count: nat)
      requires Covered() && p + count <= totalPages && FreeRun(bitmap[..], p, count)
      modifies bitmap
      ensures Marked(old(bitmap[..]), bitmap[..], p, count)
      ensures ClearCount(bitmap[..], totalPages) == old(ClearCount(bitmap[..], totalPages)) - count
    {
      ghost var bm := bitmap[..];
      var i := 0;
      while i < count
        invariant i <= count
        invariant Marked(bm, bitmap[..], p, i)
        invariant ClearCount(bitmap[..], totalPages) == ClearCount(bm, totalPages) - i
      {
        BitSet(p + i);
        i := i + 1;
      }
    }

    method AllocPage() returns (phys: nat)
      requires Valid()
      modifies this`freePages, this`usedPages, this`lastAllocPage, this`owned, bitmap
      ensures Valid()
      ensures phys == 0 ==> bitmap[..] == old(bitmap[..]) && owned == old(owned)
      ensures phys == 0 && initialized ==> forall p: nat :: p < totalPages ==> Bit(bitmap[..], p)
      ensures phys != 0 ==> owned == old(owned) + {phys / PAGE_SIZE} && phys % PAGE_SIZE == 0
    {
      phys := AllocPages(1);
      if phys == 0 && initialized {
        ClearCountZero(bitmap[..], totalPages);
        forall p: nat | p < totalPages && freePages > 0 ensures Bit(bitmap[..], p) {
          assert FreeRun(bitmap[..], p, 1) <==> !Bit(bitmap[..], p);
        }
      }
    }

    /** Returning pages: out-of-range and already free pages are skipped. The invariant survives when no
        reserved page is among them, which holds of every run that came from `AllocPages`. */
    method FreePages(phys: nat, count: nat)
      requires initialized ==> Counters()
      modifies this`freePages, this`usedPages, this`owned, bitmap
      ensures initialized ==> Counters()
      ensures old(Valid()) && (phys % PAGE_SIZE == 0 ==> Pages(phys / PAGE_SIZE, count) !! reserved) ==> Valid()
      ensures if initialized && phys % PAGE_SIZE == 0 then
                Unmarked(old(bitmap[..]), bitmap[..], phys / PAGE_SIZE, Clip(totalPages, phys / PAGE_SIZE, count)) &&
                owned == old(owned) - Pages(phys / PAGE_SIZE, count)
              else
                bitmap[..] == old(bitmap[..]) && owned == old(owned) && freePages == old(freePages)
      ensures initialized && phys % PAGE_SIZE == 0 && phys / PAGE_SIZE + count <= totalPages &&
              (forall j: nat :: phys / PAGE_SIZE <= j < phys / PAGE_SIZE + count ==> Bit(old(bitmap[..]), j)) ==>
                freePages == old(freePages) + count
    {
      if !initialized || count == 0 { return; }
      if phys % PAGE_SIZE != 0 { return; }
      var start := phys / PAGE_SIZE;
      FreeLoop(start, count);
      owned := owned - Pages(start, count);
    }

    method FreeOne(p: nat)
      requires Counters() && p < totalPages
      modifies this`freePages, this`usedPages, bitmap
      ensures Counters()
      ensures Unmarked(old(bitmap[..]), bitmap[..], p, 1)
      ensures freePages == old(freePages) + if Bit(old(bitmap[..]), p) then 1 else 0
    {
      var used := BitTest(p);
      if used {
        BitClear(p);
        freePages := freePages + 1;
        usedPages := usedPages - 1;
      }
    }

    /** The loop of `free_pages`. Pages that are already free are left alone, so freeing twice does not
        count twice. */
    method FreeLoop(start: nat, count: nat)
      requires Counters()
      modifies this`freePages, this`usedPages, bitmap
      ensures Counters()
      ensures Unmarked(old(bitmap[..]), bitmap[..], start, Clip(totalPages, start, count))
      ensures start + count <= totalPages &&
              (forall j: nat :: start <= j < start + count ==> Bit(old(bitmap[..]), j)) ==>
                freePages == old(freePages) + count
    {
      ghost var bm := bitmap[..];
      ghost var mine := start + count <= totalPages && forall j: nat :: start <= j < start + count ==> Bit(bm, j);
      var i := 0;
      while i < count && start + i < totalPages
        invariant i <= Clip(totalPages, start, count) && Counters()
        invariant Unmarked(bm, bitmap[..], start, i)
        invariant mine ==> freePages == old(freePages) + i
      {
        ghost var before := bitmap[..];
        FreeOne(start + i);
        UnmarkedStep(bm, before, bitmap[..], start, i);
        i := i + 1;
      }
    }
  }

  lemma UnmarkedStep(a: seq<byte>, b: seq<byte>, c: seq<byte>, p: nat, n: nat)
    requires Unmarked(a, b, p, n) && Unmarked(b, c, p + n, 1)
    ensures Unmarked(a, c, p, n + 1)
    ensures p + n < 8 * |a| ==> Bit(b, p + n) == Bit(a, p + n)
  {}

  lemma AllUsed(bm: seq<byte>, n: nat)
    requires n <= 8 * |bm| && forall i :: 0 <= i < |bm| ==> bm[i] == 255
    ensures ClearCount(bm, n) == 0 && forall p: nat :: p < n ==> Bit(bm, p)
  {
    forall p: nat | p < n ensures Bit(bm, p) {
      assert Pow2(4) == 16 && Pow2(8) == 256;
      AllOnes(8, p % 8);
    }
    ClearCountZero(bm, n);
  }

  /** `[lo, p)` has been scanned: it ends in `run` free pages, is used just before them, and holds no
      run of `count`. */
  ghost predicate Scanned(bm: seq<byte>, lo: nat, p: nat, run: nat, count: nat) {
    lo <= p <= 8 * |bm| && run <= p - lo && run < count &&
    FreeRun(bm, p - run, run) &&
    (p - run == lo || Bit(bm, p - run - 1)) &&
    !RunWithin(bm, lo, p, count)
  }

  /** Every page below `p` is free, and the `carried` free pages at the top are counted with them. */
  ghost predicate Carrying(bm: seq<byte>, total: nat, p: nat, run: nat, carried: nat, count: nat) {
    0 < carried <= total <= 8 * |bm| && p <= total && run == p + carried < count &&
    FreeRun(bm, 0, p) && FreeRun(bm, total - carried, carried)
  }

  lemma EmptyScan(bm: seq<byte>, lo: nat, count: nat)
    requires lo <= 8 * |bm| && 0 < count
    ensures Scanned(bm, lo, lo, 0, count)
  {}

  lemma ScanStep(bm: seq<byte>, lo: nat, p: nat, run: nat, count: nat)
    requires Scanned(bm, lo, p, run, count) && p < 8 * |bm|
    ensures Bit(bm, p) ==> Scanned(bm, lo, p + 1, 0, count)
    ensures !Bit(bm, p) && run + 1 < count ==> Scanned(bm, lo, p + 1, run + 1, count)
    ensures !Bit(bm, p) && run + 1 == count ==>
              FreeRun(bm, p - run, count) && forall hi: nat :: hi > p ==> RunWithin(bm, lo, hi, count)
  {
    forall q: nat | lo <= q && q + count <= p + 1 && (Bit(bm, p) || run + 1 < count)
      ensures !FreeRun(bm, q, count)
    {
      if q + count == p + 1 {
        var blocker: nat := if Bit(bm, p) then p else p - run - 1;
        assert Bit(bm, blocker) && q <= blocker < q + count;
      }
    }
    if !Bit(bm, p) && run + 1 == count {
      assert FreeRun(bm, p - run, count);
    }
  }

  /** The state of the second loop: an ordinary scan, or still carrying, which needs page 0 free. */
  ghost predicate Wrapping(bm: seq<byte>, total: nat, p: nat, run: nat, carried: nat, count: nat) {
    Scanned(bm, 0, p, run, count) ||
    (Carrying(bm, total, p, run, carried, count) && (p == 0 || !Bit(bm, 0)))
  }

  lemma WrapStep(bm: seq<byte>, total: nat, p: nat, run: nat, carried: nat, count: nat)
    requires Wrapping(bm, total, p, run, carried, count) && p < total <= 8 * |bm|
    ensures Bit(bm, p) ==> Wrapping(bm, total, p + 1, 0, carried, count)
    ensures !Bit(bm, p) && run + 1 < count ==> Wrapping(bm, total, p + 1, run + 1, carried, count)
    ensures !Bit(bm, p) && run + 1 == count ==>
              CyclicRun(bm, total, if run <= p then p - run else total + p - run, count)
    ensures !Bit(bm, p) && run + 1 == count && Bit(bm, 0) ==>
              run <= p && FreeRun(bm, p - run, count) && forall hi: nat :: hi > p ==> RunWithin(bm, 0, hi, count)
  {
    if Scanned(bm, 0, p, run, count) { ScanStep(bm, 0, p, run, count); }
  }
}
