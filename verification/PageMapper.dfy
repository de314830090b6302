/** `next_table`, `map_one_page` and `map_mmio`: the mapper extends the page tables in place, with frames from the
    DMA allocator, so that a range of physical addresses can be reached through the higher-half window. */
module PageMapper {
  import opened PageTables

  class Mapper {
    /** The tables, by the physical address of their frame. */
    var tables: Tables
    const root: nat
    const hhdm: nat
    /** The frames the allocator has left, in the order it will hand them out. */
    var pool: seq<nat>
    ghost var place: map<nat, Path>

    ghost predicate Valid()
      reads this
    {
      TreeOk(tables, root, place) && hhdm % PAGE_SIZE == 0 && PoolOk(pool, tables)
    }

    constructor (initial: Tables, top: nat, window: nat, frames: seq<nat>, ghost places: map<nat, Path>)
      requires TreeOk(initial, top, places) && window % PAGE_SIZE == 0 && PoolOk(frames, initial)
      ensures Valid() && tables == initial && root == top && hhdm == window && pool == frames && place == places
    {
      tables, root, hhdm, pool, place := initial, top, window, frames, places;
    }

    /** What the processor finds. */
    function At(v: nat): Translation
      reads this
    {
      Translate(tables, root, v)
    }

    /** The table under entry `i` of table `f`, allocated, cleared and linked if there is none. There is no table
        if the entry maps a page, or if no frame is left. */
    method NextTable(f: nat, i: nat) returns (ok: bool, g: nat)
      requires Valid() && f in tables && |place[f]| < 3 && i < ENTRIES
      modifies this
      ensures Valid() && (old(TopClean(tables, root)) ==> TopClean(tables, root))
      ensures forall v: nat :: At(v) == old(At(v))
      ensures forall h :: h in old(tables) ==> h in tables && place[h] == old(place)[h]
      ensures forall h, j :: h in old(tables) && !(h == f && j == i) ==> Entry(tables, h, j) == old(Entry(tables, h, j))
      ensures ok == (if Present(old(Entry(tables, f, i))) then !Big(old(Entry(tables, f, i))) else old(pool) != [])
      ensures ok ==>
        Link(Entry(tables, f, i)) && g == Addr(Entry(tables, f, i)) && g in tables && place[g] == place[f] + [i]
      ensures if Present(old(Entry(tables, f, i))) || !ok then tables == old(tables) && pool == old(pool)
              else pool == old(pool)[1..] && g !in old(tables) && tables[g] == BlankTable()
    {
      hide Addr, Present, Big, Translate, TopClean;
      ok, g := true, 0;
      TableSize(tables, root, place, f);
      var e := tables[f][i];
      if Present(e) {
        if Big(e) { return false, 0; }
        Down(tables, root, place, f, i);
        return true, Addr(e);
      }
      if pool == [] { return false, 0; }
      g := pool[0];
      pool := pool[1..];
      FrameEntry(g, 3);
      LinkedTree(tables, root, place, f, i, g);
      forall v: nat ensures Translate(Linked(tables, f, i, g), root, v) == At(v) {
        LinkedWalk(tables, root, place, f, i, g, v);
      }
      place := place[g := place[f] + [i]];
      tables := Linked(tables, f, i, g);
    }

    /** One 4 KiB page. The tables above it are found or made; the mapping fails exactly when a larger page is in
        the way or the frames run out, and then nothing has changed for the processor. */
    method MapOnePage(virt: nat, phys: nat) returns (ok: bool)
      requires Valid()
      modifies this
      ensures Valid() && (old(TopClean(tables, root)) ==> TopClean(tables, root))
      ensures ok == (!old(Blocked(tables, root, virt)) && |old(pool)| >= old(Needs(tables, root, virt)))
      ensures forall w: nat ::
        At(w) == if ok && PathOf(w) == PathOf(virt) then To(Addr(phys) + w % PAGE_SIZE) else old(At(w))
      ensures ok ==> pool == old(pool)[old(Needs(tables, root, virt))..]
      ensures !ok ==> old(Blocked(tables, root, virt)) || (pool == [] && Needs(tables, root, virt) > 0)
    {
      hide Addr, Present, Big, Translate, TopClean, I1, I2, I3, I4, TreeOk, PoolOk, Reaches, PathOf;
      RootPlace(tables, root, place);
      EmptyTables();
      var found, pdpt := NextTable(root, I4(virt));
      if !found { return false; }
      var pd;
      found, pd := NextTable(pdpt, I3(virt));
      if !found { return false; }
      var pt;
      found, pt := NextTable(pd, I2(virt));
      if !found { return false; }
      TableSize(tables, root, place, root);
      TableSize(tables, root, place, pdpt);
      TableSize(tables, root, place, pd);
      DepthsDiffer(root, pdpt, pd);
      Arrived(virt, pdpt, pd, pt);
      StoreLeaf(virt, pt, phys);
      ok := true;
    }

    /** `pt[i1] = (phys & ADDR_MASK) | 0x13` */
    method StoreLeaf(virt: nat, pt: nat, phys: nat)
      requires Valid() && Reaches(tables, root, virt, pt)
      modifies this
      ensures Valid() && (old(TopClean(tables, root)) ==> TopClean(tables, root)) && pool == old(pool)
      ensures forall w: nat :: At(w) == if PathOf(w) == PathOf(virt) then To(Addr(phys) + w % PAGE_SIZE) else old(At(w))
    {
      hide Addr, Present, Big, Translate, TopClean, I1, I2, I3, I4, TreeOk, PoolOk, Reaches, PathOf;
      ReachesPlace(tables, root, place, virt, pt);
      TableSize(tables, root, place, pt);
      FrameEntry(Addr(phys), 0x13);
      StoredTree(tables, root, place, pt, I1(virt), Addr(phys) + 0x13);
      forall w: nat
        ensures Translate(Stored(tables, pt, I1(virt), Addr(phys) + 0x13), root, w) ==
                if PathOf(w) == PathOf(virt) then To(Addr(phys) + w % PAGE_SIZE) else At(w)
      {
        StoredWalk(tables, root, place, virt, pt, Addr(phys) + 0x13, w);
      }
      PoolKept(pool, tables, Stored(tables, pt, I1(virt), Addr(phys) + 0x13));
      tables := Stored(tables, pt, I1(virt), Addr(phys) + 0x13);
    }

    lemma Arrived(v: nat, pdpt: nat, pd: nat, pt: nat)
      requires Link(Entry(tables, root, I4(v))) && Addr(Entry(tables, root, I4(v))) == pdpt
      requires Link(Entry(tables, pdpt, I3(v))) && Addr(Entry(tables, pdpt, I3(v))) == pd
      requires Link(Entry(tables, pd, I2(v))) && Addr(Entry(tables, pd, I2(v))) == pt
      ensures Reaches(tables, root, v, pt)
    {}

    /** Tables of different levels are different. */
    lemma DepthsDiffer(a: nat, b: nat, c: nat)
      requires a in place && b in place && c in place && |place[a]| < |place[b]| < |place[c]|
      ensures a != b && b != c && a != c
    {}

    lemma EmptyTables()
      ensures forall i :: 0 <= i < ENTRIES ==> !Present(BlankTable()[i])
    {
      NoEntry();
    }

    /** `map_mmio`. Afterwards every page of the window is mapped, a page that was not mapped before leads to its own
        physical page, and whatever was mapped before, by small or large pages, is mapped as before. It fails only
        when the frames have run out, with a page of the window left that needs one. */
    method MapMmio(phys: nat, size: nat) returns (ok: bool)
      requires Valid() && TopClean(tables, root)
      requires phys + size + PAGE_SIZE <= PHYS_LIMIT && hhdm + phys + size + PAGE_SIZE <= WORD_LIMIT
      requires size + PAGE_SIZE <= SIZE_CANONICAL
      modifies this
      ensures Valid() && TopClean(tables, root)
      ensures forall w: nat :: old(At(w)) != Unmapped ==> At(w) == old(At(w))
      ensures forall w: nat :: At(w) != old(At(w)) ==> Covered(w, phys, size, hhdm)
      ensures ok ==> forall v: nat :: InWindow(v, phys, size, hhdm) ==>
                At(v) != Unmapped && (old(At(v)) == Unmapped ==> v >= hhdm && At(v) == To(v - hhdm))
      ensures !ok ==> pool == [] && exists v: nat ::
                InWindow(v, phys, size, hhdm) && At(v) == Unmapped && Needs(tables, root, v) > 0
    {
      hide TreeOk, PoolOk, Translate, TopClean, PathOf, Needs, Blocked, IsPageMapped, Addr, MappedUpTo, PageOf;
      ghost var t0 := tables;
      var v, end, p := PageOf(phys + hhdm), PageOf(phys + hhdm + size + PAGE_SIZE - 1), PageOf(phys);
      WindowStarts(phys, size, hhdm);
      NothingMapped(t0, root, phys, size, hhdm);
      while v < end
        invariant Valid() && TopClean(tables, root) && v == p + hhdm && p % PAGE_SIZE == 0 && PageOf(phys) <= p
        invariant v <= end || v == PageOf(phys + hhdm)
        invariant MappedUpTo(t0, tables, root, v, phys, size, hhdm)
      {
        NextPage(p, end - hhdm);
        MappedIfClean(tables, root, v);
        ghost var t := tables;
        assert InWindow(v, phys, size, hhdm);
        if !IsPageMapped(tables, root, v) {
          NotBlocked(tables, root, v);
          ok := MapOnePage(v, p);
          if !ok {
            forall w: nat ensures Translate(tables, root, w) == Translate(t, root, w) {
              assert At(w) == Translate(t, root, w);
            }
            SameStill(t0, t, tables, root, v, phys, size, hhdm);
            return;
          }
          PageIsItself(p);
          OneMoreMapped(t0, t, tables, root, v, phys, size, hhdm);
        } else {
          WasMapped(t0, tables, root, v, phys, size, hhdm);
        }
        v, p := v + PAGE_SIZE, p + PAGE_SIZE;
      }
      UpToEnd(t0, tables, root, v, phys, size, hhdm);
      ok := true;
    }
  }

  /** The allocator's frames are frames, all different, and no tables yet. */
  predicate PoolOk(pool: seq<nat>, t: Tables) {
    (forall k :: 0 <= k < |pool| ==> IsFrame(pool[k]) && pool[k] !in t) &&
    forall j, k :: 0 <= j < k < |pool| ==> pool[j] != pool[k]
  }

  // ---------------------------------------------------------------- progress through a window

  /** A page of the window of `size` bytes at `phys`. */
  predicate InWindow(v: nat, phys: nat, size: nat, hhdm: nat) {
    v % PAGE_SIZE == 0 && PageOf(phys + hhdm) <= v < PageOf(phys + hhdm + size + PAGE_SIZE - 1)
  }

  /** The address shares its page indices with a page of the window. */
  ghost predicate Covered(w: nat, phys: nat, size: nat, hhdm: nat) {
    exists v: nat :: InWindow(v, phys, size, hhdm) && PathOf(w) == PathOf(v)
  }

  /** The pages of the window below `v` are mapped, those from `v` on are as they were, and so is everything that
      was mapped or is not covered by the window. */
  ghost predicate MappedUpTo(t0: Tables, t: Tables, root: nat, v: nat, phys: nat, size: nat, hhdm: nat) {
    (forall w: nat :: Translate(t0, root, w) != Unmapped ==> Translate(t, root, w) == Translate(t0, root, w)) &&
    (forall w: nat :: Translate(t, root, w) != Translate(t0, root, w) ==> Covered(w, phys, size, hhdm)) &&
    (forall u: nat :: InWindow(u, phys, size, hhdm) ==> PageDone(t0, t, root, u, u < v, hhdm))
  }

  ghost predicate PageDone(t0: Tables, t: Tables, root: nat, u: nat, done: bool, hhdm: nat) {
    if !done then Translate(t, root, u) == Translate(t0, root, u)
    else Translate(t, root, u) != Unmapped &&
         (Translate(t0, root, u) == Unmapped ==> u >= hhdm && Translate(t, root, u) == To(u - hhdm))
  }

  lemma NothingMapped(t0: Tables, root: nat, phys: nat, size: nat, hhdm: nat)
    ensures MappedUpTo(t0, t0, root, PageOf(phys + hhdm), phys, size, hhdm)
  {
    hide Translate, PageOf;
  }

  lemma UpToEnd(t0: Tables, t: Tables, root: nat, v: nat, phys: nat, size: nat, hhdm: nat)
    requires MappedUpTo(t0, t, root, v, phys, size, hhdm) && v >= PageOf(phys + hhdm + size + PAGE_SIZE - 1)
    ensures forall w: nat :: Translate(t0, root, w) != Unmapped ==> Translate(t, root, w) == Translate(t0, root, w)
    ensures forall w: nat :: Translate(t, root, w) != Translate(t0, root, w) ==> Covered(w, phys, size, hhdm)
    ensures forall u: nat :: InWindow(u, phys, size, hhdm) ==>
              Translate(t, root, u) != Unmapped &&
              (Translate(t0, root, u) == Unmapped ==> u >= hhdm && Translate(t, root, u) == To(u - hhdm))
  {
    hide Translate, PageOf;
    forall u: nat | InWindow(u, phys, size, hhdm)
      ensures Translate(t, root, u) != Unmapped &&
              (Translate(t0, root, u) == Unmapped ==> u >= hhdm && Translate(t, root, u) == To(u - hhdm))
    {
      assert PageDone(t0, t, root, u, u < v, hhdm);
    }
  }

  /** A step that changed no translation. */
  lemma SameStill(t0: Tables, t: Tables, t': Tables, root: nat, v: nat, phys: nat, size: nat, hhdm: nat)
    requires MappedUpTo(t0, t, root, v, phys, size, hhdm) && InWindow(v, phys, size, hhdm)
    requires forall w: nat :: Translate(t', root, w) == Translate(t, root, w)
    ensures forall w: nat :: Translate(t0, root, w) != Unmapped ==> Translate(t', root, w) == Translate(t0, root, w)
    ensures forall w: nat :: Translate(t', root, w) != Translate(t0, root, w) ==> Covered(w, phys, size, hhdm)
  {
    hide Translate, PageOf, Covered;
  }

  lemma WasMapped(t0: Tables, t: Tables, root: nat, v: nat, phys: nat, size: nat, hhdm: nat)
    requires MappedUpTo(t0, t, root, v, phys, size, hhdm) && InWindow(v, phys, size, hhdm)
    requires Translate(t, root, v) != Unmapped
    ensures MappedUpTo(t0, t, root, v + PAGE_SIZE, phys, size, hhdm)
  {
    hide Translate, PageOf, Covered;
    forall u: nat | InWindow(u, phys, size, hhdm) ensures PageDone(t0, t, root, u, u < v + PAGE_SIZE, hhdm) {
      assert PageDone(t0, t, root, u, u < v, hhdm);
      PagesApart(v, u);
    }
  }

  lemma PagesApart(v: nat, u: nat)
    requires v % PAGE_SIZE == 0 && u % PAGE_SIZE == 0
    ensures u < v + PAGE_SIZE <==> u <= v
  {}

  /** Page `v` was mapped to its own physical page, and nothing but its addresses changed. */
  lemma OneMoreMapped(t0: Tables, t: Tables, t': Tables, root: nat, v: nat, phys: nat, size: nat, hhdm: nat)
    requires MappedUpTo(t0, t, root, v, phys, size, hhdm) && InWindow(v, phys, size, hhdm) && v >= hhdm
    requires Translate(t, root, v) == Unmapped && size + PAGE_SIZE <= SIZE_CANONICAL
    requires forall w: nat ::
               Translate(t', root, w) == if PathOf(w) == PathOf(v) then To(v - hhdm + w % PAGE_SIZE)
                 else Translate(t, root, w)
    ensures MappedUpTo(t0, t', root, v + PAGE_SIZE, phys, size, hhdm)
  {
    hide Translate, PageOf, Covered, PathOf;
    forall w: nat | PathOf(w) == PathOf(v) ensures Translate(t, root, w) == Unmapped && Covered(w, phys, size, hhdm) {
      SameFate(t, root, v, w);
      CoveredBy(w, v, phys, size, hhdm);
    }
    forall u: nat | InWindow(u, phys, size, hhdm) ensures PageDone(t0, t', root, u, u < v + PAGE_SIZE, hhdm) {
      assert PageDone(t0, t, root, u, u < v, hhdm);
      PagesApart(v, u);
      if u > v { PathsDiffer(v, u, phys, size, hhdm); }
    }
  }

  lemma CoveredBy(w: nat, v: nat, phys: nat, size: nat, hhdm: nat)
    requires InWindow(v, phys, size, hhdm) && PathOf(w) == PathOf(v)
    ensures Covered(w, phys, size, hhdm)
  {}

  /** The window is page-aligned, so physical and virtual pages move together. */
  lemma WindowStarts(phys: nat, size: nat, hhdm: nat)
    requires hhdm % PAGE_SIZE == 0
    ensures PageOf(phys + hhdm) == PageOf(phys) + hhdm && PageOf(phys) % PAGE_SIZE == 0
    ensures PageOf(phys + hhdm + size + PAGE_SIZE - 1) % PAGE_SIZE == 0
    ensures PageOf(phys + hhdm + size + PAGE_SIZE - 1) <= phys + hhdm + size + PAGE_SIZE - 1
  {}

  /** Different pages of a window shorter than 2^48 bytes have different indices. */
  lemma PathsDiffer(v: nat, u: nat, phys: nat, size: nat, hhdm: nat)
    requires InWindow(v, phys, size, hhdm) && InWindow(u, phys, size, hhdm) && v < u &&
      size + PAGE_SIZE <= SIZE_CANONICAL
    ensures PathOf(v) != PathOf(u)
  {
    hide PathOf;
    WithinWindow(v, u, phys, size, hhdm);
    if PathOf(v) == PathOf(u) {
      PathIsPage(v, u);
      SamePageNumber(v, u);
    }
  }

  lemma WithinWindow(v: nat, u: nat, phys: nat, size: nat, hhdm: nat)
    requires InWindow(v, phys, size, hhdm) && InWindow(u, phys, size, hhdm) && v < u
    ensures u - v < size + PAGE_SIZE
  {}

  lemma SamePageNumber(v: nat, u: nat)
    requires v / PAGE_SIZE % 0x10_0000_0000 == u / PAGE_SIZE % 0x10_0000_0000
    requires v <= u < v + SIZE_CANONICAL && v % PAGE_SIZE == 0 && u % PAGE_SIZE == 0
    ensures u == v
  {}

  const WORD_LIMIT: nat := 0x1_0000_0000_0000_0000
  const SIZE_CANONICAL: nat := 0x1_0000_0000_0000

  /** `x & PAGE_MASK` */
  function PageOf(x: nat): nat { x / PAGE_SIZE * PAGE_SIZE }

  lemma NextPage(p: nat, end: nat)
    requires p % PAGE_SIZE == 0 && end % PAGE_SIZE == 0 && p < end
    ensures p + PAGE_SIZE <= end && (p + PAGE_SIZE) % PAGE_SIZE == 0
  {}

  lemma PageIsItself(p: nat)
    requires p % PAGE_SIZE == 0 && p < PHYS_LIMIT
    ensures Addr(p) == p
  {
    FrameEntry(p, 3);
  }

  /** All addresses of a page are mapped or none is. */
  lemma SameFate(t: Tables, root: nat, v: nat, w: nat)
    requires PathOf(w) == PathOf(v)
    ensures Translate(t, root, w) == Unmapped <==> Translate(t, root, v) == Unmapped
  {
    hide I1, I2, I3, I4, Addr, Present, Big, PathOf;
    SamePath(v, w);
  }

  /** An unmapped page is not in the way of a larger one. */
  lemma NotBlocked(t: Tables, root: nat, v: nat)
    requires TopClean(t, root)
    ensures Translate(t, root, v) == Unmapped ==> !Blocked(t, root, v)
  {
    hide I1, I2, I3, Addr, Big;
    NoEntry();
  }

  lemma PoolKept(pool: seq<nat>, t: Tables, u: Tables)
    requires PoolOk(pool, t) && u.Keys == t.Keys
    ensures PoolOk(pool, u)
  {}

  // ---------------------------------------------------------------- what a mapping needs

  /** The frames that the tables above a page still need. */
  function Needs(t: Tables, root: nat, v: nat): nat {
    var e := Entry(t, root, I4(v));
    if !Present(e) then 3 else if Big(e) then 0 else Needs3(t, Addr(e), v)
  }

  function Needs3(t: Tables, f: nat, v: nat): nat {
    var e := Entry(t, f, I3(v));
    if !Present(e) then 2 else if Big(e) then 0 else Needs2(t, Addr(e), v)
  }

  function Needs2(t: Tables, f: nat, v: nat): nat {
    if Present(Entry(t, f, I2(v))) then 0 else 1
  }

  /** An entry on the way maps a page instead of leading to a table. */
  predicate Blocked(t: Tables, root: nat, v: nat) {
    var e := Entry(t, root, I4(v));
    Present(e) && (Big(e) || Blocked3(t, Addr(e), v))
  }

  predicate Blocked3(t: Tables, f: nat, v: nat) {
    var e := Entry(t, f, I3(v));
    Present(e) && (Big(e) || Blocked2(t, Addr(e), v))
  }

  predicate Blocked2(t: Tables, f: nat, v: nat) {
    var e := Entry(t, f, I2(v));
    Present(e) && Big(e)
  }
}
