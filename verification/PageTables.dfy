/** The four-level page tables of the MMIO mapper (Intel SDM, volume 3A, section 4.5): what the hardware walk
    finds, and what linking a table or storing an entry does to it. */
module PageTables {

  const ENTRIES: nat := 512
  const PAGE_SIZE: nat := 0x1000
  const SIZE_2M: nat := 0x20_0000
  const SIZE_1G: nat := 0x4000_0000
  const SIZE_512G: nat := 0x80_0000_0000
  const PHYS_LIMIT: nat := 0x10_0000_0000_0000

  type Table = seq<nat>
  type Tables = map<nat, Table>
  type Path = seq<nat>

  // ---------------------------------------------------------------- entries and indices

  predicate Present(e: nat) { e % 2 == 1 }

  /** Bit 7: a page instead of a table, in the two middle levels. */
  predicate Big(e: nat) { e / 0x80 % 2 == 1 }

  /** `e & ADDR_MASK`: bits 12 to 51. */
  function Addr(e: nat): (a: nat)
    ensures a < PHYS_LIMIT && a % PAGE_SIZE == 0
  {
    e / PAGE_SIZE % 0x100_0000_0000 * PAGE_SIZE
  }

  predicate Link(e: nat) { Present(e) && !Big(e) }

  function I4(v: nat): (i: nat) ensures i < ENTRIES { v / SIZE_512G % ENTRIES }
  function I3(v: nat): (i: nat) ensures i < ENTRIES { v / SIZE_1G % ENTRIES }
  function I2(v: nat): (i: nat) ensures i < ENTRIES { v / SIZE_2M % ENTRIES }
  function I1(v: nat): (i: nat) ensures i < ENTRIES { v / PAGE_SIZE % ENTRIES }

  function PathOf(v: nat): Path { [I4(v), I3(v), I2(v), I1(v)] }

  /** The indices are bits 12 to 47 of the address. */
  lemma PathIsPage(v: nat, w: nat)
    requires PathOf(v) == PathOf(w)
    ensures v / PAGE_SIZE % 0x10_0000_0000 == w / PAGE_SIZE % 0x10_0000_0000
  {
    PageOfPath(v);
    PageOfPath(w);
    assert I4(v) == PathOf(v)[0] && I3(v) == PathOf(v)[1] && I2(v) == PathOf(v)[2] && I1(v) == PathOf(v)[3];
    assert I4(w) == PathOf(w)[0] && I3(w) == PathOf(w)[1] && I2(w) == PathOf(w)[2] && I1(w) == PathOf(w)[3];
  }

  lemma PageOfPath(v: nat)
    ensures v / PAGE_SIZE % 0x10_0000_0000 == I4(v) * 0x800_0000 + I3(v) * 0x4_0000 + I2(v) * 0x200 + I1(v)
  {
    var x := v / PAGE_SIZE;
    var a := x / 0x200;
    var b := a / 0x200;
    var c := b / 0x200;
    Div2M(v);
    Div1G(v);
    Div512G(v);
    Digits(x, a, b, c);
  }

  lemma Div2M(v: nat)
    ensures v / SIZE_2M == v / PAGE_SIZE / 0x200
  {}

  lemma Div1G(v: nat)
    ensures v / SIZE_1G == v / SIZE_2M / 0x200
  {}

  lemma Div512G(v: nat)
    ensures v / SIZE_512G == v / SIZE_1G / 0x200
  {}

  lemma Digits(x: nat, a: nat, b: nat, c: nat)
    requires a == x / 0x200 && b == a / 0x200 && c == b / 0x200
    ensures x % 0x10_0000_0000 == c % 0x200 * 0x800_0000 + b % 0x200 * 0x4_0000 + a % 0x200 * 0x200 + x % 0x200
  {
    var d := c / 0x200;
    assert x == d * 0x10_0000_0000 + (c % 0x200 * 0x800_0000 + b % 0x200 * 0x4_0000 + a % 0x200 * 0x200 + x % 0x200);
  }

  // ---------------------------------------------------------------- the walk

  datatype Translation = Unmapped | To(phys: nat)

  function Entry(t: Tables, f: nat, i: nat): nat {
    if f in t && i < |t[f]| then t[f][i] else 0
  }

  function PageBase(e: nat, size: nat): nat
    requires size > 0
  {
    Addr(e) - Addr(e) % size
  }

  /** What the processor finds for an address. A PML4 entry with bit 7 set is reserved, and maps nothing. */
  function Translate(t: Tables, root: nat, v: nat): Translation {
    var e := Entry(t, root, I4(v));
    if Link(e) then Walk3(t, Addr(e), v) else Unmapped
  }

  function Walk3(t: Tables, f: nat, v: nat): Translation {
    var e := Entry(t, f, I3(v));
    if !Present(e) then Unmapped
    else if Big(e) then To(PageBase(e, SIZE_1G) + v % SIZE_1G)
    else Walk2(t, Addr(e), v)
  }

  function Walk2(t: Tables, f: nat, v: nat): Translation {
    var e := Entry(t, f, I2(v));
    if !Present(e) then Unmapped
    else if Big(e) then To(PageBase(e, SIZE_2M) + v % SIZE_2M)
    else Walk1(t, Addr(e), v)
  }

  function Walk1(t: Tables, f: nat, v: nat): Translation {
    var e := Entry(t, f, I1(v));
    if Present(e) then To(Addr(e) + v % PAGE_SIZE) else Unmapped
  }

  // ---------------------------------------------------------------- no sharing

  /** Every table has a place of its own: the indices that lead to it. */
  ghost predicate TreeOk(t: Tables, root: nat, place: map<nat, Path>) {
    root in t && place.Keys == t.Keys && place[root] == [] &&
    forall f :: f in t ==> |t[f]| == ENTRIES && |place[f]| <= 3 && forall i :: 0 <= i < ENTRIES ==>
      ChildOk(t, place, f, i)
  }

  ghost predicate ChildOk(t: Tables, place: map<nat, Path>, f: nat, i: nat)
    requires f in t && |t[f]| == ENTRIES && f in place && i < ENTRIES
  {
    |place[f]| < 3 && Link(t[f][i]) ==>
      Addr(t[f][i]) in t && Addr(t[f][i]) in place && place[Addr(t[f][i])] == place[f] + [i]
  }

  /** Bit 7 is clear in all entries of the PML4. */
  ghost predicate TopClean(t: Tables, root: nat) {
    root in t && forall i :: 0 <= i < |t[root]| ==> Present(t[root][i]) ==> !Big(t[root][i])
  }

  /** One level down. */
  lemma Down(t: Tables, root: nat, place: map<nat, Path>, f: nat, i: nat)
    requires TreeOk(t, root, place) && f in t && |place[f]| < 3 && i < ENTRIES && Link(Entry(t, f, i))
    ensures var g := Addr(Entry(t, f, i)); g in t && g in place && place[g] == place[f] + [i]
  {
    assert ChildOk(t, place, f, i);
  }

  /** An entry changed in table `f`: the walk of an address that does not go through it is the same. */
  lemma OtherWalk(t: Tables, root: nat, place: map<nat, Path>, u: Tables, f: nat, i: nat, v: nat)
    requires TreeOk(t, root, place) && f in t && i < ENTRIES
    requires forall g, j :: g in t && 0 <= j < ENTRIES && !(g == f && j == i) ==> Entry(u, g, j) == Entry(t, g, j)
    requires !(place[f] + [i] <= PathOf(v))
    ensures Translate(u, root, v) == Translate(t, root, v)
  {
    hide Addr, I4, I3, I2, I1, Present, Big, Entry, TreeOk;
    var p := PathOf(v);
    RootPlace(t, root, place);
    assert [] + [I4(v)] == p[..1];
    if Link(Entry(t, root, I4(v))) {
      var f3 := Addr(Entry(t, root, I4(v)));
      Down(t, root, place, root, I4(v));
      assert place[f3] + [I3(v)] == p[..2];
      if Link(Entry(t, f3, I3(v))) {
        var f2 := Addr(Entry(t, f3, I3(v)));
        Down(t, root, place, f3, I3(v));
        assert place[f2] + [I2(v)] == p[..3];
        if Link(Entry(t, f2, I2(v))) {
          Down(t, root, place, f2, I2(v));
          assert place[Addr(Entry(t, f2, I2(v)))] + [I1(v)] == p[..4];
        }
      }
    }
  }

  lemma RootPlace(t: Tables, root: nat, place: map<nat, Path>)
    requires TreeOk(t, root, place)
    ensures root in t && root in place && place[root] == []
  {}

  // ---------------------------------------------------------------- a new table

  function BlankTable(): (z: Table)
    ensures |z| == ENTRIES && forall i :: 0 <= i < |z| ==> z[i] == 0
  {
    seq(ENTRIES, _ => 0)
  }

  predicate IsFrame(n: nat) { n < PHYS_LIMIT && n % PAGE_SIZE == 0 }

  lemma FrameEntry(n: nat, flags: nat)
    requires IsFrame(n) && flags < 0x80 && flags % 2 == 1
    ensures Present(n + flags) && !Big(n + flags) && Addr(n + flags) == n && Addr(n) == n
  {
    var k := n / PAGE_SIZE;
    assert n == k * PAGE_SIZE && k < 0x100_0000_0000;
    PageAndFlags(k, flags);
    PageAndFlags(k, 0);
    BitsOfFlags(k, flags);
  }

  lemma PageAndFlags(k: nat, x: nat)
    requires x < PAGE_SIZE
    ensures (k * PAGE_SIZE + x) / PAGE_SIZE == k
  {}

  lemma BitsOfFlags(k: nat, flags: nat)
    requires flags < 0x80 && flags % 2 == 1
    ensures (k * PAGE_SIZE + flags) % 2 == 1 && (k * PAGE_SIZE + flags) / 0x80 % 2 == 0
  {
    LowerBits(k, flags);
    Parity(k * 0x800, flags);
    Parity(k * 0x10, 0);
    assert k * PAGE_SIZE + flags == 2 * (k * 0x800) + flags;
    var q := (k * PAGE_SIZE + flags) / 0x80;
    assert q == 2 * (k * 0x10) + 0;
  }

  lemma Parity(m: nat, x: nat)
    ensures (2 * m + x) % 2 == x % 2
  {}

  lemma LowerBits(k: nat, flags: nat)
    requires flags < 0x80
    ensures (k * PAGE_SIZE + flags) / 0x80 == k * 0x20
  {}

  lemma NoEntry()
    ensures !Present(0)
  {}

  /** Entry `i` of table `f` now leads to the empty table `n`. */
  function Linked(t: Tables, f: nat, i: nat, n: nat): Tables
    requires f in t && i < |t[f]|
  {
    var table: Table := t[f][i := n + 3];
    t[n := BlankTable()][f := table]
  }

  lemma LinkedTree(t: Tables, root: nat, place: map<nat, Path>, f: nat, i: nat, n: nat)
    requires TreeOk(t, root, place) && f in t && |place[f]| < 3 && i < ENTRIES && !Present(t[f][i])
    requires IsFrame(n) && n !in t
    ensures TreeOk(Linked(t, f, i, n), root, place[n := place[f] + [i]])
    ensures TopClean(t, root) ==> TopClean(Linked(t, f, i, n), root)
  {
    hide Addr, Present, Big;
    var u, place' := Linked(t, f, i, n), place[n := place[f] + [i]];
    FrameEntry(n, 3);
    NoEntry();
    forall g | g in u ensures |u[g]| == ENTRIES && |place'[g]| <= 3 && forall j :: 0 <= j < ENTRIES ==>
      ChildOk(u, place', g, j) {
      forall j | 0 <= j < ENTRIES ensures ChildOk(u, place', g, j) {
        if g != n { assert ChildOk(t, place, g, j); }
      }
    }
  }

  /** The new table is empty, so nothing is mapped that was not, and nothing lost. */
  lemma LinkedWalk(t: Tables, root: nat, place: map<nat, Path>, f: nat, i: nat, n: nat, v: nat)
    requires TreeOk(t, root, place) && f in t && |place[f]| < 3 && i < ENTRIES && !Present(t[f][i])
    requires IsFrame(n) && n !in t
    ensures Translate(Linked(t, f, i, n), root, v) == Translate(t, root, v)
  {
    hide Addr, I4, I3, I2, I1, Present, Big, TreeOk;
    TableSize(t, root, place, f);
    var u := Linked(t, f, i, n);
    FrameEntry(n, 3);
    NoEntry();
    RootPlace(t, root, place);
    if Link(Entry(t, root, I4(v))) {
      var f3 := Addr(Entry(t, root, I4(v)));
      Down(t, root, place, root, I4(v));
      if Link(Entry(t, f3, I3(v))) {
        Down(t, root, place, f3, I3(v));
        var f2 := Addr(Entry(t, f3, I3(v)));
        if Link(Entry(t, f2, I2(v))) { Down(t, root, place, f2, I2(v)); }
      }
    }
  }

  // ---------------------------------------------------------------- a leaf

  /** The walk of `v` gets as far as page table `f`. */
  predicate Reaches(t: Tables, root: nat, v: nat, f: nat) {
    var e4 := Entry(t, root, I4(v));
    Link(e4) &&
    var e3 := Entry(t, Addr(e4), I3(v));
    Link(e3) &&
    var e2 := Entry(t, Addr(e3), I2(v));
    Link(e2) && Addr(e2) == f
  }

  lemma ReachesPlace(t: Tables, root: nat, place: map<nat, Path>, v: nat, f: nat)
    requires TreeOk(t, root, place) && Reaches(t, root, v, f)
    ensures f in t && f in place && place[f] == [I4(v), I3(v), I2(v)]
  {
    hide Addr, I4, I3, I2, Present, Big, TreeOk;
    RootPlace(t, root, place);
    Down(t, root, place, root, I4(v));
    Down(t, root, place, Addr(Entry(t, root, I4(v))), I3(v));
    Down(t, root, place, Addr(Entry(t, Addr(Entry(t, root, I4(v))), I3(v))), I2(v));
  }

  function Stored(t: Tables, f: nat, i: nat, e: nat): Tables
    requires f in t && i < |t[f]|
  {
    var table: Table := t[f][i := e];
    t[f := table]
  }

  lemma StoredTree(t: Tables, root: nat, place: map<nat, Path>, f: nat, i: nat, e: nat)
    requires TreeOk(t, root, place) && f in t && |place[f]| == 3 && i < ENTRIES
    ensures TreeOk(Stored(t, f, i, e), root, place) && (TopClean(t, root) ==> TopClean(Stored(t, f, i, e), root))
  {
    hide Addr, Present, Big;
    var u := Stored(t, f, i, e);
    forall g | g in u ensures |u[g]| == ENTRIES && |place[g]| <= 3 && forall j :: 0 <= j < ENTRIES ==>
      ChildOk(u, place, g, j) {
      forall j | 0 <= j < ENTRIES ensures ChildOk(u, place, g, j) { assert ChildOk(t, place, g, j); }
    }
  }

  /** A stored leaf maps the page it is reached by, and only that. */
  lemma StoredWalk(t: Tables, root: nat, place: map<nat, Path>, v: nat, f: nat, e: nat, w: nat)
    requires TreeOk(t, root, place) && Reaches(t, root, v, f) && Present(e)
    ensures f in t && I1(v) < |t[f]|
    ensures Translate(Stored(t, f, I1(v), e), root, w) ==
            if PathOf(w) == PathOf(v) then To(Addr(e) + w % PAGE_SIZE) else Translate(t, root, w)
  {
    hide Addr, I4, I3, I2, I1, Present, Big, TreeOk;
    ReachesPlace(t, root, place, v, f);
    TableSize(t, root, place, f);
    var u := Stored(t, f, I1(v), e);
    if PathOf(w) == PathOf(v) {
      SamePath(v, w);
      StoredStillReaches(t, root, place, v, f, e);
    } else {
      assert PathOf(v) == place[f] + [I1(v)];
      OtherWalk(t, root, place, u, f, I1(v), w);
    }
  }

  lemma SamePath(v: nat, w: nat)
    requires PathOf(w) == PathOf(v)
    ensures I4(w) == I4(v) && I3(w) == I3(v) && I2(w) == I2(v) && I1(w) == I1(v)
  {
    assert PathOf(v)[0] == I4(v) && PathOf(v)[1] == I3(v) && PathOf(v)[2] == I2(v) && PathOf(v)[3] == I1(v);
    assert PathOf(w)[0] == I4(w) && PathOf(w)[1] == I3(w) && PathOf(w)[2] == I2(w) && PathOf(w)[3] == I1(w);
  }

  lemma TableSize(t: Tables, root: nat, place: map<nat, Path>, f: nat)
    requires TreeOk(t, root, place) && f in t
    ensures |t[f]| == ENTRIES && f in place && |place[f]| <= 3
  {}

  /** The tables on the way are not the one stored to. */
  lemma StoredStillReaches(t: Tables, root: nat, place: map<nat, Path>, v: nat, f: nat, e: nat)
    requires TreeOk(t, root, place) && Reaches(t, root, v, f)
    ensures f in t && I1(v) < |t[f]| && Reaches(Stored(t, f, I1(v), e), root, v, f)
  {
    hide Addr, I4, I3, I2, I1, Present, Big, TreeOk;
    ReachesPlace(t, root, place, v, f);
    TableSize(t, root, place, f);
    RootPlace(t, root, place);
    Down(t, root, place, root, I4(v));
    Down(t, root, place, Addr(Entry(t, root, I4(v))), I3(v));
  }

  // ---------------------------------------------------------------- the driver's own test

  /** `is_page_mapped` */
  function IsPageMapped(t: Tables, root: nat, v: nat): bool {
    var e4 := Entry(t, root, I4(v));
    if !Present(e4) then false else if Big(e4) then true
    else
      var e3 := Entry(t, Addr(e4), I3(v));
      if !Present(e3) then false else if Big(e3) then true
      else
        var e2 := Entry(t, Addr(e3), I2(v));
        if !Present(e2) then false else if Big(e2) then true
        else Present(Entry(t, Addr(e2), I1(v)))
  }

  /** It agrees with the walk, except that it takes a PML4 entry with bit 7 for a mapping. */
  lemma MappedExactly(t: Tables, root: nat, v: nat)
    ensures IsPageMapped(t, root, v) <==>
            Translate(t, root, v) != Unmapped || (Present(Entry(t, root, I4(v))) && Big(Entry(t, root, I4(v))))
  {
    hide Addr, I4, I3, I2, I1, Present, Big;
  }

  lemma MappedIfClean(t: Tables, root: nat, v: nat)
    requires TopClean(t, root)
    ensures IsPageMapped(t, root, v) <==> Translate(t, root, v) != Unmapped
  {
    hide Addr, I3, I2, I1, Big, Translate, IsPageMapped;
    MappedExactly(t, root, v);
    NoEntry();
  }
}
