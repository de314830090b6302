/** TRBs, cycle bits, and what the slots of a ring hold (xHCI specification, section 4.9.2). */
module XhciSlots {

  const USABLE_TRBS: nat := 255
  const RING_TRBS: nat := 256
  const TRB_LINK: nat := 6
  const TRB_TC: nat := 2

  datatype Trb = Trb(param: nat, status: nat, flags: nat)

  /** What a caller of `ring_enqueue` hands over. The cycle bit of its flags does not count. */
  datatype Item = Item(param: nat, status: nat, flags: nat)

  function CycleBit(flags: nat): nat { flags % 2 }
  function TypeOf(flags: nat): nat { flags / 1024 % 64 }

  /** `(flags & ~TRB_CYCLE) | cycle` */
  function WithCycle(flags: nat, cycle: nat): nat { flags - flags % 2 + cycle }

  function LinkFlags(cycle: nat): nat { TRB_LINK * 1024 + TRB_TC + cycle }

  function Plain(it: Item): Item { Item(it.param, it.status, WithCycle(it.flags, 0)) }

  /** The TRB that stands for an item in a round with this cycle bit. */
  function Stamp(it: Item, cycle: nat): Trb { Trb(it.param, it.status, WithCycle(it.flags, cycle)) }

  lemma StampBits(it: Item, cycle: nat)
    requires cycle <= 1
    ensures CycleBit(Stamp(it, cycle).flags) == cycle && TypeOf(Stamp(it, cycle).flags) == TypeOf(it.flags)
    ensures WithCycle(Stamp(it, cycle).flags, 0) == WithCycle(it.flags, 0)
  {
    CycleIsLowest(it.flags, cycle);
    AboveCycle(it.flags);
    AboveCycle(WithCycle(it.flags, cycle));
  }

  lemma CycleIsLowest(f: nat, cycle: nat)
    requires cycle <= 1
    ensures WithCycle(f, cycle) % 2 == cycle && WithCycle(f, cycle) / 2 == f / 2
    ensures WithCycle(f, cycle) - cycle == f - f % 2
  {}

  lemma AboveCycle(f: nat)
    ensures f / 1024 == f / 2 / 512
  {}

  lemma LinkBits(cycle: nat)
    requires cycle <= 1
    ensures CycleBit(LinkFlags(cycle)) == cycle && TypeOf(LinkFlags(cycle)) == TRB_LINK && LinkFlags(cycle) / 2 % 2 == 1
  {}

  lemma PlainAgain(it: Item)
    requires CycleBit(it.flags) == 0
    ensures Plain(it) == it
  {}

  /** Read word by word, a stamped TRB gives back its item. */
  lemma ItemRead(it: Item, cycle: nat, t: Trb)
    requires t == Stamp(it, cycle) && cycle <= 1 && CycleBit(it.flags) == 0
    ensures Item(t.param, t.status, WithCycle(t.flags, 0)) == it
  {
    StampBits(it, cycle);
    PlainAgain(it);
  }

  lemma PlainStamp(it: Item, cycle: nat)
    requires cycle <= 1
    ensures Stamp(Plain(it), cycle) == Trb(it.param, it.status, WithCycle(it.flags, cycle))
    ensures TypeOf(Plain(it).flags) == TypeOf(it.flags) && CycleBit(Plain(it).flags) == 0
  {
    StampBits(it, 0);
    CycleIsLowest(it.flags, 0);
  }

  // ---------------------------------------------------------------- rounds

  /** The transfer and command rings have 255 slots before the Link TRB; the event ring has 256 and no Link. */
  predicate IsSize(n: nat) { n == USABLE_TRBS || n == RING_TRBS }

  /** Position `k` of the stream is slot `k % n` in round `k / n`. */
  function SlotOf(k: nat, n: nat): (s: nat)
    requires IsSize(n)
    ensures s < n
  {
    if n == USABLE_TRBS then k % 255 else k % 256
  }

  function Round(k: nat, n: nat): nat
    requires IsSize(n)
  {
    if n == USABLE_TRBS then k / 255 else k / 256
  }

  /** The cycle bit of a round: 1 in the first, then alternating. */
  function Bit(round: nat): (b: nat)
    ensures b <= 1
  {
    1 - round % 2
  }

  lemma NextPlace(k: nat, n: nat)
    requires IsSize(n)
    ensures if SlotOf(k, n) + 1 < n then SlotOf(k + 1, n) == SlotOf(k, n) + 1 && Round(k + 1, n) == Round(k, n)
            else SlotOf(k + 1, n) == 0 && Round(k + 1, n) == Round(k, n) + 1
  {
    if n == USABLE_TRBS { Next255(k); } else { Next256(k); }
  }

  lemma Next255(k: nat)
    ensures if k % 255 + 1 < 255 then (k + 1) % 255 == k % 255 + 1 && (k + 1) / 255 == k / 255
            else (k + 1) % 255 == 0 && (k + 1) / 255 == k / 255 + 1
  {}

  lemma Next256(k: nat)
    ensures if k % 256 + 1 < 256 then (k + 1) % 256 == k % 256 + 1 && (k + 1) / 256 == k / 256
            else (k + 1) % 256 == 0 && (k + 1) / 256 == k / 256 + 1
  {}

  /** Positions less than a round apart have different slots, and a round apart the same. */
  lemma SlotsApart(j: nat, k: nat, n: nat)
    requires IsSize(n) && j < k
    ensures k < j + n ==> SlotOf(j, n) != SlotOf(k, n)
    ensures k == j + n ==> SlotOf(j, n) == SlotOf(k, n) && Round(k, n) == Round(j, n) + 1
  {
    if n == USABLE_TRBS { Apart255(j, k); } else { Apart256(j, k); }
  }

  lemma Apart255(j: nat, k: nat)
    requires j < k
    ensures k < j + 255 ==> j % 255 != k % 255
    ensures k == j + 255 ==> j % 255 == k % 255 && k / 255 == j / 255 + 1
  {}

  lemma Apart256(j: nat, k: nat)
    requires j < k
    ensures k < j + 256 ==> j % 256 != k % 256
    ensures k == j + 256 ==> j % 256 == k % 256 && k / 256 == j / 256 + 1
  {}

  lemma FirstRound(k: nat, n: nat)
    requires IsSize(n) && k < n
    ensures SlotOf(k, n) == k && Round(k, n) == 0
  {}

  // ---------------------------------------------------------------- what the slots hold

  /** The `n` slots hold the last `n` items, each with its round's bit; slots never written have bit 0. The one
      next to be written may hold half an item, but its bit is still the old one. */
  ghost predicate Window(slots: seq<Trb>, n: nat, items: seq<Item>, half: bool) {
    IsSize(n) && |slots| == n &&
    (forall k: nat :: k < |items| && |items| < k + n + (if half then 0 else 1) ==> Holds(slots, n, items, k)) &&
    CycleBit(slots[SlotOf(|items|, n)].flags) == 1 - Bit(Round(|items|, n)) &&
    forall s :: |items| <= s < n ==> CycleBit(slots[s].flags) == 0
  }

  ghost predicate Holds(slots: seq<Trb>, n: nat, items: seq<Item>, k: nat)
    requires IsSize(n) && |slots| == n && k < |items|
  {
    slots[SlotOf(k, n)] == Stamp(items[k], Bit(Round(k, n)))
  }

  /** A store of a parameter or status word touches nothing that counts. */
  lemma HalfStore(slots: seq<Trb>, n: nat, items: seq<Item>, half: bool, t: Trb)
    requires Window(slots, n, items, half) && t.flags == slots[SlotOf(|items|, n)].flags
    ensures Window(slots[SlotOf(|items|, n) := t], n, items, true)
  {
    hide SlotOf, Round, Stamp, CycleBit;
    var e := |items|;
    var slots' := slots[SlotOf(e, n) := t];
    forall k: nat | k < e && e < k + n ensures Holds(slots', n, items, k) {
      assert Holds(slots, n, items, k);
      SlotsApart(k, e, n);
    }
  }

  /** The store of the flags publishes the item: the window moves on by one. */
  lemma Publish(slots: seq<Trb>, n: nat, items: seq<Item>, half: bool, it: Item)
    requires Window(slots, n, items, half)
    ensures Window(slots[SlotOf(|items|, n) := Stamp(it, Bit(Round(|items|, n)))], n, items + [it], false)
  {
    hide Stamp, WithCycle, CycleBit, SlotOf, Round, Bit;
    var e, new_ := |items|, items + [it];
    var slots' := slots[SlotOf(e, n) := Stamp(it, Bit(Round(e, n)))];
    forall k: nat | k < e + 1 && e + 1 < k + n + 1 ensures Holds(slots', n, new_, k) {
      if k < e {
        assert Holds(slots, n, items, k);
        SlotsApart(k, e, n);
      }
    }
    if e < n { FirstRound(e, n); }
    OldBit(slots', n, new_);
  }

  /** The next slot still has the bit of the round before. */
  lemma OldBit(slots: seq<Trb>, n: nat, items: seq<Item>)
    requires IsSize(n) && |slots| == n && |items| > 0
    requires forall k: nat :: k < |items| && |items| <= k + n ==> Holds(slots, n, items, k)
    requires forall s :: |items| <= s < n ==> CycleBit(slots[s].flags) == 0
    ensures CycleBit(slots[SlotOf(|items|, n)].flags) == 1 - Bit(Round(|items|, n))
  {
    hide WithCycle, CycleBit, SlotOf, Round;
    var e := |items|;
    if e < n {
      FirstRound(e, n);
    } else {
      SlotsApart(e - n, e, n);
      assert Holds(slots, n, items, e - n);
      StampBits(items[e - n], Bit(Round(e - n, n)));
    }
  }
}
