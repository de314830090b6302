/** Transfer and command rings of the xHCI driver (xHCI specification, sections 4.9.2 and 4.9.3): the driver
    produces TRBs, the controller consumes them, and the cycle bit in each TRB is all that passes between them.
    Every store of the driver and every read of the controller is a step of its own. Over every run in which the
    driver calls when it is safe, the controller reads exactly what was handed over, in order, once each, and
    never half-written. */
module XhciRing {
  import opened XhciSlots

  // ---------------------------------------------------------------- the two parties

  /** The next store `ring_enqueue` will do. After the flags of the last usable slot come the three words of the
      Link TRB. */
  datatype Pc =
    | Idle
    | StoreParam(it: Item)
    | StoreStatus(it: Item)
    | StoreFlags(it: Item)
    | LinkParam
    | LinkStatus
    | LinkFlagsWord

  /** The controller looks at the flags of its TRB first; when the cycle bit is its own it reads the rest. */
  datatype Reader = Look | GotFlags(flags: nat) | GotParam(flags: nat, param: nat)

  /** Memory, the driver's `idx` and `cycle`, the controller's position and cycle state; and the history: what
      was handed over, what was read, and how often the controller took the Link. */
  datatype State = State(ring: seq<Trb>, phys: nat, idx: nat, cycle: nat, pc: Pc, deq: nat, ccs: nat, reader: Reader,
                         items: seq<Item>, out: seq<Item>, turns: nat)

  /** `ring_init`, and the controller told to start at the first TRB with cycle state 1. */
  function Init(phys: nat): State {
    State(FreshRing(phys), phys, 0, 1, Idle, 0, 1, Look, [], [], 0)
  }

  function FreshRing(phys: nat): seq<Trb> {
    seq(USABLE_TRBS, _ => Trb(0, 0, 0)) + [Trb(phys, 0, LinkFlags(0))]
  }

  predicate Shape(s: State) {
    |s.ring| == RING_TRBS && s.idx < USABLE_TRBS && s.deq <= USABLE_TRBS && s.cycle <= 1 && s.ccs <= 1
  }

  /** One step of the driver. `it` is the argument of the call that begins when the driver is idle. */
  function Produce(s: State, it: Item): State
    requires Shape(s)
  {
    match s.pc
    case Idle => s.(pc := StoreParam(it))
    case StoreParam(i) => s.(ring := s.ring[s.idx := s.ring[s.idx].(param := i.param)], pc := StoreStatus(i))
    case StoreStatus(i) => s.(ring := s.ring[s.idx := s.ring[s.idx].(status := i.status)], pc := StoreFlags(i))
    case StoreFlags(i) =>
      var t := s.(ring := s.ring[s.idx := s.ring[s.idx].(flags := WithCycle(i.flags, s.cycle))], items := s.items +
        [Plain(i)]);
      if s.idx + 1 >= USABLE_TRBS then t.(pc := LinkParam) else t.(idx := s.idx + 1, pc := Idle)
    case LinkParam => s.(ring := s.ring[USABLE_TRBS := s.ring[USABLE_TRBS].(param := s.phys)], pc := LinkStatus)
    case LinkStatus => s.(ring := s.ring[USABLE_TRBS := s.ring[USABLE_TRBS].(status := 0)], pc := LinkFlagsWord)
    case LinkFlagsWord =>
      s.(ring := s.ring[USABLE_TRBS := s.ring[USABLE_TRBS].(flags := LinkFlags(s.cycle))], idx := 0,
        cycle := 1 - s.cycle, pc := Idle)
  }

  /** The controller has something to do. */
  predicate CanConsume(s: State)
    requires Shape(s)
  {
    s.reader.Look? ==> CycleBit(s.ring[s.deq].flags) == s.ccs
  }

  /** One step of the controller: flags, parameter, status; then a Link TRB is followed, toggling the cycle state
      if its TC bit says so, and any other TRB is taken. */
  function Consume(s: State): State
    requires Shape(s)
  {
    var t := s.ring[s.deq];
    match s.reader
    case Look => if CycleBit(t.flags) == s.ccs then s.(reader := GotFlags(t.flags)) else s
    case GotFlags(f) => s.(reader := GotParam(f, t.param))
    case GotParam(f, p) =>
      if TypeOf(f) == TRB_LINK
      then s.(deq := if p == s.phys then 0 else s.deq, ccs := if f / 2 % 2 == 1 then 1 - s.ccs
        else s.ccs, reader := Look,
              turns := s.turns + 1)
      else s.(deq := if s.deq < USABLE_TRBS then s.deq + 1 else s.deq, reader := Look,
              out := s.out + [Item(p, t.status, WithCycle(f, 0))])
  }

  // ---------------------------------------------------------------- when a call is safe

  /** The slot the next TRB goes to has been read; and if the call will rewrite the Link TRB, the controller is
      not standing on it with its turn still to come. */
  predicate Safe(s: State) {
    |s.items| < |s.out| + USABLE_TRBS && !(s.deq == USABLE_TRBS && |s.items| == |s.out| + USABLE_TRBS - 1)
  }

  /** Fewer than 255 TRBs on the ring, counting the new one, is always safe. */
  lemma FewIsSafe(s: State)
    requires |s.items| + 1 < |s.out| + USABLE_TRBS
    ensures Safe(s)
  {}

  // ---------------------------------------------------------------- the invariant

  predicate Half(pc: Pc) { pc.StoreParam? || pc.StoreStatus? || pc.StoreFlags? }
  predicate AtLink(pc: Pc) { pc.LinkParam? || pc.LinkStatus? || pc.LinkFlagsWord? }

  /** How often the Link TRB was handed to the controller. */
  function Handed(s: State): int {
    Round(|s.items|, USABLE_TRBS) - (if AtLink(s.pc) then 1 else 0)
  }

  ghost predicate SlotsOk(s: State)
    requires Shape(s)
  {
    Window(s.ring[..USABLE_TRBS], USABLE_TRBS, s.items, Half(s.pc)) &&
    (forall k :: 0 <= k < |s.items| ==> TypeOf(s.items[k].flags) != TRB_LINK && CycleBit(s.items[k].flags) == 0) &&
    |s.out| <= |s.items| <= |s.out| + USABLE_TRBS && s.out == s.items[..|s.out|]
  }

  /** Where the driver is in `ring_enqueue`, and that the call was safe. */
  predicate DriverOk(s: State)
    requires Shape(s)
  {
    var e := |s.items|;
    if AtLink(s.pc)
    then e > 0 && SlotOf(e, USABLE_TRBS) == 0 && s.idx == USABLE_TRBS - 1 &&
      s.cycle == Bit(Round(e, USABLE_TRBS) - 1) &&
         Round(e, USABLE_TRBS) <= s.turns + 1
    else s.idx == SlotOf(e, USABLE_TRBS) && s.cycle == Bit(Round(e, USABLE_TRBS)) &&
         (Half(s.pc) ==> Safe(s) && TypeOf(s.pc.it.flags) != TRB_LINK) &&
         (s.pc.StoreStatus? || s.pc.StoreFlags? ==> s.ring[s.idx].param == s.pc.it.param) &&
         (s.pc.StoreFlags? ==> s.ring[s.idx].status == s.pc.it.status)
  }

  /** The Link TRB carries the bit of the last finished round. */
  predicate LinkOk(s: State)
    requires Shape(s)
  {
    0 <= Handed(s) && s.turns <= Handed(s) <= s.turns + 1 &&
    s.ring[USABLE_TRBS].param == s.phys && s.ring[USABLE_TRBS].flags == LinkFlags(1 - Bit(Handed(s)))
  }

  predicate ControllerOk(s: State)
    requires Shape(s)
  {
    var d := |s.out|;
    s.ccs == Bit(s.turns) &&
    if s.deq < USABLE_TRBS then s.deq == SlotOf(d, USABLE_TRBS) && Round(d, USABLE_TRBS) == s.turns
    else d > 0 && SlotOf(d, USABLE_TRBS) == 0 && Round(d, USABLE_TRBS) == s.turns + 1
  }

  /** The TRB being read is one the driver will not touch. */
  predicate ReaderOk(s: State)
    requires Shape(s)
  {
    (s.reader.GotFlags? || s.reader.GotParam? ==>
       s.reader.flags == s.ring[s.deq].flags && CycleBit(s.reader.flags) == s.ccs && Ready(s)) &&
    (s.reader.GotParam? ==> s.reader.param == s.ring[s.deq].param)
  }

  /** There is something for the controller: an item, or its turn on the Link. */
  predicate Ready(s: State)
    requires Shape(s)
  {
    if s.deq < USABLE_TRBS then |s.out| < |s.items| else Handed(s) == s.turns + 1
  }

  ghost predicate Inv(s: State) {
    Shape(s) && SlotsOk(s) && DriverOk(s) && LinkOk(s) && ControllerOk(s) && ReaderOk(s)
  }

  lemma InitInv(phys: nat)
    ensures Inv(Init(phys))
  {
    hide Window;
    var s := Init(phys);
    assert s.ring[..USABLE_TRBS] == seq(USABLE_TRBS, _ => Trb(0, 0, 0));
    EmptyWindow();
  }

  lemma EmptyWindow()
    ensures Window(seq(USABLE_TRBS, _ => Trb(0, 0, 0)), USABLE_TRBS, [], false)
  {
    FirstRound(0, USABLE_TRBS);
  }

  /** The controller sees its cycle bit exactly when there is something for it. */
  lemma SeesIffReady(s: State)
    requires Shape(s) && SlotsOk(s) && DriverOk(s) && LinkOk(s) && ControllerOk(s)
    ensures CycleBit(s.ring[s.deq].flags) == s.ccs <==> Ready(s)
    ensures Ready(s) ==>
              if s.deq < USABLE_TRBS then s.ring[s.deq] == Stamp(s.items[|s.out|], s.ccs) &&
                TypeOf(s.ring[s.deq].flags) != TRB_LINK
              else TypeOf(s.ring[s.deq].flags) == TRB_LINK
  {
    hide Window, SlotOf, Round, CycleBit, TypeOf, Stamp, Bit, LinkFlags;
    if s.deq < USABLE_TRBS {
      ItemSeen(s);
    } else {
      LinkBits(1 - Bit(Handed(s)));
      Alternates(s.turns);
    }
  }

  lemma Alternates(r: nat)
    ensures Bit(r + 1) == 1 - Bit(r)
  {}

  lemma ItemSeen(s: State)
    requires Shape(s) && SlotsOk(s) && DriverOk(s) && ControllerOk(s) && s.deq < USABLE_TRBS
    ensures CycleBit(s.ring[s.deq].flags) == s.ccs <==> |s.out| < |s.items|
    ensures |s.out| < |s.items| ==>
              s.ring[s.deq] == Stamp(s.items[|s.out|], s.ccs) &&
                TypeOf(s.ring[s.deq].flags) == TypeOf(s.items[|s.out|].flags)
  {
    hide SlotOf, Round, CycleBit, TypeOf, Stamp, Bit;
    var d, slots := |s.out|, s.ring[..USABLE_TRBS];
    assert slots[s.deq] == s.ring[s.deq];
    if d < |s.items| {
      assert Holds(slots, USABLE_TRBS, s.items, d);
      StampBits(s.items[d], s.ccs);
    }
  }

  // ---------------------------------------------------------------- the controller's steps

  /** A step of the controller: nothing, a read, the Link, or the next item and no other. */
  lemma ConsumeKeeps(s: State)
    requires Inv(s)
    ensures Inv(Consume(s)) && Consume(s).items == s.items
    ensures Consume(s).out == s.out || (|s.out| < |s.items| && Consume(s).out == s.out + [s.items[|s.out|]])
  {
    hide Window, SlotOf, Round, CycleBit, TypeOf, Stamp, LinkFlags, WithCycle;
    SeesIffReady(s);
    if s.reader.GotParam? {
      if s.deq < USABLE_TRBS { TakeItem(s); } else { TakeLink(s); }
    }
  }

  lemma TakeItem(s: State)
    requires Inv(s) && s.reader.GotParam? && s.deq < USABLE_TRBS
    ensures Inv(Consume(s)) && Consume(s).items == s.items
    ensures |s.out| < |s.items| && Consume(s).out == s.out + [s.items[|s.out|]]
  {
    hide Window, SlotOf, Round, LinkFlags, Bit, CycleBit, TypeOf, Stamp, WithCycle;
    SeesIffReady(s);
    var d := |s.out|;
    ItemRead(s.items[d], s.ccs, s.ring[s.deq]);
    NextPlace(d, USABLE_TRBS);
    assert s.items[..d + 1] == s.items[..d] + [s.items[d]];
  }

  lemma TakeLink(s: State)
    requires Inv(s) && s.reader.GotParam? && s.deq == USABLE_TRBS
    ensures Inv(Consume(s)) && Consume(s).items == s.items && Consume(s).out == s.out
  {
    hide Window, SlotOf, Round;
    SeesIffReady(s);
    LinkBits(1 - Bit(Handed(s)));
  }

  // ---------------------------------------------------------------- the driver's steps

  /** A call may begin. */
  predicate MayCall(s: State, it: Item) { s.pc.Idle? ==> Safe(s) && TypeOf(it.flags) != TRB_LINK }

  /** A step of the driver: nothing for the controller to see, or one item published whole. */
  lemma ProduceKeeps(s: State, it: Item)
    requires Inv(s) && MayCall(s, it)
    ensures Inv(Produce(s, it)) && Produce(s, it).out == s.out
    ensures Produce(s, it).items == if s.pc.StoreFlags? then s.items + [Plain(s.pc.it)] else s.items
  {
    hide Window, SlotOf, Round, CycleBit, TypeOf, LinkFlags, WithCycle, Bit;
    if s.pc.Idle? {
      BeginCall(s, it);
    } else if s.pc.StoreParam? || s.pc.StoreStatus? {
      StoreHalf(s, it);
    } else if s.pc.StoreFlags? {
      StoreWhole(s, it);
    } else {
      StoreLink(s, it);
    }
  }

  lemma BeginCall(s: State, it: Item)
    requires Inv(s) && s.pc.Idle? && Safe(s) && TypeOf(it.flags) != TRB_LINK
    ensures Inv(Produce(s, it))
  {
    hide SlotOf, Round, CycleBit, TypeOf, LinkFlags, Bit;
    var slots := s.ring[..USABLE_TRBS];
    forall k: nat | k < |s.items| && |s.items| < k + USABLE_TRBS ensures Holds(slots, USABLE_TRBS, s.items, k) {}
  }

  /** The TRB under the controller is not the one being written. */
  lemma OtherSlot(s: State)
    requires Inv(s) && Half(s.pc)
    ensures s.reader.GotFlags? || s.reader.GotParam? ==> s.deq != s.idx
    ensures s.idx < USABLE_TRBS
  {
    hide Window, CycleBit, TypeOf, LinkFlags, Bit, SlotOf, Round;
    if |s.out| < |s.items| { SlotsApart(|s.out|, |s.items|, USABLE_TRBS); }
  }

  lemma StoreHalf(s: State, it: Item)
    requires Inv(s) && (s.pc.StoreParam? || s.pc.StoreStatus?)
    ensures Inv(Produce(s, it))
  {
    hide Window, SlotOf, Round, CycleBit, TypeOf, LinkFlags, Bit;
    var t := Produce(s, it);
    OtherSlot(s);
    HalfStore(s.ring[..USABLE_TRBS], USABLE_TRBS, s.items, true, t.ring[s.idx]);
    assert t.ring[..USABLE_TRBS] == s.ring[..USABLE_TRBS][s.idx := t.ring[s.idx]];
  }

  lemma StoreWhole(s: State, it: Item)
    requires Inv(s) && s.pc.StoreFlags?
    ensures Inv(Produce(s, it)) && Produce(s, it).items == s.items + [Plain(s.pc.it)]
  {
    hide Window, SlotOf, Round, TypeOf, LinkFlags, Bit, CycleBit, SlotsOk, Safe, WithCycle, Plain;
    OtherSlot(s);
    WholeSlots(s, it);
    NextPlace(|s.items|, USABLE_TRBS);
    RoundOfItems(s);
  }

  /** The slots after the flags were stored. */
  lemma WholeSlots(s: State, it: Item)
    requires Inv(s) && s.pc.StoreFlags?
    ensures Shape(Produce(s, it)) && SlotsOk(Produce(s, it)) && |s.items| <= |s.out| + USABLE_TRBS
    ensures |s.out| <= |s.items|
  {
    hide Window, SlotOf, Round, TypeOf, LinkFlags, Bit, CycleBit, LinkOk, ControllerOk, ReaderOk, WithCycle, Plain;
    var i, t := s.pc.it, Produce(s, it);
    PlainStamp(i, s.cycle);
    Publish(s.ring[..USABLE_TRBS], USABLE_TRBS, s.items, true, Plain(i));
    assert t.ring[..USABLE_TRBS] == s.ring[..USABLE_TRBS][s.idx := Stamp(Plain(i), s.cycle)];
  }

  /** A safe call does not end a round that the controller is a whole round behind. */
  lemma RoundOfItems(s: State)
    requires Inv(s) && s.pc.StoreFlags?
    ensures SlotOf(|s.items|, USABLE_TRBS) + 1 == USABLE_TRBS ==> Round(|s.items|, USABLE_TRBS) <= s.turns
  {
    hide Window, TypeOf, LinkFlags, Bit, CycleBit;
  }

  lemma StoreLink(s: State, it: Item)
    requires Inv(s) && AtLink(s.pc)
    ensures Inv(Produce(s, it))
  {
    hide Window, CycleBit, TypeOf, SlotOf, Round, LinkFlags;
    var t := Produce(s, it);
    assert t.ring[..USABLE_TRBS] == s.ring[..USABLE_TRBS];
    LinkNotRead(s);
  }

  /** While the Link TRB is rewritten the controller is not reading it. */
  lemma LinkNotRead(s: State)
    requires Inv(s) && AtLink(s.pc)
    ensures s.reader.GotFlags? || s.reader.GotParam? ==> s.deq < USABLE_TRBS
  {
    hide Window, CycleBit, TypeOf, LinkFlags;
  }

  // ---------------------------------------------------------------- runs

  datatype Action = Driver(it: Item) | Controller

  function Do(s: State, a: Action): State
    requires Shape(s)
  {
    if a.Driver? then Produce(s, a.it) else Consume(s)
  }

  predicate Allowed(s: State, a: Action) { a.Driver? ==> MayCall(s, a.it) }

  /** What is on the ring, as a queue. */
  function Queue(s: State): seq<Item>
    requires |s.out| <= |s.items|
  {
    s.items[|s.out|..]
  }

  /** The ring refines a FIFO: a step leaves the queue, appends the item just published, or takes the first. */
  lemma StepRefinesFifo(s: State, a: Action)
    requires Inv(s) && Allowed(s, a)
    ensures Inv(Do(s, a))
    ensures var q, r := Queue(s), Queue(Do(s, a));
            (r == q && Do(s, a).out == s.out) ||
            (a.Driver? && s.pc.StoreFlags? && r == q + [Plain(s.pc.it)] && Do(s, a).out == s.out) ||
            (a.Controller? && q != [] && r == q[1..] && Do(s, a).out == s.out + [q[0]])
  {
    hide Window, CycleBit, TypeOf, SlotOf, Round, LinkFlags, Bit;
    if a.Driver? { ProduceKeeps(s, a.it); } else { ConsumeKeeps(s); }
  }

  /** A run: every action is allowed where it happens. */
  ghost predicate IsRun(trace: seq<State>, actions: seq<Action>) {
    |trace| == |actions| + 1 &&
    forall i :: 0 <= i < |actions| ==>
      Shape(trace[i]) && Allowed(trace[i], actions[i]) && trace[i + 1] == Do(trace[i], actions[i])
  }

  /** Over every run, over any number of wraps: what the controller has read is the beginning of what the driver
      has published, in order, once each, and whole. */
  lemma {:induction false} RunIsFifo(phys: nat, trace: seq<State>, actions: seq<Action>)
    requires IsRun(trace, actions) && trace[0] == Init(phys)
    ensures var s := trace[|actions|];
            Inv(s) && s.out <= s.items && |s.items| <= |s.out| + USABLE_TRBS
    decreases |actions|
  {
    hide Window, CycleBit, TypeOf, SlotOf, Round, LinkFlags, Bit, Shape, Allowed, Do;
    if actions == [] {
      InitInv(phys);
    } else {
      var n := |actions| - 1;
      RunIsFifo(phys, trace[..n + 1], actions[..n]);
      StepRefinesFifo(trace[n], actions[n]);
    }
  }

  // ---------------------------------------------------------------- progress, and exactly when a call is safe

  /** Nothing published is ever out of reach: the controller sees its cycle bit. */
  lemma Progress(s: State)
    requires Inv(s) && |s.out| < |s.items|
    ensures Ready(s) && CanConsume(s)
  {
    hide Window, CycleBit, TypeOf, LinkFlags, Bit;
    SeesIffReady(s);
  }

  /** A whole call. */
  function Enqueue(s: State, it: Item): State
    requires Shape(s) && s.pc.Idle?
  {
    var t := Produce(Produce(Produce(Produce(s, it), it), it), it);
    if t.pc.LinkParam? then Produce(Produce(Produce(t, it), it), it) else t
  }

  /** What a call leaves in the slots, and what it does not touch. */
  lemma StoredWhere(s: State, it: Item)
    requires Shape(s) && s.pc.Idle?
    ensures var t := Enqueue(s, it);
            Shape(t) && t.pc.Idle? && t.deq == s.deq && t.reader == s.reader && t.out == s.out &&
            |t.items| == |s.items| + 1 && t.ccs == s.ccs && t.phys == s.phys &&
            forall x :: 0 <= x < USABLE_TRBS ==>
              t.ring[x] == if x == s.idx then Trb(it.param, it.status, WithCycle(it.flags, s.cycle)) else s.ring[x]
  {
    hide WithCycle, LinkFlags;
  }

  lemma EnqueueKeeps(s: State, it: Item)
    requires Inv(s) && s.pc.Idle? && Safe(s) && TypeOf(it.flags) != TRB_LINK
    ensures Inv(Enqueue(s, it)) && Enqueue(s, it).items == s.items + [Plain(it)] && Enqueue(s, it).out == s.out
    ensures Enqueue(s, it).pc.Idle?
  {
    hide SlotsOk, DriverOk, LinkOk, ControllerOk, ReaderOk, TypeOf, Safe;
    var a := Produce(s, it);
    ProduceKeeps(s, it);
    var b := Produce(a, it);
    ProduceKeeps(a, it);
    var c := Produce(b, it);
    ProduceKeeps(b, it);
    var d := Produce(c, it);
    ProduceKeeps(c, it);
    if d.pc.LinkParam? {
      ProduceKeeps(d, it);
      ProduceKeeps(Produce(d, it), it);
      ProduceKeeps(Produce(Produce(d, it), it), it);
    }
  }

  /** `ring_enqueue` is safe exactly when `Safe` says so: after any other call the controller waits for ever at a
      TRB whose bit is not its own, with unread items on the ring and no safe call left. */
  lemma SafeExactly(s: State, it: Item)
    requires Inv(s) && s.pc.Idle? && s.reader.Look? && TypeOf(it.flags) != TRB_LINK
    ensures Shape(Enqueue(s, it))
    ensures CanConsume(Enqueue(s, it)) <==> Safe(s)
    ensures !Safe(s) ==> !Safe(Enqueue(s, it))
  {
    hide Window, CycleBit, TypeOf, LinkFlags, Bit, SlotOf, Round, WithCycle;
    if Safe(s) {
      EnqueueKeeps(s, it);
      Progress(Enqueue(s, it));
    } else if s.deq == USABLE_TRBS {
      ParkedIsStuck(s, it);
    } else {
      FullIsStuck(s, it);
    }
  }

  /** The controller stands on the Link, 254 items are unread: the call rewrites the Link a round too early. */
  lemma ParkedIsStuck(s: State, it: Item)
    requires Inv(s) && s.pc.Idle? && s.reader.Look? && !Safe(s) && s.deq == USABLE_TRBS
    ensures var t := Enqueue(s, it); Shape(t) && !CanConsume(t) && !Safe(t)
  {
    hide Window, TypeOf;
    LinkBits(s.cycle);
  }

  /** All 255 items are unread: the call overwrites the first of them. */
  lemma FullIsStuck(s: State, it: Item)
    requires Inv(s) && s.pc.Idle? && s.reader.Look? && !Safe(s) && s.deq < USABLE_TRBS
    ensures var t := Enqueue(s, it); Shape(t) && !CanConsume(t) && !Safe(t)
  {
    hide Window, TypeOf, LinkFlags, WithCycle, Enqueue, LinkOk, ReaderOk;
    SlotsApart(|s.out|, |s.items|, USABLE_TRBS);
    CycleIsLowest(it.flags, s.cycle);
    StoredWhere(s, it);
  }

  // ---------------------------------------------------------------- a call while the controller is reading

  /** The controller's remaining reads of the TRB it has begun. */
  function Finish(s: State): State
    requires Shape(s) && !s.reader.Look?
  {
    if s.reader.GotFlags? then Consume(Consume(s)) else Consume(s)
  }

  /** Flags of the old item, and of the new one what was not read yet. */
  function Mixed(was: Item, it: Item, reader: Reader): Item {
    Item(if reader.GotFlags? then it.param else was.param, it.status, was.flags)
  }

  /** A call while the controller is between the reads of a TRB: with a slot free it reads its item whole; with
      all 255 taken it reads words of the old item and words of the new one. */
  lemma TornExactly(s: State, it: Item)
    requires Inv(s) && s.pc.Idle? && !s.reader.Look? && s.deq < USABLE_TRBS && TypeOf(it.flags) != TRB_LINK
    ensures |s.out| < |s.items| && Shape(Enqueue(s, it)) && Enqueue(s, it).reader == s.reader
    ensures Finish(Enqueue(s, it)).out ==
            s.out + [if |s.items| < |s.out| + USABLE_TRBS then s.items[|s.out|]
              else Mixed(s.items[|s.out|], it, s.reader)]
  {
    hide Window, Bit, WithCycle, CycleBit, LinkFlags, TypeOf, Round;
    SeesIffReady(s);
    SlotsApart(|s.out|, |s.items|, USABLE_TRBS);
    StoredWhere(s, it);
    StampBits(s.items[|s.out|], s.ccs);
    PlainAgain(s.items[|s.out|]);
  }

  /** Inside the Link TRB no call harms it: it goes back to the first TRB and toggles, as it would have. */
  lemma LinkReadWhole(s: State, it: Item)
    requires Inv(s) && s.pc.Idle? && !s.reader.Look? && s.deq == USABLE_TRBS
    ensures Shape(Enqueue(s, it)) && Enqueue(s, it).reader == s.reader
    ensures var t := Finish(Enqueue(s, it));
            t.deq == 0 && t.ccs == 1 - s.ccs && t.turns == s.turns + 1 && t.out == s.out
  {
    hide Window, WithCycle, SlotOf, Round, CycleBit;
    LinkBits(1 - Bit(Handed(s)));
  }

  /** The ring after `n` calls, the controller not having moved. */
  function Filled(phys: nat, n: nat): (s: State)
    ensures Shape(s) && s.pc.Idle?
  {
    if n == 0 then Init(phys)
    else
      StoredWhere(Filled(phys, n - 1), Item(0, 0, 0));
      Enqueue(Filled(phys, n - 1), Item(0, 0, 0))
  }

  lemma {:induction false} FilledIs(phys: nat, n: nat)
    requires n <= USABLE_TRBS
    ensures var s := Filled(phys, n);
            Inv(s) && |s.items| == n && s.out == [] && s.reader.Look? && s.deq == 0 && forall k :: 0 <= k < n ==>
              s.items[k] == Item(0, 0, 0)
  {
    hide Enqueue, Inv, TypeOf, WithCycle;
    if n == 0 {
      InitInv(phys);
    } else {
      FilledIs(phys, n - 1);
      NoLink();
      StoredWhere(Filled(phys, n - 1), Item(0, 0, 0));
      EnqueueKeeps(Filled(phys, n - 1), Item(0, 0, 0));
      ZeroStamp();
    }
  }

  /** It happens: 255 safe calls, the controller reads the flags of the first TRB, and one call more. */
  lemma TornHappens(phys: nat)
    ensures var s := Consume(Filled(phys, USABLE_TRBS));
            Inv(s) && s.pc.Idle? && s.reader.GotFlags? && s.items[0] == Item(0, 0, 0) &&
            Shape(Enqueue(s, Item(7, 0, 0))) && !Enqueue(s, Item(7, 0, 0)).reader.Look? &&
            Finish(Enqueue(s, Item(7, 0, 0))).out == [Item(7, 0, 0)]
  {
    hide Enqueue, Inv, TypeOf, Finish, CycleBit;
    var f := Filled(phys, USABLE_TRBS);
    FilledIs(phys, USABLE_TRBS);
    Progress(f);
    ConsumeKeeps(f);
    NoLink();
    TornExactly(Consume(f), Item(7, 0, 0));
  }

  /** The controller's three reads of one TRB. */
  function Turn(s: State): (t: State)
    requires Shape(s)
    ensures Shape(t) && t.pc == s.pc
  {
    Consume(Consume(Consume(s)))
  }

  lemma TurnReads(s: State)
    requires Inv(s) && s.reader.Look? && s.deq < USABLE_TRBS && |s.out| < |s.items|
    ensures var t := Turn(s);
            Inv(t) && t.reader.Look? && t.deq == s.deq + 1 && t.items == s.items && |t.out| == |s.out| + 1
  {
    hide Window, SlotOf, Round, CycleBit, TypeOf, Stamp, LinkFlags, WithCycle, Bit;
    Progress(s);
    ConsumeKeeps(s);
    var t := Consume(Consume(s));
    ConsumeKeeps(Consume(s));
    SeesIffReady(t);
    TakeItem(t);
  }

  /** The ring after 255 calls and `n` turns of the controller. */
  function Drained(phys: nat, n: nat): (s: State)
    ensures Shape(s) && s.pc.Idle?
  {
    if n == 0 then Filled(phys, USABLE_TRBS) else Turn(Drained(phys, n - 1))
  }

  lemma {:induction false} DrainedIs(phys: nat, n: nat)
    requires n <= USABLE_TRBS
    ensures var s := Drained(phys, n);
            Inv(s) && s.reader.Look? && s.deq == n == |s.out| && |s.items| == USABLE_TRBS
  {
    hide Inv, Turn;
    if n == 0 {
      FilledIs(phys, USABLE_TRBS);
    } else {
      DrainedIs(phys, n - 1);
      TurnReads(Drained(phys, n - 1));
    }
  }

  /** The controller has read all 255 and has not looked at the Link yet; `n` calls follow. */
  function Refilled(phys: nat, n: nat): (s: State)
    ensures Shape(s) && s.pc.Idle?
  {
    if n == 0 then Drained(phys, USABLE_TRBS)
    else
      StoredWhere(Refilled(phys, n - 1), Item(0, 0, 0));
      Enqueue(Refilled(phys, n - 1), Item(0, 0, 0))
  }

  /** The first 254 of them are safe. */
  lemma {:induction false} RefilledIs(phys: nat, n: nat)
    requires n < USABLE_TRBS
    ensures var s := Refilled(phys, n);
            Inv(s) && s.reader.Look? && s.deq == USABLE_TRBS == |s.out| && |s.items| == USABLE_TRBS + n
    ensures n + 1 < USABLE_TRBS ==> Safe(Refilled(phys, n))
  {
    hide Enqueue, Inv, TypeOf, WithCycle;
    if n == 0 {
      DrainedIs(phys, USABLE_TRBS);
    } else {
      RefilledIs(phys, n - 1);
      NoLink();
      StoredWhere(Refilled(phys, n - 1), Item(0, 0, 0));
      EnqueueKeeps(Refilled(phys, n - 1), Item(0, 0, 0));
    }
  }

  /** So a run of safe calls leads to a state in which a call is not safe though a slot is free. */
  lemma ParkedHappens(phys: nat, it: Item)
    requires TypeOf(it.flags) != TRB_LINK
    ensures var s := Refilled(phys, USABLE_TRBS - 1);
            Inv(s) && |s.items| == |s.out| + USABLE_TRBS - 1 && !Safe(s) && Shape(Enqueue(s, it)) &&
            !CanConsume(Enqueue(s, it))
  {
    hide TypeOf, Inv, Enqueue, CanConsume;
    RefilledIs(phys, USABLE_TRBS - 1);
    ParkedIsStuck(Refilled(phys, USABLE_TRBS - 1), it);
  }

  lemma ZeroStamp()
    ensures WithCycle(0, 0) == 0 && WithCycle(0, 1) == 1
  {
    hide WithCycle;
    CycleIsLowest(0, 0);
    CycleIsLowest(0, 1);
  }

  lemma NoLink()
    ensures TypeOf(0) == 0
  {}
}
