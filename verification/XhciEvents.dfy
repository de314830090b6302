/** The event ring (xHCI specification, section 4.9.4): here the controller produces and the driver consumes, over
    256 slots without a Link TRB, and the driver reports how far it has read by writing ERDP. */
module XhciEvents {
  import opened XhciSlots

  datatype Writer = Waiting | WriteParam(it: Item) | WriteStatus(it: Item) | WriteFlags(it: Item)
  datatype Poll = Look | SawFlags | SawParam(param: nat) | Ack

  /** Memory; the controller's position and cycle; the driver's `g_event_deq` and `g_event_cycle`; how many events
      ERDP says were read; and the history. */
  datatype State = State(ring: seq<Trb>, enq: nat, pcs: nat, writer: Writer, deq: nat, cycle: nat, poll: Poll,
    acked: nat,
                         items: seq<Item>, out: seq<Item>)

  function Init(): State {
    State(seq(RING_TRBS, _ => Trb(0, 0, 0)), 0, 1, Waiting, 0, 1, Look, 0, [], [])
  }

  predicate Shape(s: State) {
    |s.ring| == RING_TRBS && s.enq < RING_TRBS && s.deq < RING_TRBS && s.pcs <= 1 && s.cycle <= 1
  }

  /** The controller begins an event only while ERDP leaves it a slot beside the one it must keep free. */
  predicate MayPost(s: State) { s.writer.Waiting? ==> |s.items| < s.acked + RING_TRBS - 1 }

  function Post(s: State, it: Item): State
    requires Shape(s)
  {
    match s.writer
    case Waiting => s.(writer := WriteParam(it))
    case WriteParam(i) => s.(ring := s.ring[s.enq := s.ring[s.enq].(param := i.param)], writer := WriteStatus(i))
    case WriteStatus(i) => s.(ring := s.ring[s.enq := s.ring[s.enq].(status := i.status)], writer := WriteFlags(i))
    case WriteFlags(i) =>
      var t := s.(ring := s.ring[s.enq := s.ring[s.enq].(flags := WithCycle(i.flags, s.pcs))], items := s.items +
        [Plain(i)],
                  writer := Waiting);
      if s.enq + 1 >= RING_TRBS then t.(enq := 0, pcs := 1 - s.pcs) else t.(enq := s.enq + 1)
  }

  /** One step of `poll_event`: the flags; the words of `*out_trb = *t`; the pointer; ERDP. */
  function Next(s: State): State
    requires Shape(s)
  {
    var t := s.ring[s.deq];
    match s.poll
    case Look => if CycleBit(t.flags) == s.cycle then s.(poll := SawFlags) else s
    case SawFlags => s.(poll := SawParam(t.param))
    case SawParam(p) =>
      var u := s.(out := s.out + [Item(p, t.status, WithCycle(t.flags, 0))], poll := Ack);
      if s.deq + 1 >= RING_TRBS then u.(deq := 0, cycle := 1 - s.cycle) else u.(deq := s.deq + 1)
    case Ack => s.(acked := |s.out|, poll := Look)
  }

  predicate Half(w: Writer) { !w.Waiting? }

  ghost predicate Inv(s: State) {
    Shape(s) && Window(s.ring, RING_TRBS, s.items, Half(s.writer)) &&
    (forall k :: 0 <= k < |s.items| ==> CycleBit(s.items[k].flags) == 0) &&
    s.acked <= |s.out| <= |s.items| < s.acked + RING_TRBS && s.out == s.items[..|s.out|] &&
    s.enq == SlotOf(|s.items|, RING_TRBS) && s.pcs == Bit(Round(|s.items|, RING_TRBS)) &&
    s.deq == SlotOf(|s.out|, RING_TRBS) && s.cycle == Bit(Round(|s.out|, RING_TRBS)) &&
    (Half(s.writer) ==> |s.items| < s.acked + RING_TRBS - 1) &&
    (s.writer.WriteStatus? || s.writer.WriteFlags? ==> s.ring[s.enq].param == s.writer.it.param) &&
    (s.writer.WriteFlags? ==> s.ring[s.enq].status == s.writer.it.status) &&
    (s.poll.SawFlags? || s.poll.SawParam? ==> |s.out| < |s.items|) &&
    (s.poll.SawParam? ==> s.poll.param == s.ring[s.deq].param)
  }

  lemma InitInv()
    ensures Inv(Init())
  {
    FirstRound(0, RING_TRBS);
  }

  /** The driver sees its cycle bit exactly when there is an unread event. */
  lemma SeesIffPosted(s: State)
    requires Inv(s)
    ensures CycleBit(s.ring[s.deq].flags) == s.cycle <==> |s.out| < |s.items|
    ensures |s.out| < |s.items| ==> s.ring[s.deq] == Stamp(s.items[|s.out|], s.cycle)
  {
    hide SlotOf, Round, CycleBit, Stamp, Bit;
    var d := |s.out|;
    if d < |s.items| {
      assert Holds(s.ring, RING_TRBS, s.items, d);
      StampBits(s.items[d], s.cycle);
    }
  }

  /** A step of the driver reads nothing, or the next event and no other. */
  lemma PollKeeps(s: State)
    requires Inv(s)
    ensures Inv(Next(s)) && Next(s).items == s.items
    ensures if s.poll.SawParam? then |s.out| < |s.items| &&
      Next(s).out == s.out + [s.items[|s.out|]] else Next(s).out == s.out
  {
    hide Window, SlotOf, Round, CycleBit, Stamp, Bit, WithCycle;
    SeesIffPosted(s);
    if s.poll.SawParam? { TakeEvent(s); }
  }

  lemma TakeEvent(s: State)
    requires Inv(s) && s.poll.SawParam?
    ensures Inv(Next(s)) && |s.out| < |s.items| && Next(s).out == s.out + [s.items[|s.out|]]
  {
    hide Window, SlotOf, Round, CycleBit, Stamp, WithCycle;
    SeesIffPosted(s);
    var d := |s.out|;
    ItemRead(s.items[d], s.cycle, s.ring[s.deq]);
    NextPlace(d, RING_TRBS);
    assert s.items[..d + 1] == s.items[..d] + [s.items[d]];
  }

  /** A step of the controller posts nothing to be seen, or one event whole. */
  lemma PostKeeps(s: State, it: Item)
    requires Inv(s) && MayPost(s)
    ensures Inv(Post(s, it)) && Post(s, it).out == s.out
    ensures Post(s, it).items == if s.writer.WriteFlags? then s.items + [Plain(s.writer.it)] else s.items
  {
    hide Window, SlotOf, Round, CycleBit, Stamp, Bit, WithCycle, Plain;
    if s.writer.Waiting? {
      BeginEvent(s, it);
    } else if s.writer.WriteFlags? {
      WholeEvent(s, it);
    } else {
      HalfEvent(s, it);
    }
  }

  lemma BeginEvent(s: State, it: Item)
    requires Inv(s) && MayPost(s) && s.writer.Waiting?
    ensures Inv(Post(s, it))
  {
    hide SlotOf, Round, CycleBit, Stamp, Bit;
    forall k: nat | k < |s.items| && |s.items| < k + RING_TRBS ensures Holds(s.ring, RING_TRBS, s.items, k) {}
  }

  lemma HalfEvent(s: State, it: Item)
    requires Inv(s) && (s.writer.WriteParam? || s.writer.WriteStatus?)
    ensures Inv(Post(s, it))
  {
    hide Window, SlotOf, Round, CycleBit, Stamp, Bit;
    HalfStore(s.ring, RING_TRBS, s.items, true, Post(s, it).ring[s.enq]);
    if |s.out| < |s.items| { SlotsApart(|s.out|, |s.items|, RING_TRBS); }
  }

  lemma WholeEvent(s: State, it: Item)
    requires Inv(s) && s.writer.WriteFlags?
    ensures Inv(Post(s, it)) && Post(s, it).items == s.items + [Plain(s.writer.it)]
  {
    hide Window, SlotOf, Round, CycleBit, Stamp, WithCycle, Plain;
    var i := s.writer.it;
    PlainStamp(i, s.pcs);
    Publish(s.ring, RING_TRBS, s.items, true, Plain(i));
    assert Post(s, it).ring == s.ring[s.enq := Stamp(Plain(i), s.pcs)];
    NextPlace(|s.items|, RING_TRBS);
    if |s.out| < |s.items| { SlotsApart(|s.out|, |s.items|, RING_TRBS); }
  }

  // ---------------------------------------------------------------- runs

  datatype Action = Controller(it: Item) | Driver

  function Do(s: State, a: Action): State
    requires Shape(s)
  {
    if a.Controller? then Post(s, a.it) else Next(s)
  }

  ghost predicate IsRun(trace: seq<State>, actions: seq<Action>) {
    |trace| == |actions| + 1 &&
    forall i :: 0 <= i < |actions| ==>
      Shape(trace[i]) && (actions[i].Controller? ==> MayPost(trace[i])) && trace[i + 1] == Do(trace[i], actions[i])
  }

  /** Over every run in which the controller respects ERDP, `poll_event` has read the events in order, once each,
      whole, and none was overwritten unread. */
  lemma {:induction false} RunIsFifo(trace: seq<State>, actions: seq<Action>)
    requires IsRun(trace, actions) && trace[0] == Init()
    ensures var s := trace[|actions|]; Inv(s) && s.out <= s.items && |s.items| < |s.out| + RING_TRBS
    decreases |actions|
  {
    hide Window, SlotOf, Round, CycleBit, Bit, Shape, MayPost;
    if actions == [] {
      InitInv();
    } else {
      var n := |actions| - 1;
      RunIsFifo(trace[..n + 1], actions[..n]);
      if actions[n].Controller? { PostKeeps(trace[n], actions[n].it); } else { PollKeeps(trace[n]); }
    }
  }

  // ---------------------------------------------------------------- the driver's code

  class EventRing {
    const trbs: array<Trb>
    var deq: nat
    var cycle: nat
    ghost var acked: nat

    /** What the machine says of the driver's side, between two polls. */
    ghost predicate Shows(s: State)
      reads this, trbs
    {
      Shape(s) && trbs[..] == s.ring && deq == s.deq && cycle == s.cycle && acked == s.acked && s.poll.Look?
    }

    constructor ()
      ensures fresh(trbs) && Shows(Init())
    {
      trbs := new Trb[RING_TRBS](_ => Trb(0, 0, 0));
      deq, cycle, acked := 0, 1, 0;
      new;
      assert trbs[..] == Init().ring;
    }

    /** `poll_event`, with up to `tries` looks: the next event if there is one, and ERDP moved behind it. */
    method PollEvent(tries: nat, ghost s: State) returns (ok: bool, trb: Trb)
      requires Shows(s) && Inv(s)
      modifies this
      ensures ok == (tries > 0 && |s.out| < |s.items|)
      ensures ok ==> Item(trb.param, trb.status, WithCycle(trb.flags, 0)) == s.items[|s.out|] &&
                     Inv(Next(Next(Next(Next(s))))) && Shows(Next(Next(Next(Next(s))))) &&
                     Next(Next(Next(Next(s)))).out == s.out + [s.items[|s.out|]]
      ensures !ok ==> Shows(s)
    {
      hide Window, SlotOf, Round, Stamp, WithCycle, Bit, CycleBit;
      SeesIffPosted(s);
      trb := Trb(0, 0, 0);
      ok := false;
      var i := 0;
      while i < tries
        invariant i <= tries && !ok && Shows(s) && (i > 0 ==> |s.out| == |s.items|)
      {
        var f := trbs[deq].flags;
        if CycleBit(f) == cycle {
          FourSteps(s);
          trb := trbs[deq];
          ItemRead(s.items[|s.out|], s.cycle, trb);
          deq := deq + 1;
          if deq >= RING_TRBS {
            deq := 0;
            cycle := 1 - cycle;
          }
          acked := |s.out| + 1;
          ok := true;
          return;
        }
        i := i + 1;
      }
    }
  }

  /** The steps of one successful poll. */
  lemma FourSteps(s: State)
    requires Inv(s) && s.poll.Look? && |s.out| < |s.items|
    ensures var t := Next(Next(Next(Next(s))));
            Inv(t) && t.poll.Look? && t.ring == s.ring && t.acked == |s.out| + 1 &&
              t.out == s.out + [s.items[|s.out|]] &&
            t.deq == (if s.deq + 1 >= RING_TRBS then 0 else s.deq + 1) &&
            t.cycle == (if s.deq + 1 >= RING_TRBS then 1 - s.cycle else s.cycle)
  {
    hide Window, SlotOf, Round, Stamp, WithCycle, Bit, CycleBit;
    SeesIffPosted(s);
    PollKeeps(s);
    PollKeeps(Next(s));
    PollKeeps(Next(Next(s)));
    PollKeeps(Next(Next(Next(s))));
  }
}
