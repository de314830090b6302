/** `ring_init` and `ring_enqueue` as the driver runs them, on a ring in memory. */
module XhciDriver {
  import opened XhciSlots
  import opened XhciRing

  class TrbRing {
    const trbs: array<Trb>
    const phys: nat
    var idx: nat
    var cycle: nat

    /** The driver's side of the machine, between two calls. */
    ghost predicate Shows(s: State)
      reads this, trbs
    {
      Shape(s) && trbs[..] == s.ring && phys == s.phys && idx == s.idx && cycle == s.cycle && s.pc.Idle?
    }

    /** `ring_init`; the callers then set index 0 and cycle 1. */
    constructor (ringPhys: nat)
      ensures fresh(trbs) && phys == ringPhys && Shows(Init(ringPhys))
    {
      trbs := new Trb[RING_TRBS](_ => Trb(0, 0, 0));
      phys, idx, cycle := ringPhys, 0, 1;
      new;
      trbs[USABLE_TRBS] := Trb(ringPhys, 0, TRB_LINK * 1024 + TRB_TC);
      assert trbs[..] == FreshRing(ringPhys);
    }

    /** `ring_enqueue`: the stores of one whole call, in the order the machine does them one by one. */
    method Enqueue(param: nat, status: nat, flags: nat, ghost s: State)
      requires Shows(s)
      modifies this, trbs
      ensures Shows(XhciRing.Enqueue(s, Item(param, status, flags)))
    {
      hide WithCycle, LinkFlags;
      ghost var it := Item(param, status, flags);
      trbs[idx] := trbs[idx].(param := param);
      trbs[idx] := trbs[idx].(status := status);
      trbs[idx] := trbs[idx].(flags := WithCycle(flags, cycle));
      ghost var a := Produce(Produce(Produce(Produce(s, it), it), it), it);
      assert trbs[..] == a.ring;
      idx := idx + 1;
      if idx >= USABLE_TRBS {
        trbs[USABLE_TRBS] := trbs[USABLE_TRBS].(param := phys);
        trbs[USABLE_TRBS] := trbs[USABLE_TRBS].(status := 0);
        trbs[USABLE_TRBS] := trbs[USABLE_TRBS].(flags := LinkFlags(cycle));
        assert trbs[..] == Produce(Produce(Produce(a, it), it), it).ring;
        idx := 0;
        cycle := 1 - cycle;
      }
    }
  }
}
