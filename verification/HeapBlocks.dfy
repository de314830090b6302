/** The heap seen from outside: a set of live blocks. Every step of the heap adds, removes or resizes one
    block of this set, and the blocks of the set never overlap. */
module HeapBlocks {
  import opened Bytes
  import opened HeapLayout
  import opened HeapFacts

  ghost predicate HasBlock(rs: seq<Reg>, i: nat, j: nat, b: Blk) {
    i < |rs| && j < |rs[i].blocks| && rs[i].blocks[j] == b
  }

  ghost function LiveBlocks(rs: seq<Reg>): (s: set<Blk>)
    ensures forall b :: b in s <==> exists i: nat, j: nat :: HasBlock(rs, i, j, b)
  {
    var s := set i: nat, j: nat | i < |rs| && j < |rs[i].blocks| && HasBlock(rs, i, j, rs[i].blocks[j]) ::
      rs[i].blocks[j];
    assert forall i: nat, j: nat, b :: HasBlock(rs, i, j, b) ==> b in s;
    s
  }

  ghost predicate Disjoint(b: Blk, c: Blk) {
    BlkEnd(b) <= c.addr || BlkEnd(c) <= b.addr
  }

  /** Headers and payloads of different live blocks never overlap, payloads are 16-byte aligned, and each
      block lies inside one region, after the region's own header. */
  lemma LiveBlocksApart(rs: seq<Reg>)
    requires Geometry(rs)
    ensures forall b, c :: b in LiveBlocks(rs) && c in LiveBlocks(rs) && b != c ==> Disjoint(b, c)
    ensures forall b :: b in LiveBlocks(rs) ==> BlkOk(b) && exists i: nat :: InsideRegion(rs, i, b)
  {
    hide Geometry, LiveBlocks, BlkOk, Disjoint;
    forall b, c | b in LiveBlocks(rs) && c in LiveBlocks(rs) && b != c ensures Disjoint(b, c) {
      LivePairApart(rs, b, c);
    }
    forall b | b in LiveBlocks(rs) ensures BlkOk(b) && exists i: nat :: InsideRegion(rs, i, b) {
      LiveInside(rs, b);
    }
  }

  ghost predicate InsideRegion(rs: seq<Reg>, i: nat, b: Blk) {
    i < |rs| && rs[i].addr + HEADER <= b.addr && BlkEnd(b) <= RegEnd(rs[i])
  }

  lemma LivePairApart(rs: seq<Reg>, b: Blk, c: Blk)
    requires Geometry(rs) && b in LiveBlocks(rs) && c in LiveBlocks(rs) && b != c
    ensures Disjoint(b, c)
  {
    hide Geometry, LiveBlocks;
    var i: nat, j: nat :| HasBlock(rs, i, j, b);
    var k: nat, l: nat :| HasBlock(rs, k, l, c);
    BlocksApart(rs, i, j, k, l);
  }

  lemma LiveInside(rs: seq<Reg>, b: Blk)
    requires Geometry(rs) && b in LiveBlocks(rs)
    ensures BlkOk(b) && exists i: nat :: InsideRegion(rs, i, b)
  {
    hide LiveBlocks;
    var i: nat, j: nat :| HasBlock(rs, i, j, b);
    assert RegOk(rs[i]) && BlkOk(rs[i].blocks[j]);
    BlockInside(rs[i], j);
    assert InsideRegion(rs, i, b);
  }

  lemma InsertedLive(rs: seq<Reg>, i: nat, k: nat, b: Blk)
    requires i < |rs| && k <= |rs[i].blocks|
    ensures LiveBlocks(rs[i := Inserted(rs[i], k, b)]) == LiveBlocks(rs) + {b}
  {
    var qs := rs[i := Inserted(rs[i], k, b)];
    assert HasBlock(qs, i, k, b);
    forall x ensures x in LiveBlocks(qs) <==> x in LiveBlocks(rs) + {b} {
      if x in LiveBlocks(rs) {
        var l: nat, m: nat :| HasBlock(rs, l, m, x);
        assert HasBlock(qs, l, if l == i && m >= k then m + 1 else m, x);
      }
      if x in LiveBlocks(qs) && x != b {
        var l: nat, m: nat :| HasBlock(qs, l, m, x);
        assert HasBlock(rs, l, if l == i && m > k then m - 1 else m, x);
      }
    }
  }

  lemma FreedLive(rs: seq<Reg>, i: nat, j: nat)
    requires Geometry(rs) && i < |rs| && j < |rs[i].blocks|
    ensures LiveBlocks(AfterFree(rs, i, j)) == LiveBlocks(rs) - {rs[i].blocks[j]}
  {
    var b, qs := rs[i].blocks[j], AfterFree(rs, i, j);
    forall x ensures x in LiveBlocks(qs) <==> x in LiveBlocks(rs) - {b} {
      if x in LiveBlocks(rs) && x != b {
        var l: nat, m: nat :| HasBlock(rs, l, m, x);
        FreedKeeps(rs, i, j, l, m, x);
      }
      if x in LiveBlocks(qs) {
        var l: nat, m: nat :| HasBlock(qs, l, m, x);
        FreedCameFrom(rs, i, j, l, m, x);
      }
    }
  }

  lemma FreedKeeps(rs: seq<Reg>, i: nat, j: nat, l: nat, m: nat, x: Blk)
    requires i < |rs| && j < |rs[i].blocks| && HasBlock(rs, l, m, x) && x != rs[i].blocks[j]
    ensures x in LiveBlocks(AfterFree(rs, i, j))
  {
    var qs := AfterFree(rs, i, j);
    if |rs[i].blocks| == 1 {
      assert HasBlock(qs, if l < i then l else l - 1, m, x);
    } else {
      assert HasBlock(qs, l, if l == i && m > j then m - 1 else m, x);
    }
  }

  lemma FreedCameFrom(rs: seq<Reg>, i: nat, j: nat, l: nat, m: nat, x: Blk)
    requires Geometry(rs) && i < |rs| && j < |rs[i].blocks| && HasBlock(AfterFree(rs, i, j), l, m, x)
    ensures x in LiveBlocks(rs) && x != rs[i].blocks[j]
  {
    hide LiveBlocks, Geometry, AfterFree;
    FreedOrigin(rs, i, j, l, m, x);
    var one := |rs[i].blocks| == 1;
    var l', m' := if one && l >= i then l + 1 else l, if !one && l == i && m >= j then m + 1 else m;
    assert HasBlock(rs, l', m', x);
    BlocksApart(rs, l', m', i, j);
  }

  lemma FreedOrigin(rs: seq<Reg>, i: nat, j: nat, l: nat, m: nat, x: Blk)
    requires i < |rs| && j < |rs[i].blocks| && HasBlock(AfterFree(rs, i, j), l, m, x)
    ensures var one := |rs[i].blocks| == 1;
            var l', m' := if one && l >= i then l + 1 else l, if !one && l == i && m >= j then m + 1 else m;
            HasBlock(rs, l', m', x) && (l' != i || m' != j)
  {}

  lemma ResizedLive(rs: seq<Reg>, i: nat, j: nat, n: nat)
    requires Geometry(rs) && i < |rs| && j < |rs[i].blocks|
    ensures var b := rs[i].blocks[j];
            LiveBlocks(Resized(rs, i, j, n)) == LiveBlocks(rs) - {b} + {b.(req := n)}
  {
    var b, qs := rs[i].blocks[j], Resized(rs, i, j, n);
    assert HasBlock(qs, i, j, b.(req := n));
    forall x ensures x in LiveBlocks(qs) <==> x in LiveBlocks(rs) - {b} + {b.(req := n)} {
      if x in LiveBlocks(rs) && x != b {
        var l: nat, m: nat :| HasBlock(rs, l, m, x);
        assert HasBlock(qs, l, m, x);
      }
      if x in LiveBlocks(qs) && x != b.(req := n) {
        var l: nat, m: nat :| HasBlock(qs, l, m, x);
        assert HasBlock(rs, l, m, x);
        BlocksApart(rs, l, m, i, j);
        assert RegOk(rs[i]) && BlkOk(rs[i].blocks[j]);
      }
    }
  }

  lemma PlacedNewLive(before: seq<Reg>, after: seq<Reg>, p: nat, payload: nat, req: nat)
    requires PlacedNew(before, after, p, payload, req)
    ensures LiveBlocks(after) == LiveBlocks(before) + {Blk(p - HEADER, payload, req)}
    ensures Geometry(after) ==> forall c :: c in LiveBlocks(before) ==> Disjoint(Blk(p - HEADER, payload, req), c)
  {
    var b := Blk(p - HEADER, payload, req);
    var pages: nat :| after == WithNewRegion(before, pages, p, payload, req);
    assert HasBlock(after, |before|, 0, b);
    forall c | c in LiveBlocks(before) ensures c in LiveBlocks(after) && (Geometry(after) ==> Disjoint(b, c)) {
      var l: nat, m: nat :| HasBlock(before, l, m, c);
      assert HasBlock(after, l, m, c);
      if Geometry(after) { BlocksApart(after, |before|, 0, l, m); }
    }
    forall x | x in LiveBlocks(after) && x != b ensures x in LiveBlocks(before) {
      var l: nat, m: nat :| HasBlock(after, l, m, x);
      assert HasBlock(before, l, m, x);
    }
  }

  lemma PlacedInLive(before: seq<Reg>, after: seq<Reg>, i: nat, p: nat, payload: nat, req: nat)
    requires PlacedIn(before, after, i, p, payload, req)
    ensures LiveBlocks(after) == LiveBlocks(before) + {Blk(p - HEADER, payload, req)}
    ensures Geometry(after) ==> forall c :: c in LiveBlocks(before) ==> Disjoint(Blk(p - HEADER, payload, req), c)
  {
    hide LiveBlocks, Geometry, Inserted, GapStart, Disjoint, NoGap;
    var b := Blk(p - HEADER, payload, req);
    var k: nat :| FirstGap(before[i], k, HEADER + payload) && p == GapStart(before[i], k) + HEADER &&
                  after == before[i := Inserted(before[i], k, b)];
    InsertedLive(before, i, k, b);
    if Geometry(after) {
      forall c | c in LiveBlocks(before) ensures Disjoint(b, c) { InsertedApart(before, after, i, k, b, c); }
    }
  }

  /** A block put into a gap overlaps no other. */
  lemma InsertedApart(before: seq<Reg>, after: seq<Reg>, i: nat, k: nat, b: Blk, c: Blk)
    requires i < |before| && k <= |before[i].blocks| && after == before[i := Inserted(before[i], k, b)]
    requires Geometry(after) && c in LiveBlocks(before)
    ensures Disjoint(b, c)
  {
    hide Geometry;
    var l: nat, m: nat :| HasBlock(before, l, m, c);
    BlocksApart(after, i, k, l, if l == i && m >= k then m + 1 else m);
  }

  lemma PlacedLive(before: seq<Reg>, after: seq<Reg>, hint: nat, p: nat, payload: nat, req: nat)
    requires Placed(before, after, hint, p, payload, req)
    ensures p >= HEADER && LiveBlocks(after) == LiveBlocks(before) + {Blk(p - HEADER, payload, req)}
    ensures Geometry(after) ==> forall c :: c in LiveBlocks(before) ==> Disjoint(Blk(p - HEADER, payload, req), c)
  {
    if NoGaps(before, HEADER + payload) && PlacedNew(before, after, p, payload, req) {
      PlacedNewLive(before, after, p, payload, req);
    } else {
      var i: nat :| PlacedIn(before, after, i, p, payload, req);
      PlacedInLive(before, after, i, p, payload, req);
    }
  }

  /** The block made at `p` overlaps none of the blocks that were live before. */
  ghost predicate Fresh(before: set<Blk>, p: nat, n: nat) {
    forall b, c :: b in Made(p, n) && c in before ==> Disjoint(b, c)
  }

  lemma FreshPayload(before: set<Blk>, p: nat, n: nat)
    requires p >= HEADER && Fresh(before, p, n)
    ensures forall c :: c in before ==> Payload(c) != p
  {
    var b := Blk(p - HEADER, AlignUp(n), n);
    assert b in Made(p, n);
    forall c | c in before ensures Payload(c) != p { assert Disjoint(b, c); }
  }

  ghost predicate OnePerAddress(live: set<Blk>) {
    forall b, c :: b in live && c in live && Payload(b) == Payload(c) ==> b == c
  }

  /** `held` lists the payload addresses of the blocks, each once. */
  ghost predicate Lists(held: seq<nat>, live: set<Blk>) {
    (forall b :: b in live ==> Payload(b) in held) &&
    (forall p :: p in held ==> exists b :: b in live && Payload(b) == p) &&
    (forall i: nat, j: nat :: i < j < |held| ==> held[i] != held[j])
  }

  lemma ListsAdded(held: seq<nat>, live: set<Blk>, b: Blk)
    requires Lists(held, live) && forall c :: c in live ==> Payload(c) != Payload(b)
    ensures Lists(held + [Payload(b)], live + {b})
  {
    var now := held + [Payload(b)];
    forall j: nat | j < |held| ensures held[j] != Payload(b) {
      assert held[j] in held;
    }
    forall p | p in now ensures exists c :: c in live + {b} && Payload(c) == p {
      if p in held { var c :| c in live && Payload(c) == p; assert c in live + {b}; } else { assert b in live + {b}; }
    }
  }

  lemma ListsRemoved(held: seq<nat>, live: set<Blk>, i: nat, b: Blk)
    requires Lists(held, live) && OnePerAddress(live) && i < |held| && b in live && Payload(b) == held[i]
    ensures Lists(held[..i] + held[i + 1..], live - {b})
  {
    var now := held[..i] + held[i + 1..];
    forall c | c in live - {b} ensures Payload(c) in now {
      var j :| 0 <= j < |held| && held[j] == Payload(c);
      assert now[if j < i then j else j - 1] == Payload(c);
    }
    forall p | p in now ensures exists c :: c in live - {b} && Payload(c) == p {
      var j :| 0 <= j < |now| && now[j] == p;
      assert held[if j < i then j else j + 1] == p && p in held;
      var c :| c in live && Payload(c) == p;
      assert c in live - {b};
    }
  }

  lemma ListsNothing(live: set<Blk>)
    requires Lists([], live)
    ensures live == {}
  {
    assert forall b :: b in live ==> Payload(b) in [];
  }

  lemma SomeLive(rs: seq<Reg>)
    requires rs != [] && rs[0].blocks != []
    ensures LiveBlocks(rs) != {}
  {
    assert HasBlock(rs, 0, 0, rs[0].blocks[0]);
    assert rs[0].blocks[0] in LiveBlocks(rs);
  }

  lemma ListsResized(held: seq<nat>, live: set<Blk>, b: Blk, n: nat)
    requires Lists(held, live) && b in live
    ensures Lists(held, live - {b} + {b.(req := n)})
  {
    var now := live - {b} + {b.(req := n)};
    forall p | p in held ensures exists c :: c in now && Payload(c) == p {
      var c :| c in live && Payload(c) == p;
      assert (if c == b then b.(req := n) else c) in now;
    }
  }

  /** What an allocation of `n` bytes that returned `p` added to the live blocks. */
  ghost function Made(p: nat, n: nat): set<Blk> {
    if p < HEADER then {} else {Blk(p - HEADER, AlignUp(n), n)}
  }

  /** The payload of `b` holds the same bytes in both memories. */
  ghost predicate SamePayload(b: Blk, m: nat -> byte, m': nat -> byte) {
    forall x: nat :: Payload(b) <= x < BlkEnd(b) ==> m'(x) == m(x)
  }

  lemma IntactPayloads(rs: seq<Reg>, m: nat -> byte, m': nat -> byte)
    requires Intact(rs, m, m')
    ensures forall b :: b in LiveBlocks(rs) ==> SamePayload(b, m, m')
  {
    forall b | b in LiveBlocks(rs) ensures SamePayload(b, m, m') {
      var i: nat, j: nat :| HasBlock(rs, i, j, b);
      forall x: nat | Payload(b) <= x < BlkEnd(b) ensures m'(x) == m(x) { assert PayloadByte(rs, i, j, x); }
    }
  }

  lemma ListsIndex(held: seq<nat>, live: set<Blk>, i: nat)
    requires Lists(held, live) && i < |held|
    ensures held[i] in held && exists b :: b in live && Payload(b) == held[i]
  {
    assert held[i] in held;
  }

  /** What a client holds after resizing the block it holds at `i`. */
  lemma ListsAfter(held: seq<nat>, live: set<Blk>, i: nat, b: Blk, n: nat, p: nat, now: set<Blk>)
    requires Lists(held, live) && OnePerAddress(live) && i < |held| && b in live && Payload(b) == held[i]
    requires if n == 0 then p == 0 && now == live - {b}
             else if n <= b.req then p == held[i] && now == live - {b} + {b.(req := n)}
             else if p == 0 then now == live
             else p >= HEADER && Fresh(live, p, n) && now == live - {b} + Made(p, n)
    ensures Lists(if n == 0 then held[..i] + held[i + 1..]
                  else if p == 0 || p == held[i] then held
                  else held[..i] + held[i + 1..] + [p], now)
  {
    hide Lists, Fresh, OnePerAddress;
    ListsRemoved(held, live, i, b);
    ListsResized(held, live, b, n);
    if n > b.req && p != 0 {
      FreshPayload(live, p, n);
      ListsAdded(held[..i] + held[i + 1..], live - {b}, Blk(p - HEADER, AlignUp(n), n));
    }
  }
}
