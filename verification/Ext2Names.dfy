/** What the records of a directory mean: a finite map from names to inode numbers. The records are taken in
    the order the scans meet them, so where a name occurs twice the first one counts. */
module Ext2Names {
  import opened Ext2Records

  predicate Matches(r: Rec, name: Name) { r.ino != 0 && r.name == name }

  /** The first record in use with this name, as the scan of `find_dir_entry` finds it; 0 if there is none. */
  function Lookup(recs: seq<Rec>, name: Name): nat {
    if recs == [] then 0
    else if Matches(recs[0], name) then recs[0].ino
    else Lookup(recs[1..], name)
  }

  /** The map a directory stands for. */
  function Names(recs: seq<Rec>): map<Name, nat> {
    if recs == [] then map[]
    else
      var m := Names(recs[1..]);
      if recs[0].ino != 0 then m[recs[0].name := recs[0].ino] else m
  }

  /** No name occurs twice. */
  predicate Unique(recs: seq<Rec>) {
    recs == [] || (Unique(recs[1..]) && (recs[0].ino != 0 ==> recs[0].name !in Names(recs[1..])))
  }

  /** The inodes of the records named "..", free records included, in order. */
  function Parents(recs: seq<Rec>): seq<nat> {
    if recs == [] then []
    else (if recs[0].name == DOTDOT_NAME then [recs[0].ino] else []) + Parents(recs[1..])
  }

  lemma {:induction false} LookupIsNames(recs: seq<Rec>, name: Name)
    ensures Lookup(recs, name) == if name in Names(recs) then Names(recs)[name] else 0
    ensures name in Names(recs) ==> Names(recs)[name] != 0
  {
    if recs != [] { LookupIsNames(recs[1..], name); }
  }

  lemma {:induction false} NamesSplit(x: seq<Rec>, y: seq<Rec>)
    ensures Names(x + y) == Names(y) + Names(x)
  {
    if x == [] {
      assert x + y == y;
    } else {
      assert (x + y)[1..] == x[1..] + y;
      NamesSplit(x[1..], y);
    }
  }

  lemma {:induction false} UniqueSplit(x: seq<Rec>, y: seq<Rec>)
    ensures Unique(x + y) <==> Unique(x) && Unique(y) && Names(x).Keys !! Names(y).Keys
  {
    if x == [] {
      assert x + y == y;
    } else {
      assert (x + y)[1..] == x[1..] + y;
      UniqueSplit(x[1..], y);
      NamesSplit(x[1..], y);
    }
  }

  lemma {:induction false} ParentsSplit(x: seq<Rec>, y: seq<Rec>)
    ensures Parents(x + y) == Parents(x) + Parents(y)
  {
    if x == [] {
      assert x + y == y;
    } else {
      assert (x + y)[1..] == x[1..] + y;
      ParentsSplit(x[1..], y);
    }
  }

  lemma {:induction false} LookupSplit(x: seq<Rec>, y: seq<Rec>, name: Name)
    ensures Lookup(x + y, name) == if Lookup(x, name) != 0 then Lookup(x, name) else Lookup(y, name)
  {
    if x == [] {
      assert x + y == y;
    } else {
      assert (x + y)[1..] == x[1..] + y;
      LookupSplit(x[1..], y, name);
    }
  }

  // ---------------------------------------------------------------- one run of records replaced

  /** A run that gains one name that the directory did not hold. */
  lemma InsertName(pre: seq<Rec>, mid: seq<Rec>, mid': seq<Rec>, post: seq<Rec>, name: Name, ino: nat)
    requires Unique(pre + mid + post) && name !in Names(pre + mid + post)
    requires Unique(mid') && Names(mid') == Names(mid)[name := ino]
    ensures Unique(pre + mid' + post) && Names(pre + mid' + post) == Names(pre + mid + post)[name := ino]
  {
    hide Names, Unique;
    NamesSplit(pre + mid, post);
    NamesSplit(pre, mid);
    NamesSplit(pre + mid', post);
    NamesSplit(pre, mid');
    UniqueSplit(pre + mid, post);
    UniqueSplit(pre, mid);
    UniqueSplit(pre + mid', post);
    UniqueSplit(pre, mid');
  }

  /** A run that loses one of its names. */
  lemma RemoveName(pre: seq<Rec>, mid: seq<Rec>, mid': seq<Rec>, post: seq<Rec>, name: Name)
    requires Unique(pre + mid + post) && name in Names(mid)
    requires Unique(mid') && Names(mid') == Names(mid) - {name}
    ensures Unique(pre + mid' + post) && Names(pre + mid' + post) == Names(pre + mid + post) - {name}
  {
    hide Names, Unique;
    NamesSplit(pre + mid, post);
    NamesSplit(pre, mid);
    NamesSplit(pre + mid', post);
    NamesSplit(pre, mid');
    UniqueSplit(pre + mid, post);
    UniqueSplit(pre, mid);
    UniqueSplit(pre + mid', post);
    UniqueSplit(pre, mid');
  }

  predicate HasParent(recs: seq<Rec>) { Parents(recs) != [] && Parents(recs)[0] != 0 }

  /** The parent is what the map says of "..". */
  lemma {:induction false} ParentIsName(recs: seq<Rec>)
    requires HasParent(recs)
    ensures DOTDOT_NAME in Names(recs) && Names(recs)[DOTDOT_NAME] == Parents(recs)[0]
  {
    if recs[0].name != DOTDOT_NAME { ParentIsName(recs[1..]); }
  }

  /** Replacing a run keeps the parent entry, if the run keeps its ".." records or had only free ones. */
  lemma ParentKept(pre: seq<Rec>, mid: seq<Rec>, mid': seq<Rec>, post: seq<Rec>)
    requires HasParent(pre + mid + post)
    requires Parents(mid') == Parents(mid) || (Parents(mid) == [0] && Parents(mid') == [])
    ensures HasParent(pre + mid' + post) && Parents(pre + mid' + post)[0] == Parents(pre + mid + post)[0]
  {
    hide Parents;
    ParentsSplit(pre + mid, post);
    ParentsSplit(pre, mid);
    ParentsSplit(pre + mid', post);
    ParentsSplit(pre, mid');
  }

  // ---------------------------------------------------------------- the four changes the kernel makes

  lemma OneRec(r: Rec)
    ensures Unique([r]) && Names([r]) == (if r.ino != 0 then map[r.name := r.ino] else map[])
    ensures Parents([r]) == if r.name == DOTDOT_NAME then [r.ino] else []
  {
    assert [r][1..] == [];
  }

  lemma TwoRecs(r: Rec, s: Rec)
    ensures Names([r, s]) == Names([s]) + Names([r]) && Parents([r, s]) == Parents([r]) + Parents([s])
    ensures Unique([r, s]) <==> Names([r]).Keys !! Names([s]).Keys
  {
    hide Names, Unique, Parents;
    assert [r, s] == [r] + [s];
    OneRec(r);
    OneRec(s);
    NamesSplit([r], [s]);
    UniqueSplit([r], [s]);
    ParentsSplit([r], [s]);
  }

  /** A free record is taken. */
  lemma ReuseIs(r: Rec, n: Rec)
    requires r.ino == 0 && n.ino != 0 && n.name != DOTDOT_NAME
    ensures Unique([n]) && Names([n]) == Names([r])[n.name := n.ino]
    ensures Parents([n]) == Parents([r]) || (Parents([r]) == [0] && Parents([n]) == [])
  {
    OneRec(r);
    OneRec(n);
  }

  /** The slack behind a record becomes a new record. */
  lemma SplitIs(r: Rec, len: nat, n: Rec)
    requires n.ino != 0 && n.name != DOTDOT_NAME && n.name !in Names([r])
    ensures var mid' := [r.(len := len), n];
            Unique(mid') && Names(mid') == Names([r])[n.name := n.ino] && Parents(mid') == Parents([r])
  {
    hide Names, Parents, Unique;
    OneRec(r);
    OneRec(n);
    OneRec(r.(len := len));
    TwoRecs(r.(len := len), n);
  }

  /** A record becomes slack of the one before it. */
  lemma MergeIs(p: Rec, r: Rec, len: nat)
    requires r.ino != 0 && r.name != DOTDOT_NAME && Unique([p, r])
    ensures var mid' := [p.(len := len)];
            Unique(mid') && r.name in Names([p, r]) && Names(mid') == Names([p, r]) - {r.name} &&
            Parents(mid') == Parents([p, r])
  {
    hide Names, Parents, Unique;
    OneRec(p);
    OneRec(r);
    OneRec(p.(len := len));
    TwoRecs(p, r);
  }

  /** The first record of a block becomes free. */
  lemma FreeFirstIs(r: Rec)
    requires r.ino != 0 && r.name != DOTDOT_NAME
    ensures var mid' := [r.(ino := 0)];
            Unique(mid') && r.name in Names([r]) && Names(mid') == Names([r]) - {r.name} &&
              Parents(mid') == Parents([r])
  {
    OneRec(r);
    OneRec(r.(ino := 0));
  }
}
