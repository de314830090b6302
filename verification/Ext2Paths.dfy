/** Paths and the tree they are resolved in. The tree is the whole meaning of a volume: each live inode is a
    file's bytes or a directory's map. */
module Ext2Paths {
  import opened Bytes
  import opened Ext2Records
  import opened Ext2State

  const SLASH: byte := 47
  const BACKSLASH: byte := 92
  const MAX_COMPONENT: nat := 63
  const MAX_PARENT: nat := 255

  predicate IsSep(c: byte) { c == SLASH || c == BACKSLASH }

  // ---------------------------------------------------------------- components

  /** How many bytes from the front are no separators, counting at most `max`. */
  function PieceLen(p: seq<byte>, max: nat): (n: nat)
    ensures n <= |p| && n <= max && forall i :: 0 <= i < n ==> !IsSep(p[i])
    ensures n < |p| && n < max ==> IsSep(p[n])
  {
    if p == [] || max == 0 || IsSep(p[0]) then 0 else 1 + PieceLen(p[1..], max - 1)
  }

  function AfterPiece(p: seq<byte>, i: nat): seq<byte> {
    if i < |p| then p[i + 1..] else []
  }

  /** The components `resolve_relative` sees: up to 63 bytes each, one byte skipped after each, empty ones
      dropped. */
  function Comps(p: seq<byte>): seq<Name>
    decreases |p|
  {
    if p == [] then []
    else
      var i := PieceLen(p, MAX_COMPONENT);
      (if i == 0 then [] else [p[..i]]) + Comps(AfterPiece(p, i))
  }

  /** Where the last component starts. */
  function LastStart(p: seq<byte>): (n: nat)
    ensures n <= |p| && (n > 0 ==> IsSep(p[n - 1])) && forall i :: n <= i < |p| ==> !IsSep(p[i])
  {
    if p == [] then 0 else if IsSep(p[|p| - 1]) then |p| else LastStart(p[..|p| - 1])
  }

  lemma {:induction false} LastStartStep(p: seq<byte>, i: nat)
    requires i < |p|
    ensures LastStart(p[..i + 1]) == if IsSep(p[i]) then i + 1 else LastStart(p[..i])
  {
    assert p[..i + 1][..i] == p[..i];
  }

  function Strip(path: seq<byte>): seq<byte> {
    if path != [] && IsSep(path[0]) then path[1..] else path
  }

  /** What `split_path` leaves of `p` before the last separator, and after it, before truncation. */
  function Front(p: seq<byte>): seq<byte> {
    p[..if LastStart(p) > 0 then LastStart(p) - 1 else 0]
  }

  function Back(p: seq<byte>): seq<byte> { p[LastStart(p)..] }

  function Cut(s: seq<byte>, max: nat): (c: seq<byte>)
    ensures |c| <= max && (|s| <= max ==> c == s)
  {
    if |s| <= max then s else s[..max]
  }

  /** The parent and the name as `split_path` cuts them. */
  function ParentPath(path: seq<byte>): seq<byte> { Cut(Front(Strip(path)), MAX_PARENT) }
  function LastName(path: seq<byte>): Name { Cut(Back(Strip(path)), MAX_COMPONENT) }

  lemma PieceLenIs(p: seq<byte>, max: nat, n: nat)
    requires n <= |p| && n <= max && (forall i :: 0 <= i < n ==> !IsSep(p[i])) && (n < |p| && n < max ==> IsSep(p[n]))
    ensures PieceLen(p, max) == n
  {}

  lemma {:induction false} CompsStep(p: seq<byte>)
    requires p != []
    ensures var i := PieceLen(p, MAX_COMPONENT);
            Comps(p) == (if i == 0 then [] else [p[..i]]) + Comps(AfterPiece(p, i))
  {
    hide PieceLen, AfterPiece;
  }

  /** A last component behind a separator is the last component, whatever comes before. Its 64th byte is dropped. */
  lemma {:induction false} CompsJoin(p: seq<byte>, sep: byte, name: Name)
    requires IsSep(sep) && 0 < |name| <= MAX_COMPONENT + 1 && forall i :: 0 <= i < |name| ==> !IsSep(name[i])
    ensures Comps(p + [sep] + name) == Comps(p) + [Cut(name, MAX_COMPONENT)]
    decreases |p|
  {
    hide Comps, PieceLen;
    var q := p + [sep] + name;
    CompsStep(q);
    if p == [] {
      PieceLenIs(q, MAX_COMPONENT, 0);
      assert AfterPiece(q, 0) == name;
      CompsOne(name);
      CompsNone();
    } else {
      CompsStep(p);
      var i := PieceLen(p, MAX_COMPONENT);
      assert forall j :: 0 <= j < i ==> q[j] == p[j];
      PieceLenIs(q, MAX_COMPONENT, i);
      assert q[..i] == p[..i];
      if i < |p| {
        assert AfterPiece(q, i) == p[i + 1..] + [sep] + name;
        CompsJoin(p[i + 1..], sep, name);
      } else {
        assert AfterPiece(q, i) == name;
        CompsOne(name);
        CompsNone();
      }
    }
  }

  lemma CompsNone()
    ensures Comps([]) == []
  {}

  lemma {:induction false} CompsOne(name: Name)
    requires 0 < |name| <= MAX_COMPONENT + 1 && forall i :: 0 <= i < |name| ==> !IsSep(name[i])
    ensures Comps(name) == [Cut(name, MAX_COMPONENT)]
  {
    hide PieceLen;
    var i := if |name| <= MAX_COMPONENT then |name| else MAX_COMPONENT;
    PieceLenIs(name, MAX_COMPONENT, i);
    CompsStep(name);
    assert name[..i] == Cut(name, MAX_COMPONENT) && AfterPiece(name, i) == [];
    CompsNone();
  }

  lemma CompsStrip(p: seq<byte>)
    requires p != [] && IsSep(p[0])
    ensures Comps(p) == Comps(p[1..])
  {
    PieceLenIs(p, MAX_COMPONENT, 0);
  }

  // ---------------------------------------------------------------- the tree

  type FsTree = map<nat, Obj>

  /** Every name leads to an inode of the tree, every directory has "." for itself and ".." for a directory, and a
      file has one name. */
  ghost predicate TreeWf(t: FsTree) {
    ROOT_INO in t && t[ROOT_INO].Dir? && 0 !in t && (forall d :: d in t ==> DirWf(t, d)) && OneName(t)
  }

  ghost predicate DirWf(t: FsTree, d: nat)
    requires d in t
  {
    t[d].Dir? ==> DotsOk(t, d, t[d].names) && forall n :: n in t[d].names ==> t[d].names[n] in t
  }

  ghost predicate DotsOk(t: FsTree, d: nat, names: map<Name, nat>) {
    DOT_NAME in names && names[DOT_NAME] == d &&
    DOTDOT_NAME in names && names[DOTDOT_NAME] in t && t[names[DOTDOT_NAME]].Dir?
  }

  ghost predicate Refers(t: FsTree, d: nat, n: Name, f: nat) {
    d in t && t[d].Dir? && n in t[d].names && t[d].names[n] == f
  }

  /** No file has two names. */
  ghost predicate OneName(t: FsTree) {
    forall d, n, e, m, f :: Refers(t, d, n, f) && Refers(t, e, m, f) && f in t && t[f].File? ==> d == e && n == m
  }

  /** One component: "." stays, ".." goes up except from the root, and a name is looked up; 0 is failure. */
  function Step(t: FsTree, cur: nat, comp: Name): nat {
    if comp == DOT_NAME then cur
    else if comp == DOTDOT_NAME && cur == ROOT_INO then cur
    else if cur in t && t[cur].Dir? && comp in t[cur].names then t[cur].names[comp]
    else 0
  }

  function Walk(t: FsTree, cur: nat, comps: seq<Name>): nat
    decreases |comps|
  {
    if comps == [] then cur
    else
      var next := Step(t, cur, comps[0]);
      if next == 0 then 0 else Walk(t, next, comps[1..])
  }

  /** ".." is only asked of directories. */
  predicate NoUpFromFile(t: FsTree, cur: nat, comps: seq<Name>)
    decreases |comps|
  {
    comps == [] ||
    (cur in t && (comps[0] == DOTDOT_NAME ==> t[cur].Dir?) &&
     (Step(t, cur, comps[0]) != 0 ==> NoUpFromFile(t, Step(t, cur, comps[0]), comps[1..])))
  }

  function Resolve(t: FsTree, start: nat, path: seq<byte>): nat {
    if path != [] && IsSep(path[0]) then Walk(t, ROOT_INO, Comps(path[1..])) else Walk(t, start, Comps(path))
  }

  /** One turn of the loop over a path. */
  lemma {:induction false} WalkPiece(t: FsTree, cur: nat, p: seq<byte>, i: nat)
    requires TreeWf(t) && cur in t && p != [] && i == PieceLen(p, MAX_COMPONENT)
    ensures i == 0 ==> Comps(p) == Comps(AfterPiece(p, i))
    ensures i > 0 ==>
              if p[..i] == DOTDOT_NAME && !t[cur].Dir? then !NoUpFromFile(t, cur, Comps(p))
              else var next := Step(t, cur, p[..i]);
                   if next == 0 then Walk(t, cur, Comps(p)) == 0 && NoUpFromFile(t, cur, Comps(p))
                   else next in t && NoUpFromFile(t, cur, Comps(p)) == NoUpFromFile(t, next, Comps(AfterPiece(p, i))) &&
                        Walk(t, cur, Comps(p)) == Walk(t, next, Comps(AfterPiece(p, i)))
  {
    hide Comps, PieceLen, TreeWf, Step, AfterPiece;
    CompsStep(p);
    if i > 0 {
      var comp, rest := p[..i], Comps(AfterPiece(p, i));
      assert Comps(p)[0] == comp && Comps(p)[1..] == rest;
      if Step(t, cur, comp) != 0 { StepInTree(t, cur, comp); }
    }
  }

  lemma StepInTree(t: FsTree, cur: nat, comp: Name)
    requires TreeWf(t) && cur in t && Step(t, cur, comp) != 0
    ensures Step(t, cur, comp) in t
  {
    assert DirWf(t, cur);
  }

  lemma {:induction false} WalkSplit(t: FsTree, cur: nat, x: seq<Name>, y: seq<Name>)
    ensures Walk(t, cur, x + y) == if x != [] && Walk(t, cur, x) == 0 then 0 else Walk(t, Walk(t, cur, x), y)
    decreases |x|
  {
    if x == [] {
      assert x + y == y;
    } else {
      assert (x + y)[1..] == x[1..] + y;
      var next := Step(t, cur, x[0]);
      if next != 0 {
        WalkSplit(t, next, x[1..], y);
      }
    }
  }

  lemma {:induction false} WalkInTree(t: FsTree, cur: nat, comps: seq<Name>)
    requires TreeWf(t) && cur in t
    ensures Walk(t, cur, comps) == 0 || Walk(t, cur, comps) in t
    decreases |comps|
  {
    if comps != [] {
      assert DirWf(t, cur);
      var next := Step(t, cur, comps[0]);
      if next != 0 { WalkInTree(t, next, comps[1..]); }
    }
  }

  /** What a directory's names are: live, never 0, and always with "..". */
  lemma NamesInOrder(t: FsTree, dir: nat, name: Name)
    requires TreeWf(t) && dir in t
    ensures t[dir].Dir? ==>
      DOTDOT_NAME in t[dir].names && (name in t[dir].names ==> t[dir].names[name] in t && t[dir].names[name] != 0)
    ensures dir != 0
  {
    hide OneName;
    assert DirWf(t, dir);
  }

  // ---------------------------------------------------------------- one new name

  /** The tree with a new inode under a new name. */
  function WithNew(t: FsTree, dir: nat, name: Name, ino: nat, obj: Obj): FsTree
    requires dir in t && t[dir].Dir?
  {
    t[dir := Dir(t[dir].names[name := ino])][ino := obj]
  }

  /** A new directory starts with itself as "." and the one it is in as "..". */
  function Dots(ino: nat, parent: nat): map<Name, nat> { map[DOT_NAME := ino, DOTDOT_NAME := parent] }

  lemma NewKeepsWf(t: FsTree, dir: nat, name: Name, ino: nat, obj: Obj)
    requires TreeWf(t) && dir in t && t[dir].Dir? && name !in t[dir].names && ino !in t && ino != 0
    requires obj.Dir? ==> obj.names == Dots(ino, dir)
    ensures TreeWf(WithNew(t, dir, name, ino, obj))
  {
    var u := WithNew(t, dir, name, ino, obj);
    forall d | d in u ensures DirWf(u, d) {
      if d != ino { assert DirWf(t, d); }
    }
    forall d, n, e, m, f | Refers(u, d, n, f) && Refers(u, e, m, f) && f in u && u[f].File? ensures d == e && n == m {
      OneNameAfterNew(t, dir, name, ino, obj, d, n, f);
      OneNameAfterNew(t, dir, name, ino, obj, e, m, f);
    }
  }

  /** A name that leads to a file is the new one, or it did so before. */
  lemma OneNameAfterNew(t: FsTree, dir: nat, name: Name, ino: nat, obj: Obj, d: nat, n: Name, f: nat)
    requires TreeWf(t) && dir in t && t[dir].Dir? && name !in t[dir].names && ino !in t
    requires obj.Dir? ==> obj.names == Dots(ino, dir)
    requires var u := WithNew(t, dir, name, ino, obj); Refers(u, d, n, f) && f in u && u[f].File?
    ensures if f == ino then d == dir && n == name else Refers(t, d, n, f) && f in t && t[f].File?
  {
    if d in t { assert DirWf(t, d); }
  }

  /** New bytes in a file keep the tree in order, and every walk. */
  lemma BytesKeepWf(t: FsTree, ino: nat, data: seq<byte>)
    requires TreeWf(t) && ino in t && t[ino].File?
    ensures TreeWf(t[ino := File(data)])
  {
    var u := t[ino := File(data)];
    forall d | d in u ensures DirWf(u, d) { assert DirWf(t, d); }
    forall d, n, e, m, f | Refers(u, d, n, f) && Refers(u, e, m, f) && f in u && u[f].File? ensures d == e && n == m {
      assert Refers(t, d, n, f) && Refers(t, e, m, f);
    }
  }

  /** Where a path is resolved from. */
  function Start(current: nat, path: seq<byte>): nat {
    if path != [] && IsSep(path[0]) then ROOT_INO else current
  }

  /** The front fits the kernel's buffer, and the last name is one component: 64 bytes at most. */
  predicate Short(path: seq<byte>) {
    |Front(Strip(path))| <= MAX_PARENT && 0 < |Back(Strip(path))| <= MAX_COMPONENT + 1
  }

  /** Resolving the whole path is walking the front part and then looking up the last name. */
  lemma {:induction false} ResolveSplit(t: FsTree, current: nat, path: seq<byte>)
    requires Short(path) && current != 0
    ensures var dir := Walk(t, Start(current, path), Comps(Strip(Front(Strip(path)))));
            Resolve(t, current, path) == if dir == 0 then 0 else Step(t, dir, LastName(path))
  {
    hide Comps, Front, Back, Step;
    var front, name := Comps(Strip(Front(Strip(path)))), LastName(path);
    SplitComps(path);
    WalkSplit(t, Start(current, path), front, [name]);
    OneStep(t, Walk(t, Start(current, path), front), name);
  }

  /** Only a path with a leading separator can have a front part with one. */
  lemma FrontStarts(path: seq<byte>)
    ensures var front := Front(Strip(path));
            front != [] && IsSep(front[0]) ==> path != [] && IsSep(path[0])
  {}

  lemma OneStep(t: FsTree, cur: nat, name: Name)
    ensures Walk(t, cur, [name]) == Step(t, cur, name)
  {
    assert [name][1..] == [];
  }

  /** Two trees in which the same walks from inodes of the first do the same. */
  ghost predicate Extends(t: FsTree, u: FsTree) {
    (forall j :: j in t ==> j in u && (u[j].Dir? <==> t[j].Dir?)) &&
    forall j, n :: j in t && Step(t, j, n) != 0 ==> Step(u, j, n) == Step(t, j, n)
  }

  lemma {:induction false} WalkExtended(t: FsTree, u: FsTree, cur: nat, comps: seq<Name>)
    requires TreeWf(t) && Extends(t, u) && cur in t && Walk(t, cur, comps) != 0
    ensures Walk(u, cur, comps) == Walk(t, cur, comps)
    decreases |comps|
  {
    hide TreeWf;
    if comps != [] {
      StepInTree(t, cur, comps[0]);
      WalkExtended(t, u, Step(t, cur, comps[0]), comps[1..]);
    }
  }

  /** A walk that arrives has asked no file for "..". */
  lemma {:induction false} ArrivedCleanly(t: FsTree, cur: nat, comps: seq<Name>)
    requires TreeWf(t) && cur in t && Walk(t, cur, comps) != 0
    ensures NoUpFromFile(t, cur, comps)
    decreases |comps|
  {
    hide DirWf, OneName;
    if comps != [] {
      StepInTree(t, cur, comps[0]);
      ArrivedCleanly(t, Step(t, cur, comps[0]), comps[1..]);
    }
  }

  /** The components of a path whose last one fits. */
  lemma {:induction false} SplitComps(path: seq<byte>)
    requires 0 < |Back(Strip(path))| <= MAX_COMPONENT + 1
    ensures Comps(Strip(path)) == Comps(Strip(Front(Strip(path)))) + [LastName(path)]
  {
    var p := Strip(path);
    var front, name := Front(p), Back(p);
    if LastStart(p) > 0 {
      var sep := p[LastStart(p) - 1];
      assert p == front + [sep] + name;
      CompsJoin(front, sep, name);
    } else {
      assert p == name && front == [];
      CompsOne(name);
    }
    if front != [] && IsSep(front[0]) { CompsStrip(front); }
  }

  /** A new name, or new bytes in a file, leave every walk that succeeded as it was. */
  lemma NewExtends(t: FsTree, dir: nat, name: Name, ino: nat, obj: Obj)
    requires dir in t && t[dir].Dir? && name !in t[dir].names && ino !in t
    ensures Extends(t, WithNew(t, dir, name, ino, obj))
  {}

  lemma BytesExtend(t: FsTree, ino: nat, data: seq<byte>)
    requires ino in t && t[ino].File?
    ensures Extends(t, t[ino := File(data)])
  {}
}
