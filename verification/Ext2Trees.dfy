/** What a call does to the tree, and what a path leads to before and after: deleting keeps the tree in order, and
    writing under a path is read back through it exactly when `split_path` and `resolve_relative` see the same name
    in the same directory. */
module Ext2Trees {
  import opened Bytes
  import opened Ext2Records
  import opened Ext2State
  import opened Ext2Paths

  // ---------------------------------------------------------------- a file that was written

  /** The tree after `data` was written under `name` in directory `dir`: a new file, or the file that had the
      name with new bytes. */
  ghost predicate WrittenTree(t: FsTree, u: FsTree, dir: nat, name: Name, ino: nat, data: seq<byte>) {
    dir in t && t[dir].Dir? && ino != 0 &&
    if name in t[dir].names then t[dir].names[name] == ino && ino in t && t[ino].File? && u == t[ino := File(data)]
    else ino !in t && u == WithNew(t, dir, name, ino, File(data))
  }

  lemma WrittenExtends(t: FsTree, u: FsTree, dir: nat, name: Name, ino: nat, data: seq<byte>)
    requires WrittenTree(t, u, dir, name, ino, data)
    ensures Extends(t, u)
  {
    if name in t[dir].names {
      BytesExtend(t, ino, data);
    } else {
      NewExtends(t, dir, name, ino, File(data));
    }
  }

  /** The components without those at the end that stay where they are. */
  function Trimmed(comps: seq<Name>): (r: seq<Name>)
    ensures r != [] ==> r[|r| - 1] != DOT_NAME
    ensures r <= comps
  {
    if comps != [] && comps[|comps| - 1] == DOT_NAME then Trimmed(comps[..|comps| - 1]) else comps
  }

  /** A walk whose last real step looks for `name` in `dir`. */
  predicate EndsIn(t: FsTree, cur: nat, comps: seq<Name>, dir: nat, name: Name) {
    var c := Trimmed(comps);
    c != [] && c[|c| - 1] == name && Walk(t, cur, c[..|c| - 1]) == dir
  }

  /** Written files are reached through their name alone. */
  lemma StepWritten(t: FsTree, u: FsTree, dir: nat, name: Name, ino: nat, data: seq<byte>, cur: nat, comp: Name)
    requires TreeWf(t) && WrittenTree(t, u, dir, name, ino, data) && cur in t && cur != ino
    ensures name != DOT_NAME && name != DOTDOT_NAME
    ensures Step(u, cur, comp) == if cur == dir && comp == name then ino else Step(t, cur, comp)
    ensures Step(t, cur, comp) == ino ==> cur == dir && comp == name
  {
    assert DirWf(t, dir) && DirWf(t, cur);
    if Step(t, cur, comp) == ino && comp != DOT_NAME {
      assert Refers(t, cur, comp, ino) && Refers(t, dir, name, ino);
    }
  }

  /** Below a file there is nothing but the file. */
  lemma StepFromFile(u: FsTree, ino: nat, comp: Name)
    requires ino in u && u[ino].File? && ino != ROOT_INO
    ensures Step(u, ino, comp) == if comp == DOT_NAME then ino else 0
  {}

  lemma {:induction false} LastStep(t: FsTree, cur: nat, comps: seq<Name>, last: Name)
    requires cur != 0
    ensures Walk(t, cur, comps + [last]) == StepOn(t, Walk(t, cur, comps), last)
  {
    hide Step;
    WalkSplit(t, cur, comps, [last]);
    if Walk(t, cur, comps) != 0 { OneStep(t, Walk(t, cur, comps), last); }
  }

  function StepOn(t: FsTree, cur: nat, comp: Name): nat {
    if cur == 0 then 0 else Step(t, cur, comp)
  }

  lemma WrittenFacts(t: FsTree, u: FsTree, dir: nat, name: Name, ino: nat, data: seq<byte>)
    requires TreeWf(t) && WrittenTree(t, u, dir, name, ino, data)
    ensures 0 !in t && dir != 0 && dir != ino && ino != 0 && ino != ROOT_INO
    ensures ino in u && u[ino] == File(data) && Extends(t, u)
  {
    hide DirWf, OneName, Extends;
    WrittenExtends(t, u, dir, name, ino, data);
  }

  lemma TrimmedStep(comps: seq<Name>, last: Name)
    ensures Trimmed(comps + [last]) == if last == DOT_NAME then Trimmed(comps) else comps + [last]
  {
    assert (comps + [last])[..|comps|] == comps;
  }

  lemma EndsInStep(t: FsTree, cur: nat, comps: seq<Name>, last: Name, dir: nat, name: Name)
    ensures EndsIn(t, cur, comps + [last], dir, name) <==>
            if last == DOT_NAME then EndsIn(t, cur, comps, dir, name) else last == name && Walk(t, cur, comps) == dir
  {
    hide Walk, Trimmed;
    TrimmedStep(comps, last);
    assert (comps + [last])[..|comps|] == comps;
  }

  /** In the tree after writing, a walk ends at the file exactly when its last step looked for the name in the
      directory written to; any other walk ends where it did before. */
  lemma {:induction false} WalkToWritten(t: FsTree, u: FsTree, dir: nat, name: Name, ino: nat, data: seq<byte>,
                                         cur: nat, comps: seq<Name>)
    requires TreeWf(t) && WrittenTree(t, u, dir, name, ino, data) && cur in t && cur != ino
    ensures Walk(u, cur, comps) == if EndsIn(t, cur, comps, dir, name) then ino else Walk(t, cur, comps)
    ensures Walk(u, cur, comps) == ino ==> EndsIn(t, cur, comps, dir, name)
    decreases |comps|
  {
    hide TreeWf, WrittenTree, Step, Extends, Walk, Trimmed, EndsIn;
    WrittenFacts(t, u, dir, name, ino, data);
    if comps == [] {
      StandsStill(t, u, cur, dir, name);
    } else {
      var c, x := comps[..|comps| - 1], comps[|comps| - 1];
      assert comps == c + [x];
      WalkToWritten(t, u, dir, name, ino, data, cur, c);
      LastStep(t, cur, c, x);
      LastStep(u, cur, c, x);
      EndsInStep(t, cur, c, x, dir, name);
      WalkInTree(t, cur, c);
      if Walk(t, cur, c) != 0 { WalkExtended(t, u, cur, c); }
      StepMore(t, u, dir, name, ino, data, Walk(t, cur, c), Walk(u, cur, c), EndsIn(t, cur, c, dir, name), x);
    }
  }

  lemma StandsStill(t: FsTree, u: FsTree, cur: nat, dir: nat, name: Name)
    ensures Walk(t, cur, []) == cur && Walk(u, cur, []) == cur && !EndsIn(t, cur, [], dir, name)
  {}

  /** One more step of a walk that is at `before` in the old tree, at `after` in the new one. */
  lemma StepMore(t: FsTree, u: FsTree, dir: nat, name: Name, ino: nat, data: seq<byte>, before: nat, after: nat,
    there: bool, x: Name)
    requires TreeWf(t) && WrittenTree(t, u, dir, name, ino, data)
    requires (before != 0 ==> before in t && after == before) && after == if there then ino else before
    requires after == ino ==> there
    ensures var now := if x == DOT_NAME then there else x == name && before == dir;
            StepOn(u, after, x) == (if now then ino else StepOn(t, before, x)) && (StepOn(u, after, x) == ino ==> now)
  {
    hide TreeWf, WrittenTree, Step, Extends;
    WrittenFacts(t, u, dir, name, ino, data);
    if there {
      StepFromFile(u, ino, x);
      if before != 0 { FileBefore(t, u, dir, name, ino, data, x); }
    } else if before != 0 {
      StepWritten(t, u, dir, name, ino, data, before, x);
      StepDot(t, before);
    }
  }

  lemma FileBefore(t: FsTree, u: FsTree, dir: nat, name: Name, ino: nat, data: seq<byte>, x: Name)
    requires TreeWf(t) && WrittenTree(t, u, dir, name, ino, data) && ino in t
    ensures Step(t, ino, x) == if x == DOT_NAME then ino else 0
  {
    hide DirWf, OneName;
  }

  lemma StepDot(t: FsTree, cur: nat)
    ensures Step(t, cur, DOT_NAME) == cur
  {}

  // ---------------------------------------------------------------- what the calls do

  /** The tree without the name and without the file it led to. */
  function Without(t: FsTree, dir: nat, name: Name): FsTree {
    if dir in t && t[dir].Dir? && name in t[dir].names
    then t[dir := Dir(t[dir].names - {name})] - {t[dir].names[name]}
    else t
  }

  ghost predicate Deleted(t: FsTree, u: FsTree, dir: nat, name: Name) {
    Has(t, dir, name) && u == Without(t, dir, name)
  }

  /** The tree after a new directory was made under a name that was not there. */
  ghost predicate MadeDir(t: FsTree, u: FsTree, dir: nat, name: Name, ino: nat) {
    dir in t && t[dir].Dir? && name !in t[dir].names && ino !in t &&
      u == WithNew(t, dir, name, ino, Dir(Dots(ino, dir)))
  }

  /** A deleted file leaves a tree in order, since no other name led to it. */
  lemma DeleteKeepsWf(t: FsTree, dir: nat, name: Name)
    requires TreeWf(t) && Has(t, dir, name) && name != DOT_NAME && name != DOTDOT_NAME
    requires t[dir].names[name] in t && t[t[dir].names[name]].File?
    ensures TreeWf(Without(t, dir, name))
  {
    hide DirWf;
    var u := Without(t, dir, name);
    forall d | d in u ensures DirWf(u, d) { DirAfterDelete(t, dir, name, d); }
    forall d, n, e, m, g | Refers(u, d, n, g) && Refers(u, e, m, g) && g in u && u[g].File? ensures d == e && n == m {
      assert Refers(t, d, n, g) && Refers(t, e, m, g);
    }
  }

  /** No directory has another name for the file. */
  lemma DirAfterDelete(t: FsTree, dir: nat, name: Name, d: nat)
    requires TreeWf(t) && Has(t, dir, name) && name != DOT_NAME && name != DOTDOT_NAME
    requires t[dir].names[name] in t && t[t[dir].names[name]].File? && d in Without(t, dir, name)
    ensures DirWf(Without(t, dir, name), d)
  {
    var f, u := t[dir].names[name], Without(t, dir, name);
    assert DirWf(t, d) && Refers(t, dir, name, f);
    if u[d].Dir? {
      forall n | n in u[d].names ensures u[d].names[n] in u { assert Refers(t, d, n, t[d].names[n]); }
    }
  }

  ghost predicate Has(t: FsTree, dir: nat, name: Name) {
    dir in t && t[dir].Dir? && name in t[dir].names
  }

  /** Every inode but the directory written in and the file is as it was. */
  ghost predicate OthersKept(t: FsTree, u: FsTree, dir: nat, ino: nat) {
    forall j :: j in t && j != ino && j != dir ==> j in u && u[j] == t[j]
  }

  /** Every path that led somewhere leads there still. */
  ghost predicate PathsKept(t: FsTree, u: FsTree, current: nat) {
    forall p :: Resolve(t, current, p) != 0 ==> Resolve(u, current, p) == Resolve(t, current, p)
  }

  /** Read by `resolve_relative`, the path looks at its end for the name that `split_path` found, in the directory
      that `split_path` found. */
  predicate ReadsBack(t: FsTree, current: nat, path: seq<byte>) {
    EndsIn(t, Start(current, path), Comps(Strip(path)), Resolve(t, current, ParentPath(path)), LastName(path))
  }

  /** After writing under a path, the path leads to the file written exactly if it reads back, and where it led
      before otherwise; every other file and every path that led somewhere is as it was. */
  lemma WrittenIsRead(t: FsTree, u: FsTree, current: nat, path: seq<byte>, ino: nat, data: seq<byte>)
    requires TreeWf(t) && current in t && t[current].Dir?
    requires WrittenTree(t, u, Resolve(t, current, ParentPath(path)), LastName(path), ino, data)
    ensures Resolve(u, current, path) == if ReadsBack(t, current, path) then ino else Resolve(t, current, path)
    ensures Resolve(u, current, path) == ino <==> ReadsBack(t, current, path)
    ensures ino in u && u[ino] == File(data)
    ensures OthersKept(t, u, Resolve(t, current, ParentPath(path)), ino) && PathsKept(t, u, current)
  {
    hide Comps, Walk, EndsIn, Extends, Strip, LastName, ParentPath, TreeWf, WrittenTree, PathsKept, Start, Resolve;
    var dir, name := Resolve(t, current, ParentPath(path)), LastName(path);
    WrittenFacts(t, u, dir, name, ino, data);
    RestKept(t, u, current, dir, name, ino, data);
    StartsAtDir(t, u, current, path, dir, name, ino, data);
    WalkToWritten(t, u, dir, name, ino, data, Start(current, path), Comps(Strip(path)));
    ResolveIs(t, current, path);
    ResolveIs(u, current, path);
  }

  /** A file that such another path led to has the bytes it had. */
  lemma OldTarget(t: FsTree, u: FsTree, current: nat, path: seq<byte>, ino: nat, data: seq<byte>)
    requires TreeWf(t) && current in t && t[current].Dir?
    requires WrittenTree(t, u, Resolve(t, current, ParentPath(path)), LastName(path), ino, data)
    ensures var r := Resolve(t, current, path);
            r in u && u[r].File? && !ReadsBack(t, current, path) ==> r in t && u[r] == t[r]
  {
    hide Comps, Walk, ReadsBack, Strip, LastName, ParentPath;
    var r, dir := Resolve(t, current, path), Resolve(t, current, ParentPath(path));
    WrittenFacts(t, u, dir, LastName(path), ino, data);
    WrittenIsRead(t, u, current, path, ino, data);
    StartsAtDir(t, u, current, path, dir, LastName(path), ino, data);
    ResolveIs(t, current, path);
    WalkInTree(t, Start(current, path), Comps(Strip(path)));
  }

  lemma RestKept(t: FsTree, u: FsTree, current: nat, dir: nat, name: Name, ino: nat, data: seq<byte>)
    requires TreeWf(t) && current in t && WrittenTree(t, u, dir, name, ino, data)
    ensures OthersKept(t, u, dir, ino) && PathsKept(t, u, current)
  {
    hide TreeWf, Extends, Resolve;
    WrittenExtends(t, u, dir, name, ino, data);
    forall p | Resolve(t, current, p) != 0 ensures Resolve(u, current, p) == Resolve(t, current, p) {
      ResolveExtended(t, u, current, p);
    }
  }

  lemma ResolveIs(t: FsTree, current: nat, path: seq<byte>)
    ensures Resolve(t, current, path) == Walk(t, Start(current, path), Comps(Strip(path)))
  {}

  lemma StartsAtDir(t: FsTree, u: FsTree, current: nat, path: seq<byte>, dir: nat, name: Name, ino: nat,
    data: seq<byte>)
    requires TreeWf(t) && current in t && t[current].Dir? && WrittenTree(t, u, dir, name, ino, data)
    ensures Start(current, path) in t && Start(current, path) != ino
  {
    hide DirWf, OneName;
  }

  /** Of paths with a short front and one last name, those without a leading separator always read back; the others
      exactly
      when the front leads from the root to where it leads from the current directory. */
  lemma ShortPaths(t: FsTree, current: nat, path: seq<byte>)
    requires Short(path) && LastName(path) != DOT_NAME
    ensures ReadsBack(t, current, path) <==>
            (path != [] && IsSep(path[0]) ==>
               Walk(t, ROOT_INO, Comps(Strip(Front(Strip(path))))) == Resolve(t, current, ParentPath(path)))
  {
    hide Comps, Walk, Front, Back;
    SplitComps(path);
    FrontStarts(path);
    var front, name := Comps(Strip(Front(Strip(path)))), LastName(path);
    TrimmedStep(front, name);
    assert (front + [name])[..|front|] == front;
  }

  /** So they do with the root as current directory. */
  lemma InRoot(t: FsTree, path: seq<byte>)
    requires Short(path) && LastName(path) != DOT_NAME
    ensures ReadsBack(t, ROOT_INO, path)
  {
    hide Comps, Walk, Front, Back, ReadsBack;
    ShortPaths(t, ROOT_INO, path);
    ResolveIs(t, ROOT_INO, ParentPath(path));
  }

  // ---------------------------------------------------------------- two paths with a leading slash

  const X_NAME: Name := [120]
  const A_NAME: Name := [97]

  /** A root with one directory or file in it. */
  function SmallTree(obj: Obj): FsTree {
    map[ROOT_INO := Dir(Dots(ROOT_INO, ROOT_INO)[A_NAME := 11]), 11 := obj]
  }

  function SmallDir(): Obj { Dir(Dots(11, ROOT_INO)) }

  lemma SmallIsWf(obj: Obj)
    requires obj.File? || obj == SmallDir()
    ensures TreeWf(SmallTree(obj))
  {
    hide OneName;
    var t := SmallTree(obj);
    SmallOneName(obj);
    assert DirWf(t, ROOT_INO) && DirWf(t, 11);
  }

  lemma SmallOneName(obj: Obj)
    requires obj.File? || obj == SmallDir()
    ensures OneName(SmallTree(obj))
  {
    var t := SmallTree(obj);
    forall d, n, f | Refers(t, d, n, f) && f in t && t[f].File? ensures d == ROOT_INO && n == A_NAME {}
  }

  lemma PartsAre(p: seq<byte>, front: seq<byte>, sep: byte, name: Name)
    requires p == front + [sep] + name && IsSep(sep) && forall i :: 0 <= i < |name| ==> !IsSep(name[i])
    ensures Front(p) == front && Back(p) == name
  {
    var n := LastStart(p);
    assert p[|front|] == sep && forall i :: |front| < i < |p| ==> p[i] == name[i - |front| - 1];
    assert n == |front| + 1;
  }

  /** In that directory, "/x" is written beside the current files and looked for in the root. */
  lemma SlashIsLost(data: seq<byte>)
    ensures var t, path := SmallTree(SmallDir()), [SLASH] + X_NAME;
            var u := WithNew(t, 11, X_NAME, 12, File(data));
            TreeWf(t) && Short(path) && WrittenTree(t, u, Resolve(t, 11, ParentPath(path)), LastName(path), 12, data) &&
            !ReadsBack(t, 11, path) && Resolve(u, 11, path) == 0
  {
    var t, path := SmallTree(SmallDir()), [SLASH] + X_NAME;
    SmallIsWf(SmallDir());
    assert Strip(path) == X_NAME;
    assert LastStart(X_NAME) == 0;
    assert Front(X_NAME) == [] && Back(X_NAME) == X_NAME;
    CompsNone();
    ShortPaths(t, 11, path);
    CompsOne(X_NAME);
    OneStep(t, ROOT_INO, X_NAME);
    WrittenIsRead(t, WithNew(t, 11, X_NAME, 12, File(data)), 11, path, 12, data);
  }

  /** "/../x" is written and looked for in the root. */
  lemma SlashIsKept(data: seq<byte>)
    ensures var t, path := SmallTree(SmallDir()), [SLASH] + DOTDOT_NAME + [SLASH] + X_NAME;
            var u := WithNew(t, ROOT_INO, X_NAME, 12, File(data));
            TreeWf(t) && WrittenTree(t, u, Resolve(t, 11, ParentPath(path)), LastName(path), 12, data) &&
            ReadsBack(t, 11, path) && Resolve(u, 11, path) == 12
  {
    hide Comps, Walk, TreeWf, Front, Back, ReadsBack;
    var t, path := SmallTree(SmallDir()), [SLASH] + DOTDOT_NAME + [SLASH] + X_NAME;
    SmallIsWf(SmallDir());
    assert Strip(path) == DOTDOT_NAME + [SLASH] + X_NAME;
    PartsAre(Strip(path), DOTDOT_NAME, SLASH, X_NAME);
    CompsOne(DOTDOT_NAME);
    OneStep(t, 11, DOTDOT_NAME);
    OneStep(t, ROOT_INO, DOTDOT_NAME);
    ShortPaths(t, 11, path);
    WrittenIsRead(t, WithNew(t, ROOT_INO, X_NAME, 12, File(data)), 11, path, 12, data);
  }

  /** With a file "a" in the root, the path "a/x" names a file as parent: there `create_dir` goes on. */
  lemma ParentIsFile(data: seq<byte>)
    ensures var t, path := SmallTree(File(data)), A_NAME + [SLASH] + X_NAME;
            TreeWf(t) && LastName(path) != [] && NoUpFromFile(t, ROOT_INO, Comps(Strip(ParentPath(path)))) &&
            Resolve(t, ROOT_INO, ParentPath(path)) == 11 && t[11].File?
  {
    var t, path := SmallTree(File(data)), A_NAME + [SLASH] + X_NAME;
    SmallIsWf(File(data));
    assert Strip(path) == path;
    PartsAre(path, A_NAME, SLASH, X_NAME);
    CompsOne(A_NAME);
    OneStep(t, ROOT_INO, A_NAME);
    ArrivedCleanly(t, ROOT_INO, Comps(A_NAME));
  }

  lemma ResolveExtended(t: FsTree, u: FsTree, current: nat, path: seq<byte>)
    requires TreeWf(t) && current in t && Extends(t, u) && Resolve(t, current, path) != 0
    ensures Resolve(u, current, path) == Resolve(t, current, path)
  {
    hide Comps, Walk, Extends;
    if path != [] && IsSep(path[0]) {
      WalkExtended(t, u, ROOT_INO, Comps(path[1..]));
    } else {
      WalkExtended(t, u, current, Comps(path));
    }
  }
}
