/** Directory blocks: a block is spelled by records that follow one another by `rec_len` and fill it exactly,
    each holding its own name. A record whose inode is 0 is free. */
module Ext2Records {
  import opened Bytes
  import opened Ext2Tree

  type Name = seq<byte>

  /** A record: inode, `rec_len`, name, file type. */
  datatype Rec = Rec(ino: nat, len: nat, name: Name, kind: nat)

  const DOT: byte := 46
  const DOT_NAME: Name := [DOT]
  const DOTDOT_NAME: Name := [DOT, DOT]

  /** The record at `off` is whole: it lies in the block and its name lies in it. */
  predicate RecFits(b: Block, off: nat) {
    off + 8 <= |b| && 8 + b[off + 6] <= GetU16(b, off + 4) && off + GetU16(b, off + 4) <= |b|
  }

  function RecAt(b: Block, off: nat): (r: Rec)
    requires RecFits(b, off)
    ensures 8 + |r.name| <= r.len && off + r.len <= |b| && |r.name| < 256 && r.kind < 256 && r.ino < TWO_32
  {
    Rec(GetU32(b, off), GetU16(b, off + 4), b[off + 8..off + 8 + b[off + 6]], b[off + 7])
  }

  predicate RecIs(b: Block, off: nat, r: Rec) {
    RecFits(b, off) && RecAt(b, off) == r
  }

  lemma DotDotBytes(b: Block, off: nat, r: Rec)
    requires RecIs(b, off, r)
    ensures r.name == DOTDOT_NAME <==> b[off + 6] == 2 && off + 10 <= |b| && b[off + 8] == DOT && b[off + 9] == DOT
  {
    var s := b[off + 8..off + 8 + b[off + 6]];
    if |s| == 2 {
      assert s[0] == b[off + 8] && s[1] == b[off + 9];
      assert s == [s[0], s[1]];
    }
  }

  function Total(recs: seq<Rec>): nat {
    if recs == [] then 0 else recs[0].len + Total(recs[1..])
  }

  /** From `off` on, the block holds the records `recs`. */
  predicate Seg(b: Block, off: nat, recs: seq<Rec>)
    decreases |recs|
  {
    if recs == [] then off <= |b|
    else RecIs(b, off, recs[0]) && Seg(b, off + recs[0].len, recs[1..])
  }

  predicate Spells(b: Block, recs: seq<Rec>) {
    Seg(b, 0, recs) && Total(recs) == |b|
  }

  /** The records met by following `rec_len` from `off`. */
  function Recs(b: Block, off: nat): seq<Rec>
    decreases |b| - off
  {
    if RecFits(b, off) then [RecAt(b, off)] + Recs(b, off + RecAt(b, off).len) else []
  }

  /** A directory block: its records fill it exactly. */
  predicate DirBlock(b: Block) {
    Spells(b, Recs(b, 0))
  }

  // ---------------------------------------------------------------- segments

  lemma {:induction false} TotalSplit(x: seq<Rec>, y: seq<Rec>)
    ensures Total(x + y) == Total(x) + Total(y)
  {
    if x == [] {
      assert x + y == y;
    } else {
      assert (x + y)[1..] == x[1..] + y;
      TotalSplit(x[1..], y);
    }
  }

  lemma {:induction false} SegSplit(b: Block, off: nat, x: seq<Rec>, y: seq<Rec>)
    ensures Seg(b, off, x + y) <==> Seg(b, off, x) && Seg(b, off + Total(x), y)
    decreases |x|
  {
    hide RecIs;
    if x == [] {
      assert x + y == y;
      if Seg(b, off, y) { SegBounds(b, off, y); }
    } else {
      assert (x + y)[1..] == x[1..] + y;
      SegSplit(b, off + x[0].len, x[1..], y);
    }
  }

  lemma {:induction false} SegBounds(b: Block, off: nat, x: seq<Rec>)
    requires Seg(b, off, x)
    ensures off + Total(x) <= |b|
    decreases |x|
  {
    if x != [] { SegBounds(b, off + x[0].len, x[1..]); }
  }

  /** The blocks agree outside bytes `lo` to `hi`. */
  predicate SameOutside(b: Block, c: Block, lo: nat, hi: nat) {
    |c| == |b| && forall i :: 0 <= i < |b| && !(lo <= i < hi) ==> c[i] == b[i]
  }

  /** A segment depends on its own bytes alone. */
  lemma {:induction false} SegSame(b: Block, c: Block, off: nat, x: seq<Rec>)
    requires Seg(b, off, x) && |c| == |b|
    requires forall i :: off <= i < off + Total(x) && i < |b| ==> c[i] == b[i]
    ensures Seg(c, off, x)
    decreases |x|
  {
    if x != [] {
      SegBounds(b, off + x[0].len, x[1..]);
      RecSame(b, c, off, x[0]);
      SegSame(b, c, off + x[0].len, x[1..]);
    }
  }

  lemma RecSame(b: Block, c: Block, off: nat, r: Rec)
    requires RecIs(b, off, r) && |c| == |b| && forall i :: off <= i < off + r.len ==> c[i] == b[i]
    ensures RecIs(c, off, r)
  {
    assert c[off..off + 4] == b[off..off + 4];
    assert c[off + 4..off + 6] == b[off + 4..off + 6];
    assert c[off + 8..off + 8 + b[off + 6]] == b[off + 8..off + 8 + b[off + 6]];
  }

  /** The records of a block are determined by it. */
  lemma {:induction false} SegRecs(b: Block, off: nat, x: seq<Rec>)
    requires Seg(b, off, x) && off + Total(x) == |b|
    ensures Recs(b, off) == x
    decreases |x|
  {
    if x != [] {
      SegRecs(b, off + x[0].len, x[1..]);
    }
  }

  lemma SpellsRecs(b: Block, x: seq<Rec>)
    requires Spells(b, x)
    ensures Recs(b, 0) == x && DirBlock(b)
  {
    SegRecs(b, 0, x);
  }

  /** Rewriting the bytes of a run of records replaces that run and keeps every other record. */
  lemma Splice(b: Block, c: Block, pre: seq<Rec>, mid: seq<Rec>, post: seq<Rec>, mid': seq<Rec>)
    requires Spells(b, pre + mid + post) && Total(mid') == Total(mid)
    requires SameOutside(b, c, Total(pre), Total(pre) + Total(mid))
    requires Seg(c, Total(pre), mid')
    ensures Spells(c, pre + mid' + post)
  {
    hide Seg, Total;
    TotalSplit(pre + mid, post);
    TotalSplit(pre, mid);
    TotalSplit(pre + mid', post);
    TotalSplit(pre, mid');
    SegSplit(b, 0, pre + mid, post);
    SegSplit(b, 0, pre, mid);
    SegSplit(c, 0, pre + mid', post);
    SegSplit(c, 0, pre, mid');
    SegSame(b, c, 0, pre);
    SegSame(b, c, Total(pre) + Total(mid), post);
  }

  // ---------------------------------------------------------------- writing a record

  /** The header, name and padding of a new record of length `len` at `off`. */
  function PutRec(b: Block, off: nat, r: Rec): (c: Block)
    requires off + r.len <= |b| && 8 + |r.name| <= r.len && |r.name| < 256 && r.kind < 256
    ensures |c| == |b|
  {
    var b1 := PutU32(b, off, r.ino);
    var b2 := PutU16(b1, off + 4, r.len);
    FillRec(b2, off, r)
  }

  /** The same without inode and length: name length, type, name, and zeros up to the end. */
  function FillRec(b: Block, off: nat, r: Rec): (c: Block)
    requires off + r.len <= |b| && 8 + |r.name| <= r.len && |r.name| < 256 && r.kind < 256
    ensures |c| == |b|
  {
    var b1 := Patch(b, off + 6, [|r.name|, r.kind]);
    var b2 := Patch(b1, off + 8, r.name);
    Patch(b2, off + 8 + |r.name|, Zeros(r.len - 8 - |r.name|))
  }

  lemma FillRecIs(b: Block, off: nat, r: Rec)
    requires off + r.len <= |b| && 8 + |r.name| <= r.len && |r.name| < 256 && r.kind < 256
    requires GetU32(b, off) == r.ino && GetU16(b, off + 4) == r.len
    ensures RecIs(FillRec(b, off, r), off, r)
    ensures SameOutside(b, FillRec(b, off, r), off + 6, off + r.len)
  {
    hide GetU16, GetU32, Patch, Zeros;
    var s1, s2, s3 := [|r.name|, r.kind], r.name, Zeros(r.len - 8 - |r.name|);
    var b1 := Patch(b, off + 6, s1);
    var b2 := Patch(b1, off + 8, s2);
    PatchStep(b, off + 6, s1, off);
    PatchStep(b1, off + 8, s2, off);
    PatchStep(b2, off + 8 + |s2|, s3, off);
    PatchWindow(b2, off + 8 + |s2|, s3, off + 8, |s2|);
    PatchWindow(b1, off + 8, s2, off + 8, |s2|);
    TwoBytes(b1, off + 6, s1);
  }

  /** A patch from byte `off + 6` on keeps the two words at `off`. */
  lemma PatchStep(b: Block, at: nat, s: seq<byte>, off: nat)
    requires off + 6 <= at && at + |s| <= |b|
    ensures SameOutside(b, Patch(b, at, s), at, at + |s|) && Patch(b, at, s)[at..at + |s|] == s
    ensures GetU32(Patch(b, at, s), off) == GetU32(b, off) && GetU16(Patch(b, at, s), off + 4) == GetU16(b, off + 4)
  {
    hide GetU16, GetU32, Patch;
    PatchWindow(b, at, s, at, |s|);
    PatchKeepsWords(b, at, s, off);
    PatchKeepsWords(b, at, s, off + 4);
  }

  lemma TwoBytes(b: Block, o: nat, s: seq<byte>)
    requires |s| == 2 && o + 2 <= |b| && b[o..o + 2] == s
    ensures b[o] == s[0] && b[o + 1] == s[1]
  {
    assert b[o..o + 2][0] == b[o] && b[o..o + 2][1] == b[o + 1];
  }

  lemma PutRecIs(b: Block, off: nat, r: Rec)
    requires off + r.len <= |b| && 8 + |r.name| <= r.len && |r.name| < 256 && r.kind < 256
    requires r.ino < TWO_32 && r.len < TWO_16
    ensures RecIs(PutRec(b, off, r), off, r)
    ensures SameOutside(b, PutRec(b, off, r), off, off + r.len)
  {
    hide GetU16, GetU32, Patch, FillRec, RecIs;
    var b1 := PutU32(b, off, r.ino);
    var b2 := PutU16(b1, off + 4, r.len);
    PutGet32(b, off, r.ino);
    PutGet16(b1, off + 4, r.len);
    PatchKeepsWords(b1, off + 4, LittleEndian(r.len, 2), off);
    PatchWindow(b, off, LittleEndian(r.ino, 4), off, 4);
    PatchWindow(b1, off + 4, LittleEndian(r.len, 2), off, 4);
    FillRecIs(b2, off, r);
  }

  /** In a cleared block the padding of a record that fills it is there already. */
  lemma PutRecOnZeros(z: Block, r: Rec)
    requires ZeroBlock(z) && r.len == |z| && 8 + |r.name| <= r.len && |r.name| < 256 && r.kind < 256
    ensures PutRec(z, 0, r) == Patch(Patch(PutU16(PutU32(z, 0, r.ino), 4, r.len), 6, [|r.name|, r.kind]), 8, r.name)
  {
    hide GetU16, GetU32, Patch;
    var s1, s2, s3, s4 := LittleEndian(r.ino, 4), LittleEndian(r.len, 2), [|r.name|, r.kind], r.name;
    var b1 := Patch(z, 0, s1);
    var b2 := Patch(b1, 4, s2);
    var b3 := Patch(b2, 6, s3);
    var b4 := Patch(b3, 8, s4);
    var tail := Zeros(r.len - 8 - |r.name|);
    PatchWindow(z, 0, s1, 0, 4);
    PatchWindow(b1, 4, s2, 4, 2);
    PatchWindow(b2, 6, s3, 6, 2);
    PatchWindow(b3, 8, s4, 8, |s4|);
    PatchOfSame(b4, 8 + |r.name|, tail);
  }

  lemma PatchOfSame(b: Block, off: nat, s: seq<byte>)
    requires off + |s| <= |b| && b[off..off + |s|] == s
    ensures Patch(b, off, s) == b
  {}

  /** Only `rec_len` of the record is rewritten. */
  lemma PutLenIs(b: Block, off: nat, r: Rec, len: nat)
    requires RecIs(b, off, r) && 8 + |r.name| <= len < TWO_16 && off + len <= |b|
    ensures RecIs(PutU16(b, off + 4, len), off, r.(len := len))
    ensures SameOutside(b, PutU16(b, off + 4, len), off + 4, off + 6)
  {
    hide GetU16, GetU32, Patch;
    var s := LittleEndian(len, 2);
    PutGet16(b, off + 4, len);
    PatchKeepsWords(b, off + 4, s, off);
    PatchWindow(b, off + 4, s, off + 8, |r.name|);
  }

  /** Only the inode of the record is rewritten. */
  lemma PutInoIs(b: Block, off: nat, r: Rec, ino: nat)
    requires RecIs(b, off, r) && ino < TWO_32
    ensures RecIs(PutU32(b, off, ino), off, r.(ino := ino))
    ensures SameOutside(b, PutU32(b, off, ino), off, off + 4)
  {
    hide GetU16, GetU32, Patch;
    var s := LittleEndian(ino, 4);
    PutGet32(b, off, ino);
    PatchKeepsWords(b, off, s, off + 4);
    PatchWindow(b, off, s, off + 8, |r.name|);
  }

  // ---------------------------------------------------------------- records by index

  /** Where record `i` lies. */
  function OffsetOf(recs: seq<Rec>, i: nat): nat
    requires i <= |recs|
  {
    Total(recs[..i])
  }

  /** Record `i` of a block is found at its offset, and the next one behind it. */
  lemma RecHere(b: Block, recs: seq<Rec>, i: nat)
    requires Spells(b, recs) && i < |recs|
    ensures RecIs(b, OffsetOf(recs, i), recs[i]) && OffsetOf(recs, i) + recs[i].len <= |b|
    ensures OffsetOf(recs, i + 1) == OffsetOf(recs, i) + recs[i].len
  {
    hide RecIs;
    assert recs == recs[..i] + recs[i..] && recs[i..][0] == recs[i];
    SegSplit(b, 0, recs[..i], recs[i..]);
    assert recs[..i + 1] == recs[..i] + [recs[i]] && [recs[i]][1..] == [];
    TotalSplit(recs[..i], [recs[i]]);
    OffsetBound(b, recs, i + 1);
  }

  lemma OffsetBound(b: Block, recs: seq<Rec>, i: nat)
    requires Spells(b, recs) && i <= |recs|
    ensures OffsetOf(recs, i) <= |b| && (i == |recs| ==> OffsetOf(recs, i) == |b|)
  {
    assert recs == recs[..i] + recs[i..];
    TotalSplit(recs[..i], recs[i..]);
  }

  /** The records `mid` of a block, starting with record `i`, are replaced. */
  lemma SpliceAt(b: Block, c: Block, recs: seq<Rec>, i: nat, n: nat, mid': seq<Rec>)
    requires Spells(b, recs) && i + n <= |recs| && Total(mid') == Total(recs[i..i + n])
    requires SameOutside(b, c, OffsetOf(recs, i), OffsetOf(recs, i) + Total(recs[i..i + n]))
    requires Seg(c, OffsetOf(recs, i), mid')
    ensures Spells(c, recs[..i] + mid' + recs[i + n..])
  {
    hide Seg, Total, Spells;
    assert recs == recs[..i] + recs[i..i + n] + recs[i + n..];
    Splice(b, c, recs[..i], recs[i..i + n], recs[i + n..], mid');
  }

  lemma SegOne(b: Block, off: nat, r: Rec)
    ensures Seg(b, off, [r]) <==> RecIs(b, off, r)
    ensures Total([r]) == r.len
  {
    assert [r][1..] == [];
  }

  lemma SegTwo(b: Block, off: nat, r: Rec, s: Rec)
    ensures Seg(b, off, [r, s]) <==> RecIs(b, off, r) && RecIs(b, off + r.len, s)
    ensures Total([r, s]) == r.len + s.len
  {
    assert [r, s] == [r] + [s];
    SegOne(b, off, r);
    SegOne(b, off + r.len, s);
    SegSplit(b, off, [r], [s]);
    TotalSplit([r], [s]);
  }

  /** A free record is filled. */
  lemma ReuseBytes(b: Block, recs: seq<Rec>, i: nat, n: Rec)
    requires Spells(b, recs) && i < |recs| && n.len == recs[i].len && n.ino < TWO_32
    requires 8 + |n.name| <= n.len && |n.name| < 256 && n.kind < 256
    ensures OffsetOf(recs, i) + n.len <= |b|
    ensures Spells(FillRec(PutU32(b, OffsetOf(recs, i), n.ino), OffsetOf(recs, i), n), recs[..i] + [n] + recs[i + 1..])
  {
    hide Seg, Total, Spells, FillRec, PutU32, OffsetOf, GetU16, GetU32;
    RecHere(b, recs, i);
    var off := OffsetOf(recs, i);
    PutInoIs(b, off, recs[i], n.ino);
    var b1 := PutU32(b, off, n.ino);
    FillRecIs(b1, off, n);
    SegOne(b, off, recs[i]);
    SegOne(FillRec(b1, off, n), off, n);
    assert recs[i..i + 1] == [recs[i]];
    SpliceAt(b, FillRec(b1, off, n), recs, i, 1, [n]);
  }

  /** The slack of a record becomes a record. */
  lemma SplitBytes(b: Block, recs: seq<Rec>, i: nat, len: nat, n: Rec)
    requires Spells(b, recs) && i < |recs| && len + n.len == recs[i].len < TWO_16 && n.ino < TWO_32
    requires 8 + |recs[i].name| <= len && 8 + |n.name| <= n.len && |n.name| < 256 && n.kind < 256
    ensures OffsetOf(recs, i) + len + n.len <= |b|
    ensures var off := OffsetOf(recs, i);
            Spells(PutRec(PutU16(b, off + 4, len), off + len, n), recs[..i] + [recs[i].(len := len), n] + recs[i + 1..])
  {
    hide Seg, Total, Spells, PutRec, PutU16, OffsetOf, GetU16, GetU32, RecIs;
    RecHere(b, recs, i);
    var off, r := OffsetOf(recs, i), recs[i];
    PutLenIs(b, off, r, len);
    var b1 := PutU16(b, off + 4, len);
    var c := PutRec(b1, off + len, n);
    PutRecIs(b1, off + len, n);
    RecSame(b1, c, off, r.(len := len));
    SegOne(b, off, r);
    SegTwo(c, off, r.(len := len), n);
    assert recs[i..i + 1] == [r];
    SpliceAt(b, c, recs, i, 1, [r.(len := len), n]);
  }

  /** A record becomes slack of the one before it. */
  lemma MergeBytes(b: Block, recs: seq<Rec>, i: nat)
    requires Spells(b, recs) && 0 < i < |recs| && |b| < TWO_16
    ensures var off, len := OffsetOf(recs, i - 1), recs[i - 1].len + recs[i].len;
            off + 8 <= |b| && off + len <= |b| &&
            Spells(PutU16(b, off + 4, len), recs[..i - 1] + [recs[i - 1].(len := len)] + recs[i + 1..])
  {
    hide Seg, Total, Spells, PutU16, OffsetOf, GetU16, GetU32;
    RecHere(b, recs, i - 1);
    RecHere(b, recs, i);
    var off, p, r := OffsetOf(recs, i - 1), recs[i - 1], recs[i];
    PutLenIs(b, off, p, p.len + r.len);
    var c := PutU16(b, off + 4, p.len + r.len);
    SegTwo(b, off, p, r);
    SegOne(c, off, p.(len := p.len + r.len));
    assert recs[i - 1..i + 1] == [p, r];
    SpliceAt(b, c, recs, i - 1, 2, [p.(len := p.len + r.len)]);
  }

  /** The first record becomes free. */
  lemma FreeBytes(b: Block, recs: seq<Rec>)
    requires Spells(b, recs) && recs != []
    ensures 4 <= |b| && Spells(PutU32(b, 0, 0), [recs[0].(ino := 0)] + recs[1..])
  {
    hide Seg, Spells, PutU32, GetU16, GetU32;
    RecHere(b, recs, 0);
    assert OffsetOf(recs, 0) == 0;
    PutInoIs(b, 0, recs[0], 0);
    var c := PutU32(b, 0, 0);
    SegOne(b, 0, recs[0]);
    SegOne(c, 0, recs[0].(ino := 0));
    assert recs[0..1] == [recs[0]];
    SpliceAt(b, c, recs, 0, 1, [recs[0].(ino := 0)]);
    assert recs[..0] + [recs[0].(ino := 0)] + recs[1..] == [recs[0].(ino := 0)] + recs[1..];
  }
}
