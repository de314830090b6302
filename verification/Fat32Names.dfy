/** 8.3 names: the eleven bytes that a name in a path is matched by, and the entry made for it. */
module Fat32Names {
  import opened Bytes
  import opened Fat32Dir
  import opened Fat32State

  const SPACE: byte := 32
  const PERIOD: byte := 46
  const SLASH: byte := 47
  const BACKSLASH: byte := 92

  function Upper(c: byte): byte { if 97 <= c <= 122 then c - 32 else c }

  function UpperAll(s: seq<byte>): (r: seq<byte>)
    ensures |r| == |s|
  {
    seq(|s|, i requires 0 <= i < |s| => Upper(s[i]))
  }

  /** `s` in a field of `n` bytes. */
  function Padded(s: seq<byte>, n: nat): (r: seq<byte>)
    requires |s| <= n
    ensures |r| == n
  {
    s + seq(n - |s|, _ => SPACE)
  }

  /** Where the stem ends: at a period, after eight characters, or with the name. */
  function StemLength(name: seq<byte>, i: nat): (k: nat)
    requires i <= |name| && i <= 8
    ensures i <= k <= |name| && k <= 8
    ensures k == |name| || k == 8 || name[k] == PERIOD
    ensures forall j :: i <= j < k ==> name[j] != PERIOD
    decreases |name| - i
  {
    if i == |name| || i == 8 || name[i] == PERIOD then i else StemLength(name, i + 1)
  }

  function Extension(name: seq<byte>): (s: seq<byte>)
    ensures |s| <= 3
  {
    var k := StemLength(name, 0);
    if k < |name| && name[k] == PERIOD then
      name[k + 1..if k + 4 <= |name| then k + 4 else |name|]
    else []
  }

  /** The name in capitals: a stem of at most eight characters and an extension of at most three. */
  function ShortName(name: seq<byte>): Name83 {
    if name == [PERIOD] then DOT
    else if name == [PERIOD, PERIOD] then DOT_DOT
    else Padded(UpperAll(name[..StemLength(name, 0)]), 8) + Padded(UpperAll(Extension(name)), 3)
  }

  /** One more character of a field that is still blank. */
  lemma NextChar(out: seq<byte>, pre: seq<byte>, t: seq<byte>, c: byte)
    requires |out| == 11 && |pre| + |t| < 11 && out == pre + UpperAll(t) + seq(11 - |pre| - |t|, _ => SPACE)
    ensures out[|pre| + |t| := Upper(c)] == pre + UpperAll(t + [c]) + seq(10 - |pre| - |t|, _ => SPACE)
  {
    hide Upper;
  }

  /** The second loop of `name_to_83`, from the character after the period. */
  method PutExtension(stem: seq<byte>, name: seq<byte>, from: nat) returns (r: seq<byte>)
    requires |stem| == 8 && from <= |name|
    ensures r == stem + Padded(UpperAll(name[from..if from + 3 <= |name| then from + 3 else |name|]), 3)
  {
    hide Upper, UpperAll;
    r := stem + seq(3, _ => SPACE);
    var i, j := from, 8;
    assert r == stem + UpperAll(name[from..from]) + seq(3, _ => SPACE);
    while i < |name| && j < 11
      invariant from <= i <= |name| && j == 8 + (i - from) <= 11 && |r| == 11
      invariant r == stem + UpperAll(name[from..i]) + seq(11 - j, _ => SPACE)
    {
      NextChar(r, stem, name[from..i], name[i]);
      assert name[from..i + 1] == name[from..i] + [name[i]];
      r := r[j := Upper(name[i])];
      i, j := i + 1, j + 1;
    }
  }

  /** The first loop: up to eight characters before a period. */
  method PutStem(name: seq<byte>) returns (r: seq<byte>, i: nat)
    ensures i == StemLength(name, 0) && r == Padded(UpperAll(name[..i]), 8)
  {
    hide Upper, UpperAll;
    var out: seq<byte> := seq(11, _ => SPACE);
    i := 0;
    var j := 0;
    assert out == [] + UpperAll(name[..0]) + seq(11, _ => SPACE);
    while i < |name| && name[i] != PERIOD && j < 8
      invariant j == i <= 8 && i <= |name| && StemLength(name, i) == StemLength(name, 0) && |out| == 11
      invariant out == [] + UpperAll(name[..i]) + seq(11 - i, _ => SPACE)
    {
      NextChar(out, [], name[..i], name[i]);
      assert name[..i + 1] == name[..i] + [name[i]];
      out := out[j := Upper(name[i])];
      i, j := i + 1, j + 1;
    }
    r := out[..8];
  }

  /** `name_to_83`. */
  method NameTo83(name: seq<byte>) returns (r: Name83)
    ensures r == ShortName(name)
  {
    hide UpperAll;
    if name == [PERIOD] { return DOT; }
    if name == [PERIOD, PERIOD] { return DOT_DOT; }
    var stem, i := PutStem(name);
    if i < |name| && name[i] == PERIOD {
      r := PutExtension(stem, name, i + 1);
    } else {
      r := stem + [SPACE, SPACE, SPACE];
    }
  }

  /** The name begins with the byte that marks an entry as deleted. */
  predicate Marked(name: seq<byte>) { name != [] && name[0] == DELETED }

  /** Only a name that begins with the deletion mark is stored as a deleted entry; a C string never gives one that
      was never used. */
  lemma NameStart(name: seq<byte>)
    requires 0 !in name
    ensures ShortName(name)[0] == DELETED <==> Marked(name)
    ensures ShortName(name)[0] != 0
  {
    if name != [] && name != [PERIOD] && name != [PERIOD, PERIOD] && name[0] != PERIOD {
      assert StemLength(name, 0) == StemLength(name, 1);
      assert ShortName(name)[0] == Upper(name[0]);
      assert name[0] in name;
    }
  }

  /** Letters of either case name the same file. */
  lemma CaseIgnored(name: seq<byte>)
    ensures ShortName(UpperAll(name)) == ShortName(name)
  {
    var u := UpperAll(name);
    SameStem(name, 0);
    assert UpperAll(u[..StemLength(u, 0)]) == UpperAll(name[..StemLength(name, 0)]);
    assert UpperAll(Extension(u)) == UpperAll(Extension(name));
    assert |name| == 1 && name[0] == PERIOD ==> name == [PERIOD];
    assert |name| == 2 && name[0] == PERIOD && name[1] == PERIOD ==> name == [PERIOD, PERIOD];
  }

  lemma {:induction false} SameStem(name: seq<byte>, i: nat)
    requires i <= |name| && i <= 8
    ensures StemLength(UpperAll(name), i) == StemLength(name, i)
    decreases |name| - i
  {
    if i < |name| && i < 8 && name[i] != PERIOD { SameStem(name, i + 1); }
  }

  /** One leading slash is skipped. */
  function Stripped(path: seq<byte>): seq<byte> {
    if path != [] && (path[0] == SLASH || path[0] == BACKSLASH) then path[1..] else path
  }

  // ---------------------------------------------------------------- entries

  /** The entry `create_file_entry` writes, with a size. */
  function NewEnt(n: Name83, attr: byte, first: nat, size: nat): Ent {
    n + [attr, 0, 0, 0, 0, 0, 0, 0, 0] + LittleEndian(first / TWO_16, 2) + [0, 0, 0, 0] +
    LittleEndian(first % TWO_16, 2) + LittleEndian(size, 4)
  }

  lemma NewEntFields(n: Name83, attr: byte, first: nat, size: nat)
    requires first < TWO_32 && size < TWO_32
    ensures var e := NewEnt(n, attr, first, size);
            NameOf(e) == n && AttrOf(e) == attr && ClusterOf(e) == first && SizeOf(e) == size
  {
    hide Number, LittleEndian;
    var e := NewEnt(n, attr, first, size);
    WordSizes();
    NumberOfLittleEndian(first / TWO_16, 2);
    NumberOfLittleEndian(first % TWO_16, 2);
    NumberOfLittleEndian(size, 4);
    assert e[20..22] == LittleEndian(first / TWO_16, 2);
    assert e[26..28] == LittleEndian(first % TWO_16, 2);
    assert e[28..32] == LittleEndian(size, 4);
  }

  /** Setting the size of an entry inside its sector. */
  lemma SizedEntry(b: seq<byte>, i: nat, n: Name83, attr: byte, first: nat, size: nat, was: nat)
    requires |b| == 512 && i < PER_DIR_SECTOR && EntAt(b, i) == NewEnt(n, attr, first, was)
    ensures PutU32(b, ENTRY * i + 28, size) == Patch(b, ENTRY * i, NewEnt(n, attr, first, size))
  {
    hide LittleEndian;
    var a := NewEnt(n, attr, first, was);
    var e := NewEnt(n, attr, first, size);
    assert e[..28] == a[..28] && e[28..] == LittleEndian(size, 4);
    forall k | 0 <= k < 512 ensures PutU32(b, ENTRY * i + 28, size)[k] == Patch(b, ENTRY * i, e)[k] {
      if ENTRY * i <= k < ENTRY * i + 28 {
        assert b[k] == EntAt(b, i)[k - ENTRY * i] == a[..28][k - ENTRY * i] == e[..28][k - ENTRY * i];
      } else if ENTRY * i + 28 <= k < ENTRY * i + 32 {
        assert e[k - ENTRY * i] == e[28..][k - ENTRY * i - 28];
      }
    }
  }

  /** Marking an entry deleted inside its sector. */
  lemma MarkedEntry(b: seq<byte>, i: nat)
    requires |b| == 512 && i < PER_DIR_SECTOR
    ensures b[ENTRY * i := DELETED] == Patch(b, ENTRY * i, EntAt(b, i)[0 := DELETED])
  {}
}
