/** Bytes as the kernel sees them: bitmaps, little-endian words, and packed structures, which are
    windows into a byte buffer. */
module Bytes {

  type byte = x: int | 0 <= x < 256

  const TWO_16: int := 0x1_0000
  const TWO_32: int := 0x1_0000_0000

  // ---------------------------------------------------------------- bits of a byte

  /** `(x & (1u << k)) != 0` */
  predicate TestBit(x: nat, k: nat)
    decreases k
  {
    if k == 0 then x % 2 == 1 else TestBit(x / 2, k - 1)
  }

  /** `x | (1u << k)` */
  function OrBit(x: nat, k: nat): nat
    decreases k
  {
    if k == 0 then (if x % 2 == 1 then x else x + 1) else 2 * OrBit(x / 2, k - 1) + x % 2
  }

  /** `x & ~(1u << k)` */
  function ClearBit(x: nat, k: nat): nat
    decreases k
  {
    if k == 0 then (if x % 2 == 1 then x - 1 else x) else 2 * ClearBit(x / 2, k - 1) + x % 2
  }

  function Pow2(n: nat): (p: nat)
    ensures p > 0
  {
    if n == 0 then 1 else 2 * Pow2(n - 1)
  }

  lemma {:induction false} OrBitBits(x: nat, k: nat, j: nat)
    ensures TestBit(OrBit(x, k), j) <==> j == k || TestBit(x, j)
    decreases k
  {
    var y := OrBit(x, k);
    if k == 0 {
      assert y / 2 == x / 2;
    } else {
      assert y % 2 == x % 2 && y / 2 == OrBit(x / 2, k - 1);
      if j > 0 { OrBitBits(x / 2, k - 1, j - 1); }
    }
  }

  lemma {:induction false} ClearBitBits(x: nat, k: nat, j: nat)
    ensures TestBit(ClearBit(x, k), j) <==> j != k && TestBit(x, j)
    decreases k
  {
    var y := ClearBit(x, k);
    if k == 0 {
      assert y / 2 == x / 2;
    } else {
      assert y % 2 == x % 2 && y / 2 == ClearBit(x / 2, k - 1);
      if j > 0 { ClearBitBits(x / 2, k - 1, j - 1); }
    }
  }

  lemma {:induction false} BitOpsStayInWidth(x: nat, k: nat, n: nat)
    requires x < Pow2(n) && k < n
    ensures OrBit(x, k) < Pow2(n) && ClearBit(x, k) < Pow2(n)
    decreases k
  {
    if k > 0 { BitOpsStayInWidth(x / 2, k - 1, n - 1); }
  }

  lemma {:induction false} ByteOps(x: byte, k: nat)
    requires k < 8
    ensures OrBit(x, k) < 256 && ClearBit(x, k) < 256
  {
    assert Pow2(4) == 16 && Pow2(8) == 256;
    BitOpsStayInWidth(x, k, 8);
  }

  lemma {:induction false} AllOnes(n: nat, k: nat)
    requires k < n
    ensures TestBit(Pow2(n) - 1, k)
    decreases k
  {
    var x: nat := Pow2(n) - 1;
    assert x % 2 == 1 && x / 2 == Pow2(n - 1) - 1;
    if k > 0 { AllOnes(n - 1, k - 1); }
  }

  /** A number below 2^n that is not all ones has a clear bit below n: what the `0xFF` test skips. */
  lemma {:induction false} SomeBitClear(x: nat, n: nat) returns (k: nat)
    requires x < Pow2(n) - 1
    ensures k < n && !TestBit(x, k)
  {
    if x % 2 == 0 {
      k := 0;
    } else {
      var j := SomeBitClear(x / 2, n - 1);
      k := j + 1;
    }
  }

  // ---------------------------------------------------------------- bitmaps

  predicate Bit(bm: seq<byte>, i: nat)
    requires i / 8 < |bm|
  {
    TestBit(bm[i / 8], i % 8)
  }

  function WithBit(bm: seq<byte>, i: nat): (r: seq<byte>)
    requires i / 8 < |bm|
    ensures |r| == |bm|
  {
    ByteOps(bm[i / 8], i % 8);
    bm[i / 8 := OrBit(bm[i / 8], i % 8)]
  }

  function WithoutBit(bm: seq<byte>, i: nat): (r: seq<byte>)
    requires i / 8 < |bm|
    ensures |r| == |bm|
  {
    ByteOps(bm[i / 8], i % 8);
    bm[i / 8 := ClearBit(bm[i / 8], i % 8)]
  }

  lemma WithBitBits(bm: seq<byte>, i: nat, j: nat)
    requires i / 8 < |bm| && j / 8 < |bm|
    ensures Bit(WithBit(bm, i), j) <==> j == i || Bit(bm, j)
  {
    ByteOps(bm[i / 8], i % 8);
    OrBitBits(bm[i / 8], i % 8, j % 8);
  }

  lemma WithoutBitBits(bm: seq<byte>, i: nat, j: nat)
    requires i / 8 < |bm| && j / 8 < |bm|
    ensures Bit(WithoutBit(bm, i), j) <==> j != i && Bit(bm, j)
  {
    ByteOps(bm[i / 8], i % 8);
    ClearBitBits(bm[i / 8], i % 8, j % 8);
  }

  /** The number of clear bits among the first `n`. */
  function ClearCount(bm: seq<byte>, n: nat): (c: nat)
    requires n <= 8 * |bm|
    ensures c <= n
  {
    if n == 0 then 0 else ClearCount(bm, n - 1) + (if Bit(bm, n - 1) then 0 else 1)
  }

  lemma {:induction false} ClearCountSame(a: seq<byte>, b: seq<byte>, n: nat)
    requires n <= 8 * |a| && n <= 8 * |b|
    requires forall j: nat :: j < n ==> Bit(a, j) == Bit(b, j)
    ensures ClearCount(a, n) == ClearCount(b, n)
  {
    if n > 0 { ClearCountSame(a, b, n - 1); }
  }

  lemma {:induction false} ClearCountSet(bm: seq<byte>, i: nat, n: nat)
    requires i < n <= 8 * |bm|
    ensures ClearCount(WithBit(bm, i), n) == ClearCount(bm, n) - (if Bit(bm, i) then 0 else 1)
  {
    WithBitBits(bm, i, n - 1);
    if i < n - 1 {
      ClearCountSet(bm, i, n - 1);
    } else {
      forall j: nat | j < n - 1 ensures Bit(WithBit(bm, i), j) == Bit(bm, j) { WithBitBits(bm, i, j); }
      ClearCountSame(WithBit(bm, i), bm, n - 1);
    }
  }

  lemma {:induction false} ClearCountCleared(bm: seq<byte>, i: nat, n: nat)
    requires i < n <= 8 * |bm|
    ensures ClearCount(WithoutBit(bm, i), n) == ClearCount(bm, n) + (if Bit(bm, i) then 1 else 0)
  {
    WithoutBitBits(bm, i, n - 1);
    if i < n - 1 {
      ClearCountCleared(bm, i, n - 1);
    } else {
      forall j: nat | j < n - 1 ensures Bit(WithoutBit(bm, i), j) == Bit(bm, j) { WithoutBitBits(bm, i, j); }
      ClearCountSame(WithoutBit(bm, i), bm, n - 1);
    }
  }

  lemma {:induction false} ClearCountZero(bm: seq<byte>, n: nat)
    requires n <= 8 * |bm|
    ensures ClearCount(bm, n) == 0 <==> forall j: nat :: j < n ==> Bit(bm, j)
  {
    if n > 0 { ClearCountZero(bm, n - 1); }
  }

  // ---------------------------------------------------------------- windows and little-endian words

  /** The buffer `b` with the bytes `s` stored at `off`: a `memcpy` of a packed structure. */
  function Patch(b: seq<byte>, off: nat, s: seq<byte>): (r: seq<byte>)
    requires off + |s| <= |b|
    ensures |r| == |b|
  {
    b[..off] + s + b[off + |s|..]
  }

  lemma PatchWindow(b: seq<byte>, off: nat, s: seq<byte>, o: nat, n: nat)
    requires off + |s| <= |b| && o + n <= |b|
    ensures Patch(b, off, s)[off..off + |s|] == s
    ensures o + n <= off || off + |s| <= o ==> Patch(b, off, s)[o..o + n] == b[o..o + n]
    ensures forall i :: 0 <= i < |b| && !(off <= i < off + |s|) ==> Patch(b, off, s)[i] == b[i]
  {}

  function Number(s: seq<byte>): nat {
    if s == [] then 0 else s[0] + 256 * Number(s[1..])
  }

  function LittleEndian(v: nat, n: nat): (s: seq<byte>)
    ensures |s| == n
    decreases n
  {
    if n == 0 then [] else [v % 256] + LittleEndian(v / 256, n - 1)
  }

  function Pow256(n: nat): (p: nat)
    ensures p > 0
  {
    if n == 0 then 1 else 256 * Pow256(n - 1)
  }

  lemma {:induction false} NumberOfLittleEndian(v: nat, n: nat)
    requires v < Pow256(n)
    ensures Number(LittleEndian(v, n)) == v
    decreases n
  {
    if n > 0 {
      NumberOfLittleEndian(v / 256, n - 1);
      assert LittleEndian(v, n)[1..] == LittleEndian(v / 256, n - 1);
    }
  }

  lemma {:induction false} NumberBound(s: seq<byte>)
    ensures Number(s) < Pow256(|s|)
  {
    if s != [] { NumberBound(s[1..]); }
  }

  lemma {:induction false} NumberOfZeros(s: seq<byte>)
    requires forall i :: 0 <= i < |s| ==> s[i] == 0
    ensures Number(s) == 0
  {
    if s != [] { NumberOfZeros(s[1..]); }
  }

  lemma WordSizes()
    ensures Pow256(2) == TWO_16 && Pow256(4) == TWO_32
  {}

  function GetU16(b: seq<byte>, off: nat): (v: nat)
    requires off + 2 <= |b|
    ensures v < TWO_16
  {
    NumberBound(b[off..off + 2]);
    WordSizes();
    Number(b[off..off + 2])
  }

  function PutU16(b: seq<byte>, off: nat, v: nat): (r: seq<byte>)
    requires off + 2 <= |b|
    ensures |r| == |b|
  {
    Patch(b, off, LittleEndian(v, 2))
  }

  function GetU32(b: seq<byte>, off: nat): (v: nat)
    requires off + 4 <= |b|
    ensures v < TWO_32
  {
    NumberBound(b[off..off + 4]);
    WordSizes();
    Number(b[off..off + 4])
  }

  function PutU32(b: seq<byte>, off: nat, v: nat): (r: seq<byte>)
    requires off + 4 <= |b|
    ensures |r| == |b|
  {
    Patch(b, off, LittleEndian(v, 4))
  }

  lemma PutGet16(b: seq<byte>, off: nat, v: nat)
    requires off + 2 <= |b| && v < TWO_16
    ensures GetU16(PutU16(b, off, v), off) == v
  {
    WordSizes();
    PatchWindow(b, off, LittleEndian(v, 2), off, 2);
    NumberOfLittleEndian(v, 2);
  }

  lemma PutGet32(b: seq<byte>, off: nat, v: nat)
    requires off + 4 <= |b| && v < TWO_32
    ensures GetU32(PutU32(b, off, v), off) == v
  {
    WordSizes();
    PatchWindow(b, off, LittleEndian(v, 4), off, 4);
    NumberOfLittleEndian(v, 4);
  }

  /** A patch does not change the words outside it. */
  lemma PatchKeepsWords(b: seq<byte>, off: nat, s: seq<byte>, o: nat)
    requires off + |s| <= |b|
    ensures o + 2 <= |b| && (o + 2 <= off || off + |s| <= o) ==> GetU16(Patch(b, off, s), o) == GetU16(b, o)
    ensures o + 4 <= |b| && (o + 4 <= off || off + |s| <= o) ==> GetU32(Patch(b, off, s), o) == GetU32(b, o)
  {
    if o + 2 <= |b| { PatchWindow(b, off, s, o, 2); }
    if o + 4 <= |b| { PatchWindow(b, off, s, o, 4); }
  }

  function Zeros(n: nat): (z: seq<byte>)
    ensures |z| == n
  {
    seq(n, _ => 0)
  }

  lemma ZeroWord(b: seq<byte>, off: nat)
    requires off + 4 <= |b| && forall i :: off <= i < off + 4 ==> b[i] == 0
    ensures GetU32(b, off) == 0
  {
    NumberOfZeros(b[off..off + 4]);
  }
}
