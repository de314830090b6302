/** The shell's fixed-point numbers: `simple_atof` reads a decimal string into an integer scaled by
    10000, `print_fixed` writes one back. Both are loops over 64-bit integers; `int64` makes the
    verifier check that no step of either overflows. */
module FixedPoint {

  newtype int64 = x: int | -0x8000_0000_0000_0000 <= x < 0x8000_0000_0000_0000

  const FIXED_SCALE: int := 10000
  const CAP: int := 100_000_000_000   // the parser holds the integer part at this value

  // ---------------------------------------------------------------- what a text denotes

  predicate IsDigit(c: char) { '0' <= c <= '9' }

  predicate AllDigits(s: string) { forall i :: 0 <= i < |s| ==> IsDigit(s[i]) }

  /** The number of leading characters of `s` that are digits. */
  function DigitRun(s: string): (n: nat)
    ensures n <= |s| && AllDigits(s[..n])
    ensures n < |s| ==> !IsDigit(s[n])
  {
    if s == [] || !IsDigit(s[0]) then 0
    else
      assert forall i :: 0 < i <= DigitRun(s[1..]) ==> s[i] == s[1..][i - 1];
      1 + DigitRun(s[1..])
  }

  function Value(s: string): (v: nat)
    requires AllDigits(s)
  {
    if s == [] then 0 else Value(s[..|s| - 1]) * 10 + (s[|s| - 1] as int - '0' as int)
  }

  function Min(a: int, b: int): int { if a < b then a else b }

  function Pow10(n: nat): (p: nat)
    ensures p > 0
  {
    if n == 0 then 1 else 10 * Pow10(n - 1)
  }

  function DropSpaces(s: string): string {
    if s != [] && s[0] == ' ' then DropSpaces(s[1..]) else s
  }

  /** Ten-thousandths denoted by the characters after the point: at most four digits count. */
  function Fraction(s: string): nat {
    var m := Min(DigitRun(s), 4);
    Value(s[..m]) * Pow10(4 - m)
  }

  function Magnitude(u: string): nat {
    var n := DigitRun(u);
    var rest := u[n..];
    Min(Value(u[..n]), CAP) * FIXED_SCALE +
    (if rest != [] && rest[0] == '.' then Fraction(rest[1..]) else 0)
  }

  /** The scaled value of a string: blanks, a sign, digits held at CAP, a point, four digits. */
  function Parse(s: string): int {
    var t := DropSpaces(s);
    if t != [] && t[0] == '-' then 0 - Magnitude(t[1..])
    else if t != [] && t[0] == '+' then Magnitude(t[1..])
    else Magnitude(t)
  }

  // ---------------------------------------------------------------- what is printed for a value

  function Digit(d: int): (c: char)
    requires 0 <= d < 10
    ensures IsDigit(c) && c as int - '0' as int == d
  {
    '0' + d as char
  }

  function Decimal(n: nat): (s: string)
    ensures AllDigits(s) && s != []
  {
    if n < 10 then [Digit(n)] else Decimal(n / 10) + [Digit(n % 10)]
  }

  function FourDigits(f: nat): (s: string)
    requires f < FIXED_SCALE
    ensures |s| == 4 && AllDigits(s)
  {
    [Digit(f / 1000), Digit(f / 100 % 10), Digit(f / 10 % 10), Digit(f % 10)]
  }

  /** `s` without its trailing zeros, but never less than one character. */
  function TrimZeros(s: string): (t: string)
    requires s != []
    ensures t != [] && t <= s
  {
    if |s| > 1 && s[|s| - 1] == '0' then TrimZeros(s[..|s| - 1]) else s
  }

  function Text(v: int): string {
    var m: nat := if v < 0 then -v else v;
    (if v < 0 then "-" else "") + Decimal(m / FIXED_SCALE) +
    (if m % FIXED_SCALE == 0 then "" else "." + TrimZeros(FourDigits(m % FIXED_SCALE)))
  }

  // ---------------------------------------------------------------- the two loops of the source

  lemma ValueSnoc(s: string, i: nat)
    requires i < |s| && AllDigits(s[..i + 1])
    ensures AllDigits(s[..i])
    ensures IsDigit(s[i]) && Value(s[..i + 1]) == Value(s[..i]) * 10 + (s[i] as int - '0' as int)
  {
    assert s[..i + 1][..i] == s[..i];
    assert s[..i + 1][i] == s[i];
    forall j | 0 <= j < i ensures IsDigit(s[..i][j]) { assert s[..i + 1][j] == s[..i][j]; }
  }

  lemma {:induction false} ValueMonotone(s: string, i: nat, n: nat)
    requires i <= n <= |s| && AllDigits(s[..n])
    ensures AllDigits(s[..i]) && Value(s[..i]) <= Value(s[..n])
    decreases n - i
  {
    if i < n {
      ValueSnoc(s, n - 1);
      ValueMonotone(s, i, n - 1);
    }
  }

  lemma RunPrefix(s: string, i: nat)
    requires i <= DigitRun(s)
    ensures AllDigits(s[..i])
    ensures i < DigitRun(s) <==> i < |s| && IsDigit(s[i])
  {
    assert forall j :: 0 <= j < i ==> s[..i][j] == s[..DigitRun(s)][j];
    if i < DigitRun(s) { assert s[i] == s[..DigitRun(s)][i]; }
  }

  lemma {:induction false} PowSplit(n: nat)
    requires n > 0
    ensures Pow10(n) == Pow10(n - 1) * 10
  {}

  method SkipSpaces(s: string) returns (k: nat)
    ensures k <= |s| && s[k..] == DropSpaces(s)
  {
    k := 0;
    while k < |s| && s[k] == ' '
      invariant k <= |s| && DropSpaces(s) == DropSpaces(s[k..])
    {
      k := k + 1;
    }
  }

  method SimpleAtof(s: string) returns (r: int64)
    ensures r as int == Parse(s)
  {
    var k := SkipSpaces(s);
    ghost var t := DropSpaces(s);
    var neg := false;
    if k < |s| && s[k] == '-' {
      neg := true;
      k := k + 1;
    } else if k < |s| && s[k] == '+' {
      k := k + 1;
    }
    var m := MagnitudeLoop(s, k);
    r := if neg then -m else m;
  }

  method MagnitudeLoop(s: string, k: nat) returns (m: int64)
    requires k <= |s|
    ensures m as int == Magnitude(s[k..])
  {
    ghost var u := s[k..];
    var result, i := IntegerLoop(s, k);
    result := result * 10000;
    assert u[i - k..] == s[i..];
    if i < |s| && s[i] == '.' {
      i := i + 1;
      var f := FractionLoop(s, i);
      result := result + f;
      assert s[i - 1..][1..] == s[i..];
    }
    m := result;
  }

  /** The rest of a run of digits is passed over. */
  method SkipDigits(s: string, from: nat, ghost k: nat) returns (i: nat)
    requires k <= from <= |s| && from <= k + DigitRun(s[k..])
    requires from - k < DigitRun(s[k..]) <==> from < |s| && IsDigit(s[from])
    ensures i == k + DigitRun(s[k..])
  {
    hide DigitRun;
    ghost var u := s[k..];
    i := from;
    while i < |s| && '0' <= s[i] <= '9'
      invariant from <= i <= |s| && i <= k + DigitRun(u)
      invariant i - k < DigitRun(u) <==> i < |s| && IsDigit(s[i])
    {
      RunPrefix(u, i + 1 - k);
      i := i + 1;
    }
  }

  /** The digit loop of `simple_atof`, with its early stop at the cap. */
  method IntegerLoop(s: string, k: nat) returns (result: int64, i: nat)
    requires k <= |s|
    ensures i == k + DigitRun(s[k..])
    ensures result as int == Min(Value(s[k..][..i - k]), CAP)
  {
    ghost var u := s[k..];
    ghost var n := DigitRun(u);
    result := 0;
    i := k;
    while i < |s| && '0' <= s[i] <= '9'
      invariant k <= i <= k + n
      invariant AllDigits(u[..i - k])
      invariant i - k < n <==> i < |s| && IsDigit(s[i])
      invariant result as int == Value(u[..i - k]) <= CAP
    {
      RunPrefix(u, i + 1 - k);
      ValueSnoc(u, i - k);
      result := result * 10 + (s[i] as int - '0' as int) as int64;
      if result > 100000000000 {
        result := 100000000000;
        ghost var at := i + 1;
        i := SkipDigits(s, i, k);
        ValueMonotone(u, at - k, n);
        return;
      }
      i := i + 1;
    }
  }

  /** One more digit: the value grows tenfold while the weight of a digit shrinks tenfold. */
  lemma FractionStep(v: nat, d: nat, n: nat)
    requires n < 4 && d < 10
    requires v * Pow10(4 - n) + Pow10(4 - n) <= FIXED_SCALE
    ensures v * Pow10(4 - n) + d * Pow10(3 - n) == (v * 10 + d) * Pow10(3 - n)
    ensures (v * 10 + d) * Pow10(3 - n) + Pow10(3 - n) <= FIXED_SCALE
    ensures d * Pow10(3 - n) <= FIXED_SCALE
    ensures Pow10(3 - n) / 10 == if n == 3 then 0 else Pow10(2 - n)
  {
    assert Pow10(0) == 1 && Pow10(1) == 10 && Pow10(2) == 100 && Pow10(3) == 1000 && Pow10(4) == 10000;
    if n == 0 {} else if n == 1 {} else if n == 2 {} else {}
  }

  /** The fraction loop of `simple_atof`: `frac` is 1000, 100, 10, 1, then 0. */
  method FractionLoop(s: string, k: nat) returns (f: int64)
    requires k <= |s|
    ensures f as int == Fraction(s[k..]) < FIXED_SCALE
  {
    ghost var u := s[k..];
    ghost var n := DigitRun(u);
    hide Value, DigitRun, Pow10, Scaled;
    f := 0;
    var frac: int64 := 1000;
    FractionStart(u);
    var i := k;
    while i < |s| && '0' <= s[i] <= '9' && frac > 0
      invariant k <= i <= k + Min(n, 4)
      invariant AllDigits(u[..i - k])
      invariant i - k < n <==> i < |s| && IsDigit(s[i])
      invariant frac as int == if i - k == 4 then 0 else Pow10(3 - (i - k))
      invariant f as int == Scaled(u, i - k) && f as int + Pow10(4 - (i - k)) <= FIXED_SCALE
    {
      var d := s[i] as int - '0' as int;
      FractionDigit(u, i - k, d);
      f := f + d as int64 * frac;
      frac := frac / 10;
      i := i + 1;
    }
  }

  /** The first `j` fraction digits in units of 1/10000. */
  ghost function Scaled(u: string, j: nat): int
    requires j <= |u| && j <= 4 && AllDigits(u[..j])
  {
    Value(u[..j]) * Pow10(4 - j)
  }

  lemma FractionStart(u: string)
    ensures Pow10(4) == FIXED_SCALE && Pow10(3) == 1000
    ensures AllDigits(u[..0]) && Scaled(u, 0) == 0
    ensures 0 < DigitRun(u) <==> 0 < |u| && IsDigit(u[0])
  {
    RunPrefix(u, 0);
  }

  lemma FractionDigit(u: string, j: nat, d: nat)
    requires j < DigitRun(u) && j < 4 && u[j] as int - '0' as int == d < 10
    requires AllDigits(u[..j])
    requires Scaled(u, j) + Pow10(4 - j) <= FIXED_SCALE
    ensures AllDigits(u[..j + 1])
    ensures j + 1 < DigitRun(u) <==> j + 1 < |u| && IsDigit(u[j + 1])
    ensures Scaled(u, j) + d * Pow10(3 - j) == Scaled(u, j + 1) && Scaled(u, j + 1) + Pow10(3 - j) <= FIXED_SCALE
    ensures d * Pow10(3 - j) <= FIXED_SCALE
    ensures Pow10(3 - j) / 10 == if j == 3 then 0 else Pow10(2 - j)
  {
    RunPrefix(u, j + 1);
    ValueSnoc(u, j);
    FractionStep(Value(u[..j]), d, j);
  }

  method PrintFixed(v: int64) returns (out: string)
    requires v != -0x8000_0000_0000_0000   // negating it is undefined in the source
    ensures out == Text(v as int)
  {
    hide TrimZeros, FourDigits;
    out := "";
    var w := v;
    if w < 0 {
      out := out + "-";
      w := -w;
    }
    var ipart := w / 10000;
    var fpart := w % 10000;
    if ipart == 0 {
      out := out + "0";
    } else {
      var buf: string := PrintDigits(ipart);
      out := out + buf;
    }
    if fpart == 0 { return; }
    out := out + ".";
    var digits := PrintFraction(fpart);
    out := out + digits;
  }

  /** The digit loop: digits come out backwards into a buffer, and are then written in reverse. */
  method PrintDigits(n: int64) returns (s: string)
    requires n > 0
    ensures s == Decimal(n as int)
  {
    hide Weight, Pow10;
    var buf := new char[24];
    var i := 0;
    var m := n;
    ghost var done: string := "";
    NoDigitsYet(n as int);
    while m > 0
      invariant 0 <= m && 0 <= i <= 19 && (i > 0 || m == n)
      invariant Weight(m as int, i) <= n as int
      invariant |done| == i
      invariant forall j :: 0 <= j < i ==> done[j] == buf[i - 1 - j]
      invariant Decimal(n as int) == if m == 0 then done else Decimal(m as int) + done
      decreases m
    {
      DigitBudget(m as int, i, n as int);
      assert Decimal(m as int) == (if m < 10 then "" else Decimal(m as int / 10)) + [Digit(m as int % 10)];
      buf[i] := '0' + (m % 10) as char;
      done := [Digit(m as int % 10)] + done;
      i, m := i + 1, m / 10;
    }
    s := WriteBackwards(buf, i, done);
  }

  /** The second loop: the buffer from its end. */
  method WriteBackwards(buf: array<char>, n: int, ghost done: string) returns (s: string)
    requires 0 <= n == |done| <= buf.Length && forall j :: 0 <= j < n ==> done[j] == buf[n - 1 - j]
    ensures s == done
  {
    s := "";
    var j := n - 1;
    while j >= 0
      invariant -1 <= j < n
      invariant s == done[..n - 1 - j]
    {
      s := s + [buf[j]];
      j := j - 1;
    }
    assert done[..n] == done;
  }

  ghost function Weight(m: nat, i: nat): nat { m * Pow10(i) }

  lemma NoDigitsYet(n: nat)
    ensures Weight(n, 0) == n
  {}

  lemma DigitBudget(m: nat, i: nat, n: nat)
    requires m > 0 && Weight(m, i) <= n < 0x8000_0000_0000_0000
    ensures i < 19
    ensures Weight(m / 10, i + 1) <= n
  {
    MulMonotone(1, m, Pow10(i));
    if i >= 19 { PowAtLeast(i); }
    PowSplit(i + 1);
    MulMonotone(m / 10 * 10, m, Pow10(i));
    MulRegroup(m / 10, 10, Pow10(i));
  }

  lemma MulMonotone(a: nat, b: nat, p: nat)
    requires a <= b
    ensures a * p <= b * p
  {}

  lemma MulRegroup(a: nat, b: nat, p: nat)
    ensures a * (p * b) == (a * b) * p
  {}

  lemma {:induction false} PowAtLeast(i: nat)
    requires i >= 19
    ensures Pow10(i) >= 10_000_000_000_000_000_000
  {
    if i > 19 { PowAtLeast(i - 1); } else { assert Pow10(10) == 10_000_000_000; }
  }

  method PrintFraction(f: int64) returns (out: string)
    requires 0 < f < 10000
    ensures out == TrimZeros(FourDigits(f as int))
  {
    var digits := new char[4];
    var rest := f;
    ghost var p := [1, 10, 100, 1000, 10000];
    for i := 4 downto 0
      invariant rest as int == f as int / p[4 - i]
      invariant forall j :: i <= j < 4 ==> digits[j] == FourDigits(f as int)[j]
    {
      digits[i] := '0' + (rest % 10) as char;
      rest := rest / 10;
    }
    assert digits[..] == FourDigits(f as int);
    assert digits[..4] == digits[..];
    var last := 3;
    while last > 0 && digits[last] == '0'
      invariant 0 <= last <= 3
      invariant TrimZeros(digits[..last + 1]) == TrimZeros(digits[..])
    {
      assert digits[..last + 1][..last] == digits[..last];
      last := last - 1;
    }
    out := digits[..last + 1];
  }

  // ---------------------------------------------------------------- the round trip

  lemma {:induction false} RunOfDigits(d: string, rest: string)
    requires AllDigits(d)
    requires rest == [] || !IsDigit(rest[0])
    ensures DigitRun(d + rest) == |d|
    ensures (d + rest)[..|d|] == d && (d + rest)[|d|..] == rest
  {
    if d == [] {
      assert d + rest == rest;
    } else {
      assert (d + rest)[1..] == d[1..] + rest;
      RunOfDigits(d[1..], rest);
    }
  }

  lemma {:induction false} ValueOfDecimal(n: nat)
    ensures Value(Decimal(n)) == n
  {
    var s := Decimal(n);
    if n < 10 {
      assert s[..0] == "" && Value(s[..0]) == 0;
    } else {
      ValueOfDecimal(n / 10);
      assert s[..|s| - 1] == Decimal(n / 10);
    }
  }

  lemma ValueOfFourDigits(f: nat)
    requires f < FIXED_SCALE
    ensures Value(FourDigits(f)) == f
  {
    SplitFour(f);
    ValueOfFour(f / 1000, f / 100 % 10, f / 10 % 10, f % 10);
  }

  lemma SplitFour(f: nat)
    requires f < FIXED_SCALE
    ensures f == 1000 * (f / 1000) + 100 * (f / 100 % 10) + 10 * (f / 10 % 10) + f % 10
  {
    var a, b, c := f / 10, f / 100, f / 1000;
    assert b == a / 10 && c == b / 10;
  }

  lemma ValueOfFour(a: nat, b: nat, c: nat, d: nat)
    requires a < 10 && b < 10 && c < 10 && d < 10
    ensures Value([Digit(a), Digit(b), Digit(c), Digit(d)]) == 1000 * a + 100 * b + 10 * c + d
  {
    var s := [Digit(a), Digit(b), Digit(c), Digit(d)];
    assert s[..4] == s && s[..0] == "";
    ValueSnoc(s, 3);
    ValueSnoc(s, 2);
    ValueSnoc(s, 1);
    ValueSnoc(s, 0);
  }

  lemma TenTimes(a: nat, b: nat)
    ensures a * (10 * b) == 10 * (a * b)
  {}

  lemma {:induction false} TrimKeepsValue(s: string)
    requires s != [] && AllDigits(s)
    ensures AllDigits(TrimZeros(s))
    ensures Value(TrimZeros(s)) * Pow10(|s| - |TrimZeros(s)|) == Value(s)
  {
    if |s| > 1 && s[|s| - 1] == '0' {
      var t := TrimZeros(s);
      TrimKeepsValue(s[..|s| - 1]);
      PowSplit(|s| - |t|);
      TenTimes(Value(t), Pow10(|s| - 1 - |t|));
    }
  }

  lemma FractionOfPrinted(f: nat)
    requires 0 < f < FIXED_SCALE
    ensures Fraction(TrimZeros(FourDigits(f))) == f
  {
    var t := TrimZeros(FourDigits(f));
    TrimKeepsValue(FourDigits(f));
    ValueOfFourDigits(f);
    RunOfDigits(t, "");
    assert t + "" == t && t[..|t|] == t;
  }

  /** What the parser makes of a printed magnitude: the value itself, its integer part held at CAP. */
  lemma MagnitudeOfPrinted(m: nat)
    ensures Magnitude(Text(m)) == Min(m / FIXED_SCALE, CAP) * FIXED_SCALE + m % FIXED_SCALE
  {
    var d := Decimal(m / FIXED_SCALE);
    var f := m % FIXED_SCALE;
    var rest := if f == 0 then "" else "." + TrimZeros(FourDigits(f));
    assert Text(m) == d + rest;
    RunOfDigits(d, rest);
    ValueOfDecimal(m / FIXED_SCALE);
    if f != 0 {
      assert rest[1..] == TrimZeros(FourDigits(f));
      FractionOfPrinted(f);
    }
  }

  lemma ParseOfPrinted(v: int)
    ensures var m := if v < 0 then -v else v;
            var back := Min(m / FIXED_SCALE, CAP) * FIXED_SCALE + m % FIXED_SCALE;
            Parse(Text(v)) == if v < 0 then -back else back
  {
    hide Magnitude, Decimal, TrimZeros, FourDigits, DigitRun;
    var m: nat := if v < 0 then -v else v;
    MagnitudeOfPrinted(m);
    var head := Decimal(m / FIXED_SCALE);
    assert Text(m)[0] == head[0] && IsDigit(head[0]);
    if v < 0 {
      assert Text(v)[0] == '-' && Text(v)[1..] == Text(m);
    }
  }

  /** Printing a value and parsing the text gives the value back exactly when its integer part is
      within the parser's cap; beyond it the parse is smaller in magnitude. */
  lemma RoundTrip(v: int)
    ensures Parse(Text(v)) == v <==> -CAP <= (if v < 0 then -(-v / FIXED_SCALE) else v / FIXED_SCALE) <= CAP
  {
    ParseOfPrinted(v);
  }

  lemma ParseIsCapped(s: string)
    ensures var r := Parse(s);
            (if r < 0 then -r else r) / FIXED_SCALE <= CAP
  {
    var t := DropSpaces(s);
    MagnitudeIsCapped(t);
    if t != [] { MagnitudeIsCapped(t[1..]); }
  }

  lemma MagnitudeIsCapped(u: string)
    ensures Magnitude(u) < (CAP + 1) * FIXED_SCALE
  {
    var rest := u[DigitRun(u)..];
    if rest != [] { FractionIsSmall(rest[1..]); }
  }

  lemma FractionIsSmall(s: string)
    ensures Fraction(s) < FIXED_SCALE
  {
    var m := Min(DigitRun(s), 4);
    RunPrefix(s, m);
    ValueIsSmall(s[..m]);
    var p := Pow10(m);
    assert Pow10(0) == 1 && Pow10(1) == 10 && Pow10(2) == 100 && Pow10(3) == 1000 && Pow10(4) == 10000;
    if m == 0 {} else if m == 1 {} else if m == 2 {} else if m == 3 {} else {}
  }

  lemma {:induction false} ValueIsSmall(s: string)
    requires AllDigits(s)
    ensures Value(s) < Pow10(|s|)
  {
    if s != [] {
      ValueIsSmall(s[..|s| - 1]);
      PowSplit(|s|);
    }
  }

  /** Whatever the user typed, printing what was parsed and parsing that again changes nothing. */
  lemma ReparseIsStable(s: string)
    ensures Parse(Text(Parse(s))) == Parse(s)
  {
    ParseIsCapped(s);
    RoundTrip(Parse(s));
  }
}
