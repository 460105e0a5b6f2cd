/** Decimal texts: digit strings, the fixed-point rendering of `Number.prototype.toFixed`,
    integer rendering, the trailing-zero strip `/\.?0+$/` and a reader that gives back the
    value a decimal text denotes. Amounts are exact reals; binary floating point is not
    modelled. */
module Decimal {
  import opened Outcome

  predicate IsDigit(c: char) {
    '0' <= c <= '9'
  }

  predicate AllDigits(s: string) {
    forall i :: 0 <= i < |s| ==> IsDigit(s[i])
  }

  predicate AllZeros(s: string) {
    forall i :: 0 <= i < |s| ==> s[i] == '0'
  }

  function DigitValue(c: char): nat
    requires IsDigit(c)
  {
    c as int - '0' as int
  }

  function DigitChar(d: nat): (c: char)
    requires d < 10
    ensures IsDigit(c) && DigitValue(c) == d
  {
    (d + '0' as int) as char
  }

  function Pow10(k: nat): (p: nat)
    ensures p >= 1
  {
    if k == 0 then 1 else 10 * Pow10(k - 1)
  }

  /** The value of a digit string read as a base-ten numeral ("" reads as 0). */
  function DigitsValue(s: string): nat
    requires AllDigits(s)
  {
    if |s| == 0 then 0 else DigitsValue(s[..|s| - 1]) * 10 + DigitValue(s[|s| - 1])
  }

  /** The shortest base-ten numeral of n: at least one digit, no leading zero. */
  function NatToDigits(n: nat): (s: string)
    ensures 1 <= |s| && AllDigits(s)
    ensures s[0] == '0' ==> n == 0
    decreases n
  {
    if n < 10 then [DigitChar(n)] else NatToDigits(n / 10) + [DigitChar(n % 10)]
  }

  /** Writing a number and reading it back gives the number. */
  lemma {:induction false} NatToDigitsValue(n: nat)
    ensures DigitsValue(NatToDigits(n)) == n
    decreases n
  {
    if n >= 10 {
      var s := NatToDigits(n);
      assert s[..|s| - 1] == NatToDigits(n / 10);
      NatToDigitsValue(n / 10);
    }
  }

  /** A number below 10^k needs at most k digits. */
  lemma {:induction false} NatToDigitsShort(n: nat, k: nat)
    requires 1 <= k && n < Pow10(k)
    ensures |NatToDigits(n)| <= k
    decreases k
  {
    if n >= 10 {
      assert k != 1 by {
        assert Pow10(1) == 10;
      }
      assert n / 10 < Pow10(k - 1);
      NatToDigitsShort(n / 10, k - 1);
    }
  }

  function Zeros(k: nat): (s: string)
    ensures |s| == k && AllZeros(s) && AllDigits(s)
  {
    seq(k, _ => '0')
  }

  lemma {:induction false} ZerosValue(k: nat)
    ensures DigitsValue(Zeros(k)) == 0
  {
    if k > 0 {
      assert Zeros(k)[..k - 1] == Zeros(k - 1);
      ZerosValue(k - 1);
    }
  }

  /** Leading zeros do not change the value of a numeral. */
  lemma {:induction false} LeadingZerosValue(k: nat, s: string)
    requires AllDigits(s)
    ensures AllDigits(Zeros(k) + s) && DigitsValue(Zeros(k) + s) == DigitsValue(s)
    decreases |s|
  {
    var t := Zeros(k) + s;
    if |s| == 0 {
      assert t == Zeros(k);
      ZerosValue(k);
    } else {
      assert t[..|t| - 1] == Zeros(k) + s[..|s| - 1];
      LeadingZerosValue(k, s[..|s| - 1]);
    }
  }

  /** Trailing zeros scale the value of a numeral by a power of ten. */
  lemma {:induction false} TrailingZerosValue(s: string, k: nat)
    requires AllDigits(s)
    ensures AllDigits(s + Zeros(k)) && DigitsValue(s + Zeros(k)) == DigitsValue(s) * Pow10(k)
    decreases k
  {
    var t := s + Zeros(k);
    if k == 0 {
      assert t == s;
    } else {
      assert t[..|t| - 1] == s + Zeros(k - 1);
      assert t[|t| - 1] == '0';
      TrailingZerosValue(s, k - 1);
      MulTen(DigitsValue(s), Pow10(k - 1));
    }
  }

  lemma MulTen(v: nat, p: nat)
    ensures (v * p) * 10 == v * (10 * p)
  {
  }

  lemma {:induction false} Pow10Add(a: nat, b: nat, c: nat)
    requires c == a + b
    ensures Pow10(c) == Pow10(a) * Pow10(b)
    decreases a
  {
    if a > 0 {
      Pow10Add(a - 1, b, c - 1);
    }
  }

  function Abs(x: real): (a: real)
    ensures a >= 0.0 && (a == x || a == -x)
  {
    if x < 0.0 then -x else x
  }

  /** `Math.round`: the integer nearest to x, halves rounded up. */
  function RoundHalfUp(x: real): (n: int)
    ensures x - 0.5 < n as real <= x + 0.5
  {
    (x + 0.5).Floor
  }

  /** |x| scaled by 10^d and rounded half up: the digits `toFixed(d)` writes. */
  function ScaledDigits(x: real, d: nat): nat
  {
    var y := Abs(x) * Pow10(d) as real;
    assert y >= 0.0;
    RoundHalfUp(y)
  }

  /** The value `toFixed(d)` writes for x: x rounded half up (in magnitude) to d places. */
  function Rounded(x: real, d: nat): real {
    var m := ScaledDigits(x, d) as real / Pow10(d) as real;
    if x < 0.0 then -m else m
  }

  lemma DivMono(u: real, v: real, p: real)
    requires p > 0.0 && u <= v
    ensures u / p <= v / p
  {
  }

  lemma DivStrict(u: real, v: real, p: real)
    requires p > 0.0 && u < v
    ensures u / p < v / p
  {
  }

  lemma DivSub(n: real, a: real, p: real)
    requires p > 0.0
    ensures n / p - a == (n - a * p) / p
  {
  }

  lemma ScaleCancel(a: nat, b: nat, c: nat)
    requires b >= 1 && c >= 1
    ensures (a * c) as real / (b * c) as real == a as real / b as real
  {
    assert (a * c) as real == a as real * c as real;
    assert (b * c) as real == b as real * c as real;
  }

  /** A half-unit error on the scaled value is a 1/(2p) error after scaling back. */
  lemma ScaleBackError(a: real, n: real, p: real)
    requires p > 0.0 && a * p - 0.5 < n <= a * p + 0.5
    ensures -(0.5 / p) < n / p - a <= 0.5 / p
  {
    DivSub(n, a, p);
    DivStrict(-0.5, n - a * p, p);
    DivMono(n - a * p, 0.5, p);
  }

  /** The rounded value is within half a unit of the last written place of x. */
  lemma RoundedIsClose(x: real, d: nat)
    ensures Abs(Rounded(x, d) - x) <= 0.5 / Pow10(d) as real
  {
    var p := Pow10(d) as real;
    var n := ScaledDigits(x, d) as real;
    ScaleBackError(Abs(x), n, p);
  }

  /** A decimal text `[-]whole[.frac]`: the point is written only before a non-empty fraction. */
  datatype Numeral = Numeral(neg: bool, whole: string, frac: string) {

    predicate Valid() {
      1 <= |whole| && AllDigits(whole) && AllDigits(frac)
    }

    function Text(): string {
      (if neg then "-" else "") + whole + (if |frac| == 0 then "" else "." + frac)
    }

    /** The value the numeral denotes. */
    function Value(): real
      requires Valid()
    {
      var magnitude := DigitsValue(whole) as real + DigitsValue(frac) as real / Pow10(|frac|) as real;
      if neg then -magnitude else magnitude
    }
  }

  /** The parts `toFixed(d)` writes for x (x below 10^21): the sign when x < 0, the integer
      part of the rounded magnitude and exactly d fraction digits. */
  function Fixed(x: real, d: nat): (r: Numeral)
    ensures r.Valid() && |r.frac| == d && r.neg == (x < 0.0)
  {
    var n := ScaledDigits(x, d);
    var p := Pow10(d);
    DivMod(n, p);
    var frac := if d == 0 then "" else FracDigits(n % p, d);
    Numeral(x < 0.0, NatToDigits(n / p), frac)
  }

  /** The d fraction digits of f < 10^d: its numeral left-padded with '0' to width d. */
  function FracDigits(f: nat, d: nat): (r: string)
    requires 1 <= d && f < Pow10(d)
    ensures |r| == d && AllDigits(r)
  {
    NatToDigitsShort(f, d);
    var fd := NatToDigits(f);
    Zeros(d - |fd|) + fd
  }

  lemma FracDigitsValue(f: nat, d: nat)
    requires 1 <= d && f < Pow10(d)
    ensures DigitsValue(FracDigits(f, d)) == f
  {
    NatToDigitsShort(f, d);
    var fd := NatToDigits(f);
    LeadingZerosValue(d - |fd|, fd);
    NatToDigitsValue(f);
  }

  lemma DivMod(n: nat, p: nat)
    requires p >= 1
    ensures 0 <= n / p && 0 <= n % p < p && n == (n / p) * p + n % p
  {
  }

  lemma QuotRem(n: nat, p: nat)
    requires p >= 1
    ensures (n / p) as real + (n % p) as real / p as real == n as real / p as real
  {
    var q := n / p;
    var f := n % p;
    assert n == q * p + f;
    assert n as real == q as real * p as real + f as real;
  }

  /** The numeral `toFixed(d)` writes denotes x rounded half up to d places. */
  lemma FixedValue(x: real, d: nat)
    ensures Fixed(x, d).Value() == Rounded(x, d)
  {
    var n := ScaledDigits(x, d);
    var p := Pow10(d);
    var r := Fixed(x, d);
    NatToDigitsValue(n / p);
    if d == 0 {
      assert p == 1;
      assert DigitsValue(r.frac) == 0;
    } else {
      FracDigitsValue(n % p, d);
      QuotRem(n, p);
    }
  }

  /** `Number.prototype.toFixed(d)` for an amount below 10^21. */
  function ToFixed(x: real, d: nat): string {
    Fixed(x, d).Text()
  }

  /** `String(i)` for an integer below 10^21 in magnitude. */
  function IntToString(i: int): string {
    Numeral(i < 0, NatToDigits(if i < 0 then -i else i), "").Text()
  }

  /** The first position of c in s, or |s| when c does not occur. */
  function IndexOf(s: string, c: char): (i: nat)
    ensures i <= |s|
    ensures i < |s| ==> s[i] == c
    ensures forall j :: 0 <= j < i ==> s[j] != c
  {
    if |s| == 0 then 0 else if s[0] == c then 0 else 1 + IndexOf(s[1..], c)
  }

  /** A numeral without a fraction is written without a point. */
  lemma NoPointInWhole(n: Numeral)
    requires n.Valid() && |n.frac| == 0
    ensures '.' !in n.Text()
  {
    var s := n.Text();
    var sign := if n.neg then "-" else "";
    assert s == sign + n.whole;
    forall k | 0 <= k < |s|
      ensures s[k] != '.'
    {
      if k >= |sign| {
        assert s[k] == n.whole[k - |sign|];
      }
    }
  }

  /** An integer is written without a point and reads back as itself. */
  lemma IntToStringValue(i: int)
    ensures '.' !in IntToString(i) && Parse(IntToString(i)) == Some(i as real)
  {
    var m := if i < 0 then -i else i;
    var n := Numeral(i < 0, NatToDigits(m), "");
    NoPointInWhole(n);
    ParseText(n);
    NatToDigitsValue(m);
  }

  /** Splits a text at its sign and first point, without checking the digits. */
  function Split(s: string): Numeral {
    var neg := |s| > 0 && s[0] == '-';
    SplitUnsigned(neg, if neg then s[1..] else s)
  }

  /** Splits the text after the sign at its first point. */
  function SplitUnsigned(neg: bool, body: string): Numeral {
    var dot := IndexOf(body, '.');
    Numeral(neg, body[..dot], if dot < |body| then body[dot + 1..] else "")
  }

  /** Reads a text `[-]digits[.digits]` as the number it denotes; anything else is None. */
  function Parse(s: string): Option<real> {
    var n := Split(s);
    if n.Valid() then Some(n.Value()) else None
  }

  /** In digits followed by an optional point-led tail, the first point ends the digits. */
  lemma IndexOfPoint(w: string, tail: string)
    requires AllDigits(w) && (|tail| == 0 || tail[0] == '.')
    ensures IndexOf(w + tail, '.') == |w|
  {
    var body := w + tail;
    var dot := IndexOf(body, '.');
    assert forall j :: 0 <= j < |w| ==> body[j] == w[j];
    if |tail| > 0 {
      assert body[|w|] == '.';
    }
  }

  /** Splitting the unsigned part of a written numeral gives back its parts. */
  lemma SplitUnsignedText(neg: bool, whole: string, frac: string)
    requires AllDigits(whole)
    ensures SplitUnsigned(neg, whole + (if |frac| == 0 then "" else "." + frac)) == Numeral(neg, whole, frac)
  {
    var tail := if |frac| == 0 then "" else "." + frac;
    var body := whole + tail;
    IndexOfPoint(whole, tail);
    assert body[..|whole|] == whole;
    if |frac| > 0 {
      assert body[|whole| + 1..] == frac;
    }
  }

  /** Splitting a written numeral gives back its parts. */
  lemma SplitText(n: Numeral)
    requires n.Valid()
    ensures Split(n.Text()) == n
  {
    var s := n.Text();
    var body := n.whole + (if |n.frac| == 0 then "" else "." + n.frac);
    assert s == (if n.neg then "-" else "") + body;
    assert s[0] == '-' <==> n.neg by {
      assert IsDigit(body[0]);
    }
    var b := if n.neg then s[1..] else s;
    assert b == body;
    assert Split(s) == SplitUnsigned(n.neg, b);
    SplitUnsignedText(n.neg, n.whole, n.frac);
  }

  /** Reading a written numeral gives back its value. */
  lemma ParseText(n: Numeral)
    requires n.Valid()
    ensures Parse(n.Text()) == Some(n.Value())
  {
    SplitText(n);
  }

  // ---- the strip `replace(/\.?0+$/, '')` ----

  /** The text from position k to the end is matched by `\.?0+`. */
  predicate MatchesAt(s: string, k: nat)
    requires k <= |s|
  {
    || (k < |s| && AllZeros(s[k..]))
    || (k + 1 < |s| && s[k] == '.' && AllZeros(s[k + 1..]))
  }

  /** The regex engine's search: the first start position, from k on, where `\.?0+$` matches. */
  function LeftmostMatch(s: string, k: nat): (r: Option<nat>)
    requires k <= |s|
    ensures r.Some? ==> k <= r.value < |s| && MatchesAt(s, r.value)
    ensures r.Some? ==> forall j :: k <= j < r.value ==> !MatchesAt(s, j)
    ensures r.None? ==> forall j :: k <= j <= |s| ==> !MatchesAt(s, j)
    decreases |s| - k
  {
    if k == |s| then None
    else if MatchesAt(s, k) then Some(k)
    else LeftmostMatch(s, k + 1)
  }

  /** `s.replace(/\.?0+$/, '')`: removes the leftmost match, or nothing when there is none. */
  function StripZeros(s: string): (r: string)
    ensures |r| <= |s| && r == s[..|r|]
    ensures r == s || MatchesAt(s, |r|)
  {
    match LeftmostMatch(s, 0)
    case Some(k) => s[..k]
    case None => s
  }

  /** The length of the run of '0' that ends s. */
  function TrailingZeros(s: string): (z: nat)
    ensures z <= |s|
  {
    if |s| == 0 || s[|s| - 1] != '0' then 0 else 1 + TrailingZeros(s[..|s| - 1])
  }

  /** The run is all zeros and is preceded by something other than '0'. */
  lemma {:induction false} TrailingZerosRun(s: string)
    ensures var z := TrailingZeros(s);
      AllZeros(s[|s| - z..]) && (z < |s| ==> s[|s| - z - 1] != '0')
  {
    if |s| > 0 && s[|s| - 1] == '0' {
      var t := s[..|s| - 1];
      var z := TrailingZeros(t);
      TrailingZerosRun(t);
      assert TrailingZeros(s) == z + 1;
      assert s[|s| - (z + 1)..] == t[|t| - z..] + ['0'];
      if z < |t| {
        assert s[|s| - (z + 1) - 1] == t[|t| - z - 1];
      }
    }
  }

  /** The trailing run of a concatenation: the run of the right part, extended into the
      left part when the right part is all zeros. */
  lemma {:induction false} TrailingZerosAppend(a: string, b: string)
    ensures TrailingZeros(a + b) == if TrailingZeros(b) < |b| then TrailingZeros(b) else |b| + TrailingZeros(a)
    decreases |b|
  {
    var s := a + b;
    if |b| == 0 {
      assert s == a;
    } else if b[|b| - 1] == '0' {
      var b' := b[..|b| - 1];
      assert s[..|s| - 1] == a + b';
      TrailingZerosAppend(a, b');
    }
  }

  /** A text that does not end in '0' has no match. */
  lemma NoMatchWithoutZero(s: string)
    requires |s| == 0 || s[|s| - 1] != '0'
    ensures forall k :: 0 <= k <= |s| ==> !MatchesAt(s, k)
  {
    forall k | 0 <= k <= |s|
      ensures !MatchesAt(s, k)
    {
      if k < |s| {
        assert s[k..][|s| - k - 1] == s[|s| - 1];
        if k + 1 < |s| {
          assert s[k + 1..][|s| - k - 2] == s[|s| - 1];
        }
      }
    }
  }

  /** No match starts at or before a character other than '0' (a point only from before). */
  lemma NoMatchBefore(s: string, i: nat, k: nat)
    requires i < |s| && s[i] != '0' && k <= i
    requires k < i || s[i] != '.'
    ensures !MatchesAt(s, k)
  {
    assert s[k..][i - k] == s[i];
    if k < i {
      assert s[k + 1..][i - k - 1] == s[i];
    }
  }

  /** The regex search finds t when t matches and no earlier position does. */
  lemma LeftmostIs(s: string, t: nat)
    requires t <= |s| && MatchesAt(s, t)
    requires forall k :: 0 <= k < t ==> !MatchesAt(s, k)
    ensures LeftmostMatch(s, 0) == Some(t)
  {
  }

  /** Where the strip cuts: before the point that precedes the run, else at the run. */
  function CutPoint(s: string): (t: nat)
    ensures t <= |s|
  {
    var j := |s| - TrailingZeros(s);
    if j > 0 && s[j - 1] == '.' then j - 1 else j
  }

  /** With a non-empty trailing run of zeros the pattern matches at the cut point. */
  lemma MatchesAtCut(s: string)
    requires TrailingZeros(s) > 0
    ensures MatchesAt(s, CutPoint(s))
  {
    var j := |s| - TrailingZeros(s);
    TrailingZerosRun(s);
    if CutPoint(s) == j - 1 {
      assert s[j..] == s[CutPoint(s) + 1..];
    }
  }

  /** No earlier position matches. */
  lemma NoMatchBeforeCut(s: string)
    ensures forall k :: 0 <= k < CutPoint(s) ==> !MatchesAt(s, k)
  {
    var j := |s| - TrailingZeros(s);
    if j > 0 {
      TrailingZerosRun(s);
      forall k | 0 <= k < CutPoint(s)
        ensures !MatchesAt(s, k)
      {
        NoMatchBefore(s, j - 1, k);
      }
    }
  }

  /** The strip cuts exactly the trailing run of zeros, plus the point right before it. */
  lemma StripCutsTrailingRun(s: string)
    ensures StripZeros(s) == if TrailingZeros(s) == 0 then s else s[..CutPoint(s)]
  {
    if TrailingZeros(s) == 0 {
      NoMatchWithoutZero(s);
      assert LeftmostMatch(s, 0).None?;
    } else {
      MatchesAtCut(s);
      NoMatchBeforeCut(s);
      LeftmostIs(s, CutPoint(s));
    }
  }

  /** The fraction without its trailing zeros. */
  function TrimZeros(frac: string): (r: string)
    ensures |r| <= |frac| && r == frac[..|r|]
  {
    frac[..|frac| - TrailingZeros(frac)]
  }

  /** On a numeral with a fraction, the strip drops the fraction's trailing zeros and the
      point when nothing of the fraction is left; sign and integer digits stay. */
  lemma StripNumeral(n: Numeral)
    requires n.Valid() && 1 <= |n.frac|
    ensures StripZeros(n.Text()) == n.(frac := TrimZeros(n.frac)).Text()
  {
    var head := (if n.neg then "-" else "") + n.whole;
    var a := head + ".";
    assert n.Text() == a + n.frac;
    assert a[..|a| - 1] == head;
    StripAfterPoint(a, n.frac);
  }

  /** The strip on a text ending in a point followed by a fraction. */
  lemma StripAfterPoint(a: string, frac: string)
    requires 1 <= |a| && a[|a| - 1] == '.' && 1 <= |frac| && AllDigits(frac)
    ensures StripZeros(a + frac) == if |TrimZeros(frac)| == 0 then a[..|a| - 1] else a + TrimZeros(frac)
  {
    var s := a + frac;
    var z := TrailingZeros(frac);
    TrailingZerosAppend(a, frac);
    assert TrailingZeros(a) == 0;
    StripCutsTrailingRun(s);
    var j := |s| - z;
    if z == 0 {
      assert TrimZeros(frac) == frac;
    } else if z < |frac| {
      TrailingZerosRun(frac);
      assert s[j - 1] == frac[|frac| - z - 1];
      assert IsDigit(frac[|frac| - z - 1]);
      assert CutPoint(s) == j;
      assert s[..j] == a + TrimZeros(frac);
    } else {
      assert s[j - 1] == '.';
      assert CutPoint(s) == j - 1;
      assert s[..j - 1] == a[..|a| - 1];
    }
  }

  /** Trailing zeros of a fraction carry no value. */
  lemma TrimZerosFraction(frac: string)
    requires AllDigits(frac)
    ensures AllDigits(TrimZeros(frac))
    ensures DigitsValue(TrimZeros(frac)) as real / Pow10(|TrimZeros(frac)|) as real
         == DigitsValue(frac) as real / Pow10(|frac|) as real
  {
    var z := TrailingZeros(frac);
    var t := frac[..|frac| - z];
    assert t == TrimZeros(frac);
    TrailingZerosRun(frac);
    assert frac == t + Zeros(z) by {
      assert frac[|frac| - z..] == Zeros(z);
    }
    assert AllDigits(t) by {
      forall i | 0 <= i < |t| ensures IsDigit(t[i]) {
        assert t[i] == frac[i];
      }
    }
    TrailingZerosValue(t, z);
    assert DigitsValue(frac) == DigitsValue(t) * Pow10(z);
    Pow10Add(|t|, z, |frac|);
    ScaleCancel(DigitsValue(t), Pow10(|t|), Pow10(z));
  }

  /** Dropping trailing zeros of the fraction keeps the numeral's value. */
  lemma TrimZerosValue(n: Numeral)
    requires n.Valid()
    ensures n.(frac := TrimZeros(n.frac)).Valid()
    ensures n.(frac := TrimZeros(n.frac)).Value() == n.Value()
  {
    TrimZerosFraction(n.frac);
  }

  /** The numeral with the trailing zeros of its fraction dropped. */
  function Trimmed(n: Numeral): Numeral {
    n.(frac := TrimZeros(n.frac))
  }

  /** With at least one place, stripping the `toFixed` text drops exactly the zeros that end
      its fraction, and the point when no fraction digit is left. */
  lemma StripFixed(x: real, d: nat)
    requires d >= 1
    ensures StripZeros(ToFixed(x, d)) == Trimmed(Fixed(x, d)).Text()
  {
    StripNumeral(Fixed(x, d));
  }

  /** A trimmed fraction does not end in '0'. */
  lemma TrimZerosLast(frac: string)
    requires |TrimZeros(frac)| > 0
    ensures TrimZeros(frac)[|TrimZeros(frac)| - 1] != '0'
  {
    TrailingZerosRun(frac);
  }

  /** The stripped text never ends in a point, and ends in '0' only when it has no point. */
  lemma StrippedShape(x: real, d: nat)
    requires d >= 1
    ensures var s := StripZeros(ToFixed(x, d));
      |s| > 0 && s[|s| - 1] != '.' && ('.' in s ==> s[|s| - 1] != '0')
  {
    var n := Trimmed(Fixed(x, d));
    var s := n.Text();
    StripFixed(x, d);
    TrimZerosValue(Fixed(x, d));
    if |n.frac| == 0 {
      NoPointInWhole(n);
      assert s[|s| - 1] == n.whole[|n.whole| - 1];
    } else {
      TrimZerosLast(Fixed(x, d).frac);
      assert s[|s| - 1] == n.frac[|n.frac| - 1];
    }
  }

  /** The stripped text reads back as x rounded half up to d places. */
  lemma StrippedValue(x: real, d: nat)
    requires d >= 1
    ensures Parse(StripZeros(ToFixed(x, d))) == Some(Rounded(x, d))
  {
    var n := Fixed(x, d);
    StripFixed(x, d);
    TrimZerosValue(n);
    ParseText(Trimmed(n));
    FixedValue(x, d);
  }
}
