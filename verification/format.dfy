/**
 * formatEffectiveness: the text a cell of the coverage table shows. Numbers follow
 * ECMAScript's `Number.prototype.toString` for integers and `toFixed(2)` followed by
 * the replacement of `/\.?0+$/` with the empty string otherwise.
 */
module Format {
  import opened Catalog
  import opened Coverage

  // ----- number to text -----

  predicate IsDigit(ch: char) {
    '0' <= ch <= '9'
  }

  predicate AllDigits(s: string) {
    forall i | 0 <= i < |s| :: IsDigit(s[i])
  }

  function DigitChar(d: nat): (ch: char)
    requires d < 10
    ensures IsDigit(ch)
  {
    (d + '0' as int) as char
  }

  /** The decimal digits of n, most significant first, without leading zeros. */
  function NatToString(n: nat): (s: string)
    ensures |s| >= 1 && AllDigits(s)
  {
    if n < 10 then [DigitChar(n)] else NatToString(n / 10) + [DigitChar(n % 10)]
  }

  /** `Number.prototype.toString()` of an integer below 10^21 in magnitude: a minus sign exactly for a negative k, then digits. */
  function IntToString(k: int): (s: string)
    ensures |s| >= 1 && (s[0] == '-' <==> k < 0)
    ensures AllDigits(s[if k < 0 then 1 else 0..])
  {
    if k < 0 then "-" + NatToString(-k) else NatToString(k)
  }

  /** `Number.isInteger`. */
  predicate IsInteger(x: real) {
    x.Floor as real == x
  }

  function Abs(x: real): real {
    if x < 0.0 then -x else x
  }

  /**
   * `Number.prototype.toFixed(2)` of a value below 10^21 in magnitude: the integer n
   * nearest to |x| * 100 (the larger one on a tie), written with at least three digits,
   * a point before its last two, and a minus sign for a negative x.
   */
  function ToFixed2(x: real): (s: string)
    ensures |s| >= 4 && (s[0] == '-' <==> x < 0.0) && s[0] != '.'
    ensures s[|s| - 3] == '.' && AllDigits(s[|s| - 2..])
  {
    var sign := if x < 0.0 then "-" else "";
    var n: nat := (Abs(x) * 100.0 + 0.5).Floor;
    var m := NatToString(n);
    var padded := PadTo3(m);
    var k := |padded|;
    var s := sign + padded[..k - 2] + "." + padded[k - 2..];
    assert s[|s| - 3] == '.' && s[|s| - 2..] == padded[k - 2..];
    assert s[0] == if x < 0.0 then '-' else padded[0];
    s
  }

  /** Zeros in front of a digit string of fewer than three digits, up to three digits. */
  function PadTo3(m: string): (p: string)
    ensures |p| >= 3 && (|m| >= 3 ==> p == m)
    ensures AllDigits(m) ==> AllDigits(p)
  {
    if |m| <= 2 then seq(3 - |m|, _ => '0') + m else m
  }

  // ----- the regular expression /\.?0+$/ -----

  predicate ZerosOnly(s: string) {
    forall i | 0 <= i < |s| :: s[i] == '0'
  }

  /** `/\.?0+$/` matches s from position p: an optional point, then one or more zeros up to the end. */
  predicate TailMatch(s: string, p: nat)
    requires p <= |s|
  {
    (p < |s| && ZerosOnly(s[p..])) || (p + 1 < |s| && s[p] == '.' && ZerosOnly(s[p + 1..]))
  }

  /** The leftmost position at or after p where the pattern matches, or |s| if none. */
  function MatchFrom(s: string, p: nat): (q: nat)
    requires p <= |s|
    ensures p <= q <= |s|
    ensures q < |s| ==> TailMatch(s, q)
    ensures forall i | p <= i < q :: !TailMatch(s, i)
    decreases |s| - p
  {
    if p == |s| then |s| else if TailMatch(s, p) then p else MatchFrom(s, p + 1)
  }

  /** `s.replace(/\.?0+$/, '')`: the first match, which runs to the end, is removed. */
  function StripZeros(s: string): (r: string)
    ensures |r| <= |s| && r == s[..|r|]
    ensures |r| < |s| ==> TailMatch(s, |r|)
    ensures forall i | 0 <= i < |r| :: !TailMatch(s, i)
  {
    s[..MatchFrom(s, 0)]
  }

  /** formatEffectiveness: '' for null, '-' for '-', and the number as text otherwise; only a hidden cell shows nothing. */
  function FormatEffectiveness(v: Cell): (r: string)
    ensures r == "" <==> v.Hidden?
  {
    match v
    case Hidden => ""
    case Dash => "-"
    case Mult(x) =>
      if IsInteger(x) then IntToString(x.Floor)
      else
        var s := ToFixed2(x);
        assert !TailMatch(s, 0) by {
          assert s[|s| - 3] != '0';
        }
        StripZeros(s)
  }

  // ----- text to number, the partner of the formatting -----

  /** The value of a string of decimal digits. */
  function DigitsValue(s: string): nat
    requires AllDigits(s)
  {
    if s == [] then 0 else 10 * DigitsValue(s[..|s| - 1]) + (s[|s| - 1] - '0') as nat
  }

  function Pow10(k: nat): (p: nat)
    ensures p >= 1
  {
    if k == 0 then 1 else 10 * Pow10(k - 1)
  }

  /** The position of the first point in s, or -1. */
  function PointIndex(s: string): (r: int)
    ensures -1 <= r < |s|
  {
    if s == [] then -1
    else if s[0] == '.' then 0
    else
      var k := PointIndex(s[1..]);
      if k == -1 then -1 else k + 1
  }

  /** A decimal numeral: a sign, a whole part, and a fraction of `scale` digits whose value is `frac`. */
  datatype Decimal = Decimal(negative: bool, whole: nat, frac: nat, scale: nat)

  /** The number a numeral denotes. */
  function Value(d: Decimal): real {
    var v := d.whole as real + d.frac as real / Pow10(d.scale) as real;
    if d.negative then -v else v
  }

  /** An unsigned decimal: digits, optionally followed by a point and more digits. */
  function ParseUnsigned(s: string): Option<Decimal> {
    var p := PointIndex(s);
    if p == -1 then
      if s != [] && AllDigits(s) then Some(Decimal(false, DigitsValue(s), 0, 0)) else None
    else
      var whole, frac := s[..p], s[p + 1..];
      if whole != [] && frac != [] && AllDigits(whole) && AllDigits(frac)
      then Some(Decimal(false, DigitsValue(whole), DigitsValue(frac), |frac|))
      else None
  }

  /** A decimal with an optional leading minus sign. */
  function ParseDecimal(s: string): Option<Decimal> {
    if s != [] && s[0] == '-' then
      match ParseUnsigned(s[1..])
      case Some(d) => Some(d.(negative := true))
      case None => None
    else ParseUnsigned(s)
  }

  // ----- lemmas -----

  lemma {:induction false} NatToStringValue(n: nat)
    ensures DigitsValue(NatToString(n)) == n
  {
    if n >= 10 {
      NatToStringValue(n / 10);
      var s := NatToString(n);
      assert s[..|s| - 1] == NatToString(n / 10);
    }
  }

  /** A digit string holds no point. */
  lemma {:induction false} NoPointInDigits(s: string)
    requires AllDigits(s)
    ensures PointIndex(s) == -1
  {
    if s != [] {
      NoPointInDigits(s[1..]);
      assert IsDigit(s[0]);
    }
  }

  /** The digits of n read back as n. */
  lemma ParseNat(n: nat)
    ensures ParseUnsigned(NatToString(n)) == Some(Decimal(false, n, 0, 0))
  {
    NatToStringValue(n);
    NoPointInDigits(NatToString(n));
  }

  /** A leading minus sign marks the numeral read as negative. */
  lemma ParseNegated(t: string, d: Decimal)
    requires ParseUnsigned(t) == Some(d)
    ensures ParseDecimal("-" + t) == Some(d.(negative := true))
  {
    var s := "-" + t;
    assert s[1..] == t;
  }

  /** An integer cell reads back as the numeral of the integer. */
  lemma IntegerRoundTrip(k: int)
    ensures ParseDecimal(IntToString(k)) == Some(Decimal(k < 0, if k < 0 then -k else k, 0, 0))
  {
    var s := IntToString(k);
    if k < 0 {
      var n: nat := -k;
      ParseNat(n);
      ParseNegated(NatToString(n), Decimal(false, n, 0, 0));
    } else {
      ParseNat(k);
      assert s == NatToString(k);
      assert s[0] != '-' by { assert IsDigit(s[0]); }
    }
  }

  /** The digits of n end with the digits of n / 100 and two more digits. */
  lemma NatToStringSplit(n: nat)
    requires n >= 100
    ensures NatToString(n) == NatToString(n / 100) + [DigitChar(n / 10 % 10), DigitChar(n % 10)]
  {
    assert n / 10 >= 10;
    assert n / 10 / 10 == n / 100;
  }

  /** The padded digits of n split into the digits of n / 100 and the last two digits. */
  lemma PaddedSplit(n: nat)
    ensures |PadTo3(NatToString(n))| >= 3
    ensures PadTo3(NatToString(n))[..|PadTo3(NatToString(n))| - 2] == NatToString(n / 100)
    ensures PadTo3(NatToString(n))[|PadTo3(NatToString(n))| - 2..] == [DigitChar(n / 10 % 10), DigitChar(n % 10)]
  {
    var p := PadTo3(NatToString(n));
    var whole, last := NatToString(n / 100), [DigitChar(n / 10 % 10), DigitChar(n % 10)];
    if n < 100 {
      PaddedSmall(n);
    } else {
      NatToStringSplit(n);
      assert p == whole + last;
    }
    SplitLastTwo(whole, last);
  }

  /** Below 100 the padding supplies the zero whole part. */
  lemma PaddedSmall(n: nat)
    requires n < 100
    ensures PadTo3(NatToString(n)) == NatToString(n / 100) + [DigitChar(n / 10 % 10), DigitChar(n % 10)]
  {
    var q, r := n / 10, n % 10;
    DivTen(n, q, r);
    DivTen(q, 0, q);
    assert n / 100 == 0;
    assert NatToString(0) == [DigitChar(0)] && DigitChar(0) == '0';
    if n < 10 {
      PaddedOne(n);
    } else {
      PaddedTwo(n, q, r);
    }
  }

  lemma PaddedOne(n: nat)
    requires n < 10
    ensures PadTo3(NatToString(n)) == ['0', '0', DigitChar(n)]
  {
    assert NatToString(n) == [DigitChar(n)];
  }

  lemma PaddedTwo(n: nat, q: nat, r: nat)
    requires 10 <= n < 100 && n / 10 == q < 10 && n % 10 == r
    ensures PadTo3(NatToString(n)) == ['0', DigitChar(q), DigitChar(r)]
  {
    assert NatToString(q) == [DigitChar(q)];
    assert NatToString(n) == [DigitChar(q), DigitChar(r)];
  }

  lemma SplitLastTwo(whole: string, last: string)
    requires |whole| >= 1 && |last| == 2
    ensures |whole + last| >= 3
    ensures (whole + last)[..|whole + last| - 2] == whole
    ensures (whole + last)[|whole + last| - 2..] == last
  {
  }

  /** toFixed(2) of a value with at most two decimals: its whole part, a point, two digits. */
  lemma ToFixed2Shape(x: real, n: nat)
    requires n as real == Abs(x) * 100.0
    ensures ToFixed2(x) == (if x < 0.0 then "-" else "") + NatToString(n / 100) + "." + [DigitChar(n / 10 % 10), DigitChar(n % 10)]
  {
    FloorOfWhole(n, Abs(x) * 100.0 + 0.5 - 0.5);
    assert (Abs(x) * 100.0 + 0.5).Floor == n;
    PaddedSplit(n);
  }

  /** No position before the point starts a match, so the search moves on to the point. */
  lemma {:induction false} SkipWhole(s: string, w: nat, p: nat)
    requires w < |s| && s[w] == '.' && p <= w
    requires forall i | 0 <= i < w :: s[i] != '.'
    ensures MatchFrom(s, p) == MatchFrom(s, w)
    decreases w - p
  {
    if p < w {
      assert s[p..][w - p] == '.';
      SkipWhole(s, w, p + 1);
    }
  }

  /**
   * Stripping `sign whole . d1 d2` with d1 d2 not both zero drops only a trailing zero
   * of the fraction.
   */
  lemma StripFraction(sign: string, whole: string, d1: char, d2: char)
    requires sign == "" || sign == "-"
    requires AllDigits(whole) && IsDigit(d1) && IsDigit(d2) && (d1 != '0' || d2 != '0')
    ensures StripZeros(sign + whole + "." + [d1, d2]) ==
              sign + whole + "." + (if d2 == '0' then [d1] else [d1, d2])
  {
    var s := sign + whole + "." + [d1, d2];
    var w := |sign| + |whole|;
    assert s[w] == '.';
    forall i | 0 <= i < w ensures s[i] != '.' {
      if i < |sign| {
        assert s[i] == sign[i];
      } else {
        assert s[i] == whole[i - |sign|];
      }
    }
    SkipWhole(s, w, 0);
    assert s[w..] == ['.', d1, d2] && s[w + 1..] == [d1, d2] && s[w + 2..] == [d2];
    assert !ZerosOnly(s[w..]) by { assert s[w..][0] == '.'; }
    assert !ZerosOnly(s[w + 1..]) by {
      if d1 != '0' { assert s[w + 1..][0] == d1; } else { assert s[w + 1..][1] == d2; }
    }
    assert !TailMatch(s, w) && !TailMatch(s, w + 1);
    if d2 == '0' {
      assert TailMatch(s, w + 2);
      assert MatchFrom(s, w + 1) == w + 2;
      assert s[..w + 2] == sign + whole + "." + [d1];
    } else {
      assert !ZerosOnly(s[w + 2..]) by { assert s[w + 2..][0] == d2; }
      assert !TailMatch(s, w + 2);
      assert MatchFrom(s, w + 2) == |s|;
      assert s[..|s|] == s;
    }
  }

  /** The first point of `a + "." + b` is the one after a, when a is all digits. */
  lemma {:induction false} PointAfterDigits(a: string, b: string)
    requires AllDigits(a)
    ensures PointIndex(a + "." + b) == |a|
  {
    if a != [] {
      PointAfterDigits(a[1..], b);
      assert (a + "." + b)[1..] == a[1..] + "." + b;
      assert IsDigit(a[0]);
    }
  }

  /** `whole . frac` reads back as its whole part and its fraction. */
  lemma ParsePointed(whole: string, frac: string)
    requires whole != [] && frac != [] && AllDigits(whole) && AllDigits(frac)
    ensures ParseUnsigned(whole + "." + frac) == Some(Decimal(false, DigitsValue(whole), DigitsValue(frac), |frac|))
  {
    var u := whole + "." + frac;
    PointAfterDigits(whole, frac);
    assert u[..|whole|] == whole && u[|whole| + 1..] == frac;
  }

  lemma Regroup(a: string, b: string, c: string, d: string)
    ensures a + b + c + d == a + (b + c + d)
  {
  }

  /** A numeral that starts with a digit reads the same with or without the sign check. */
  lemma ParseUnsignedFirst(t: string, d: Decimal)
    requires ParseUnsigned(t) == Some(d) && t != [] && IsDigit(t[0])
    ensures ParseDecimal(t) == Some(d)
  {
  }

  /** `sign whole . frac` reads back with the sign, the whole part and the fraction. */
  lemma ParseFraction(sign: string, whole: string, frac: string)
    requires sign == "" || sign == "-"
    requires whole != [] && frac != [] && AllDigits(whole) && AllDigits(frac)
    ensures ParseDecimal(sign + whole + "." + frac) ==
              Some(Decimal(sign == "-", DigitsValue(whole), DigitsValue(frac), |frac|))
  {
    var u := whole + "." + frac;
    var d := Decimal(false, DigitsValue(whole), DigitsValue(frac), |frac|);
    ParsePointed(whole, frac);
    Regroup(sign, whole, ".", frac);
    if sign == "-" {
      ParseNegated(u, d);
    } else {
      assert sign + u == u;
      assert u[0] == whole[0];
      ParseUnsignedFirst(u, d);
    }
  }

  /** Two decimals r (0 < r < 100) written as one digit when the second is zero, else as two. */
  lemma TwoDecimalsValue(q: nat, r: nat, negative: bool)
    requires 0 < r < 100
    ensures var d := if r % 10 == 0 then Decimal(negative, q, r / 10, 1) else Decimal(negative, q, r, 2);
            Value(d) == if negative then -(q as real + r as real / 100.0) else q as real + r as real / 100.0
  {
    assert Pow10(1) == 10 && Pow10(2) == 100;
    if r % 10 == 0 {
      assert (r / 10) as real / 10.0 == r as real / 100.0;
    }
  }

  /** The minus sign toFixed writes for a negative value. */
  function Sign(x: real): string {
    if x < 0.0 then "-" else ""
  }

  /** The fraction digits left of hundredths r (0 < r < 100) once a trailing zero is stripped. */
  function FracDigits(r: nat): string
    requires 0 < r < 100
  {
    if r % 10 == 0 then [DigitChar(r / 10)] else [DigitChar(r / 10), DigitChar(r % 10)]
  }

  /** A digit character stands for its digit. */
  lemma DigitCharValue(d: nat)
    requires d < 10
    ensures (DigitChar(d) - '0') as nat == d
  {
  }

  lemma FracDigitsValue(r: nat)
    requires 0 < r < 100
    ensures AllDigits(FracDigits(r)) && FracDigits(r) != []
    ensures r % 10 == 0 ==> |FracDigits(r)| == 1 && DigitsValue(FracDigits(r)) == r / 10
    ensures r % 10 != 0 ==> |FracDigits(r)| == 2 && DigitsValue(FracDigits(r)) == r
  {
    var d1, d2 := DigitChar(r / 10), DigitChar(r % 10);
    DigitCharValue(r / 10);
    DigitCharValue(r % 10);
    var one, two := [d1], [d1, d2];
    assert one[..0] == [] && two[..1] == one;
    assert DigitsValue(one) == r / 10;
    assert DigitsValue(two) == 10 * (r / 10) + r % 10;
  }

  /** A real that is a whole number has itself as its floor. */
  lemma FloorOfWhole(k: int, y: real)
    requires k as real == y
    ensures y.Floor == k
  {
  }

  /** A real between k and k + 1 has floor k. */
  lemma FloorBetween(k: int, y: real)
    requires k as real <= y < k as real + 1.0
    ensures y.Floor == k
  {
  }

  /** A value with at most two decimals but not an integer is a whole number of hundredths, not of hundreds. */
  lemma Hundredths(x: real)
    requires IsInteger(x * 100.0) && !IsInteger(x)
    ensures (Abs(x) * 100.0).Floor >= 0
    ensures (Abs(x) * 100.0).Floor as real == Abs(x) * 100.0
    ensures (Abs(x) * 100.0).Floor % 100 != 0
  {
    var m := (x * 100.0).Floor;
    assert m as real == x * 100.0;
    var n := if m < 0 then -m else m;
    assert n as real == Abs(x) * 100.0;
    FloorOfWhole(n, Abs(x) * 100.0);
    if n % 100 == 0 {
      WholeHundreds(x, m);
      assert false;
    }
  }

  /** A whole number of hundreds of hundredths is an integer. */
  lemma WholeHundreds(x: real, m: int)
    requires m as real == x * 100.0 && (if m < 0 then -m else m) % 100 == 0
    ensures IsInteger(x)
  {
    var q := m / 100;
    assert m == 100 * q;
    assert x == q as real;
    FloorOfWhole(q, x);
  }

  /** Division by ten is determined by a quotient and a remainder below ten. */
  lemma DivTen(n: int, q: int, r: int)
    requires n == 10 * q + r && 0 <= r < 10
    ensures n / 10 == q && n % 10 == r
  {
  }

  /** The tens digit of n is the first digit of its hundredths. */
  lemma TensDigit(n: nat)
    ensures n / 10 % 10 == n % 100 / 10
    ensures n % 10 == n % 100 % 10
  {
    var q, r := n / 100, n % 100;
    var t, u := r / 10, r % 10;
    assert n == 100 * q + r && r == 10 * t + u;
    DivTen(n, 10 * q + t, u);
    DivTen(10 * q + t, q, t);
  }

  /** n hundredths are n / 100 units and n % 100 hundredths. */
  lemma HundredthsValue(n: nat, y: real)
    requires n as real == y * 100.0
    ensures (n / 100) as real + (n % 100) as real / 100.0 == y
  {
    assert n == 100 * (n / 100) + n % 100;
  }

  /** The text of a non-integer value with at most two decimals: its whole part, a point, its stripped hundredths. */
  lemma NonIntegerText(x: real, n: nat)
    requires IsInteger(x * 100.0) && !IsInteger(x) && n == (Abs(x) * 100.0).Floor
    ensures 0 < n % 100
    ensures FormatEffectiveness(Mult(x)) == Sign(x) + NatToString(n / 100) + "." + FracDigits(n % 100)
  {
    Hundredths(x);
    var r := n % 100;
    var d1, d2 := DigitChar(r / 10), DigitChar(r % 10);
    TensDigit(n);
    DigitCharValue(r / 10);
    DigitCharValue(r % 10);
    ToFixed2Shape(x, n);
    var fixed := ToFixed2(x);
    assert fixed == Sign(x) + NatToString(n / 100) + "." + [d1, d2];
    StripFraction(Sign(x), NatToString(n / 100), d1, d2);
    assert (if d2 == '0' then [d1] else [d1, d2]) == FracDigits(r);
    assert FormatEffectiveness(Mult(x)) == StripZeros(fixed);
  }

  /**
   * The text of every value with at most two decimals reads back as a numeral of that
   * value; in particular the six multipliers do.
   */
  lemma FormatRoundTrip(x: real)
    requires IsInteger(x * 100.0)
    ensures ParseDecimal(FormatEffectiveness(Mult(x))).Some?
    ensures Value(ParseDecimal(FormatEffectiveness(Mult(x))).value) == x
  {
    var text := FormatEffectiveness(Mult(x));
    if IsInteger(x) {
      var k := x.Floor;
      assert text == IntToString(k);
      IntegerRoundTrip(k);
      IntegerValue(k);
      assert k as real == x;
    } else {
      var n: nat := (Abs(x) * 100.0).Floor;
      var q, r := n / 100, n % 100;
      NonIntegerText(x, n);
      FracDigitsValue(r);
      ParseFraction(Sign(x), NatToString(q), FracDigits(r));
      NatToStringValue(q);
      var d := if r % 10 == 0 then Decimal(x < 0.0, q, r / 10, 1) else Decimal(x < 0.0, q, r, 2);
      assert (Sign(x) == "-") == (x < 0.0);
      assert ParseDecimal(text) == Some(d);
      TwoDecimalsValue(q, r, x < 0.0);
      Hundredths(x);
      HundredthsValue(n, Abs(x));
      assert Value(d) == (if x < 0.0 then -Abs(x) else Abs(x));
    }
  }

  /** The numeral an integer's text reads back as denotes the integer. */
  lemma IntegerValue(k: int)
    ensures Value(Decimal(k < 0, if k < 0 then -k else k, 0, 0)) == k as real
  {
    assert Pow10(0) == 1;
  }

  /** The texts of the two non-numeric cells and of the integral multipliers. */
  lemma FormatIntegralCells()
    ensures FormatEffectiveness(Hidden) == ""
    ensures FormatEffectiveness(Dash) == "-"
    ensures FormatEffectiveness(Mult(4.0)) == "4"
    ensures FormatEffectiveness(Mult(2.0)) == "2"
    ensures FormatEffectiveness(Mult(1.0)) == "1"
    ensures FormatEffectiveness(Mult(0.0)) == "0"
  {
  }

  /** The pieces of the texts of 1/2 and 1/4. */
  lemma FractionPieces()
    ensures Sign(0.5) == [] && Sign(0.25) == [] && NatToString(0) == ['0']
    ensures FracDigits(50) == ['5'] && FracDigits(25) == ['2', '5']
    ensures [] + ['0'] + "." + ['5'] == "0.5"
    ensures [] + ['0'] + "." + ['2', '5'] == "0.25"
  {
  }

  /** The text of 1/2: "0.50" loses its trailing zero. */
  lemma FormatHalf()
    ensures FormatEffectiveness(Mult(0.5)) == "0.5"
  {
    FloorOfWhole(50, Abs(0.5) * 100.0);
    FloorBetween(0, 0.5);
    NonIntegerText(0.5, 50);
    assert 50 / 100 == 0 && 50 % 100 == 50;
    FractionPieces();
  }

  /** The text of 1/4: "0.25" keeps both digits. */
  lemma FormatQuarter()
    ensures FormatEffectiveness(Mult(0.25)) == "0.25"
  {
    FloorOfWhole(25, Abs(0.25) * 100.0);
    FloorBetween(0, 0.25);
    NonIntegerText(0.25, 25);
    assert 25 / 100 == 0 && 25 % 100 == 25;
    FractionPieces();
  }
}
