/**
 * Decimal numerals as the scripts read and write them: Python's `int(s)`
 * and `float(s)` on decimal text, `str(n)` for integers, and the
 * three-decimal rendering of a whole number of millivolts.
 */
module Numerals {

  import opened Wrappers
  import opened PyStr

  /** An ASCII decimal digit, what `\d` matches on an ASCII line. */
  predicate IsDigit(c: char)
  {
    '0' <= c <= '9'
  }

  predicate AllDigits(s: string)
  {
    forall k :: 0 <= k < |s| ==> IsDigit(s[k])
  }

  /** The digits `str()` writes for a natural number: at least one, and no leading zero unless the number is 0. */
  predicate Canonical(s: string)
  {
    s != [] && AllDigits(s) && (s[0] == '0' ==> s == "0")
  }

  function DigitValue(c: char): nat
    requires IsDigit(c)
  {
    (c as int) - ('0' as int)
  }

  /** The digit character of a value below ten. */
  function DigitChar(d: nat): (c: char)
    requires d < 10
    ensures IsDigit(c) && DigitValue(c) == d
  {
    (('0' as int) + d) as char
  }

  /** Ten to the power `n`. */
  function Pow10(n: nat): (p: nat)
    ensures p >= 1
  {
    if n == 0 then 1 else 10 * Pow10(n - 1)
  }

  /** The number a string of decimal digits denotes. */
  function DigitsValue(ds: string): nat
    requires AllDigits(ds)
  {
    if ds == [] then 0 else 10 * DigitsValue(ds[..|ds| - 1]) + DigitValue(ds[|ds| - 1])
  }

  /** Two digit strings written one after the other are a digit string. */
  lemma AllDigitsAppend(a: string, b: string)
    requires AllDigits(a) && AllDigits(b)
    ensures AllDigits(a + b)
  {
    forall k | 0 <= k < |a + b| ensures IsDigit((a + b)[k]) {
      if k < |a| { assert (a + b)[k] == a[k]; } else { assert (a + b)[k] == b[k - |a|]; }
    }
  }

  /** The value of two digit strings written one after the other. */
  lemma {:induction false} DigitsValueAppend(a: string, b: string)
    requires AllDigits(a) && AllDigits(b)
    ensures AllDigits(a + b)
    ensures DigitsValue(a + b) == DigitsValue(a) * Pow10(|b|) + DigitsValue(b)
    decreases |b|
  {
    AllDigitsAppend(a, b);
    if b == [] {
      assert a + b == a;
    } else {
      var b' := b[..|b| - 1];
      var d := DigitValue(b[|b| - 1]);
      assert (a + b)[..|a + b| - 1] == a + b';
      assert (a + b)[|a + b| - 1] == b[|b| - 1];
      DigitsValueAppend(a, b');
      ShiftDigit(DigitsValue(a), Pow10(|b'|), DigitsValue(b'), d);
    }
  }

  /** Appending a digit to `y` behind `x` digits of weight `p`, as one product. */
  lemma ShiftDigit(x: int, p: int, y: int, d: int)
    ensures 10 * (x * p + y) + d == x * (10 * p) + (10 * y + d)
  {
  }

  /** Python's `str(n)` for a non-negative integer: its decimal digits, with no leading zero. */
  function NatToString(n: nat): (s: string)
    ensures Canonical(s)
    ensures DigitsValue(s) == n
  {
    if n < 10 then [DigitChar(n)]
    else
      var s := NatToString(n / 10) + [DigitChar(n % 10)];
      assert s[..|s| - 1] == NatToString(n / 10);
      assert s[0] == NatToString(n / 10)[0];
      s
  }

  /** A digit string with a non-zero first digit denotes a positive number. */
  lemma {:induction false} LeadingNonZero(s: string)
    requires s != [] && AllDigits(s) && s[0] != '0'
    ensures DigitsValue(s) >= 1
    decreases |s|
  {
    if |s| > 1 {
      var p := s[..|s| - 1];
      assert p[0] == s[0];
      LeadingNonZero(p);
    }
  }

  /** The digits `str()` writes are the only canonical digits of their value. */
  lemma {:induction false} CanonicalIsNatToString(s: string)
    requires Canonical(s)
    ensures s == NatToString(DigitsValue(s))
    decreases |s|
  {
    var d := DigitValue(s[|s| - 1]);
    assert DigitChar(d) == s[|s| - 1];
    if |s| == 1 {
      assert s == [DigitChar(d)];
    } else {
      var p := s[..|s| - 1];
      assert p[0] == s[0] && s[0] != '0';
      LeadingNonZero(p);
      CanonicalIsNatToString(p);
      var v := DigitsValue(s);
      assert v / 10 == DigitsValue(p) && v % 10 == d;
      assert s == p + [DigitChar(d)];
    }
  }

  /** Python's `str(n)` for any integer: a minus sign for a negative number, then the digits of its magnitude. */
  function IntToString(n: int): (s: string)
    ensures s != [] && (s[0] == '-' <==> n < 0)
    ensures n < 0 ==> Canonical(s[1..]) && DigitsValue(s[1..]) == -n
    ensures n >= 0 ==> Canonical(s) && DigitsValue(s) == n
  {
    if n < 0 then "-" + NatToString(-n) else NatToString(n)
  }

  // ---------------------------------------------------------------------
  // Reading numerals
  // ---------------------------------------------------------------------

  /** What a scan of a digit part found: characters consumed and the digits among them. */
  datatype Scan = Scan(len: nat, digits: string)

  /**
   * The longest prefix of `s` made of digits, each optionally preceded by
   * a single underscore: `(["_"] digit)*` in Python's numeric grammar.
   */
  function ScanDigitTail(s: string): (r: Scan)
    ensures r.len <= |s| && AllDigits(r.digits)
    ensures r.len == 0 <==> r.digits == []
    ensures |r.digits| <= r.len
    ensures forall k :: 0 <= k < r.len ==> IsDigit(s[k]) || s[k] == '_'
  {
    if |s| >= 1 && IsDigit(s[0]) then
      var r := ScanDigitTail(s[1..]);
      Scan(1 + r.len, [s[0]] + r.digits)
    else if |s| >= 2 && s[0] == '_' && IsDigit(s[1]) then
      var r := ScanDigitTail(s[2..]);
      Scan(2 + r.len, [s[1]] + r.digits)
    else Scan(0, [])
  }

  /**
   * The longest prefix of `s` matching Python's
   * `digitpart ::= digit (["_"] digit)*`, of length 0 when `s` does not
   * start with a digit.
   */
  function ScanDigitPart(s: string): (r: Scan)
    ensures r.len <= |s| && AllDigits(r.digits)
    ensures r.len == 0 <==> r.digits == []
    ensures r.len > 0 ==> IsDigit(s[0])
    ensures forall k :: 0 <= k < r.len ==> IsDigit(s[k]) || s[k] == '_'
  {
    if |s| >= 1 && IsDigit(s[0]) then ScanDigitTail(s) else Scan(0, [])
  }

  /** A run of digits ends where the first character that is neither digit nor underscore stands. */
  lemma {:induction false} ScanDigitsThen(ds: string, rest: string)
    requires AllDigits(ds)
    requires rest == [] || (!IsDigit(rest[0]) && rest[0] != '_')
    ensures ScanDigitTail(ds + rest) == Scan(|ds|, ds)
    decreases |ds|
  {
    if ds == [] {
      assert ds + rest == rest;
    } else {
      assert (ds + rest)[0] == ds[0];
      assert (ds + rest)[1..] == ds[1..] + rest;
      ScanDigitsThen(ds[1..], rest);
      assert [ds[0]] + ds[1..] == ds;
    }
  }

  /** An optional leading `+` or `-`: whether it was `-`, and what follows it. */
  function SplitSign(t: string): (r: (bool, string))
    ensures t == r.1 || (t != [] && t[0] in "+-" && t[1..] == r.1)
    ensures r.0 <==> t != [] && t[0] == '-'
  {
    if t != [] && (t[0] == '+' || t[0] == '-') then (t[0] == '-', t[1..]) else (false, t)
  }

  /** `[sign] digitpart` covering all of `t`: the integer it denotes. */
  function ParseSignedDigits(t: string): (r: Option<int>)
    ensures r.Some? ==> t != []
    ensures r.Some? ==> forall k :: 0 <= k < |t| ==> IsDigit(t[k]) || t[k] in "_+-"
  {
    var (neg, body) := SplitSign(t);
    var sc := ScanDigitPart(body);
    if sc.len > 0 && sc.len == |body| then
      assert forall k :: 0 < k < |t| && body == t[1..] ==> t[k] == body[k - 1];
      var v: int := DigitsValue(sc.digits);
      Some(if neg then -v else v)
    else None
  }

  /**
   * Python's `int(s)` in base 10: surrounding whitespace, an optional
   * sign, then decimal digits with single underscores allowed between
   * them.
   */
  function ParseInt(s: string): (r: Option<int>)
    ensures r.Some? ==> Strip(s) != []
  {
    ParseSignedDigits(Strip(s))
  }

  /** `m * 10^e` as an exact rational number. */
  function Scaled(m: nat, e: int): (x: real)
    ensures x >= 0.0
    ensures (x == 0.0) == (m == 0)
    decreases if e >= 0 then e else -e
  {
    if e == 0 then m as real
    else if e > 0 then 10.0 * Scaled(m, e - 1)
    else Scaled(m, e + 1) / 10.0
  }

  /** The optional exponent of a float literal: empty, or `e`/`E`, a sign and a digit part. */
  function ParseExponent(s: string): Option<int>
  {
    if s == [] then Some(0)
    else if s[0] == 'e' || s[0] == 'E' then ParseSignedDigits(s[1..])
    else None
  }

  /**
   * An unsigned float literal covering all of `body`:
   * `([digitpart] "." digitpart | digitpart ["."]) [exponent]`.
   */
  function ParseMagnitude(body: string): (r: Option<real>)
    ensures r.Some? ==> r.value >= 0.0
  {
    var whole := ScanDigitPart(body);
    ParseFraction(whole, body[whole.len..])
  }

  /** The rest of an unsigned float literal once its whole part `whole` is read. */
  function ParseFraction(whole: Scan, rest: string): (r: Option<real>)
    requires AllDigits(whole.digits)
    ensures r.Some? ==> r.value >= 0.0
  {
    if rest != [] && rest[0] == '.' then
      var frac := ScanDigitPart(rest[1..]);
      if whole.len == 0 && frac.len == 0 then None
      else ParseScaled(whole.digits, frac.digits, rest[1 + frac.len..])
    else if whole.len == 0 then None
    else ParseScaled(whole.digits, [], rest)
  }

  /** The value of the digits `whole` then `frac`, once the exponent in `rest` is read. */
  function ParseScaled(whole: string, frac: string, rest: string): (r: Option<real>)
    requires AllDigits(whole) && AllDigits(frac)
    ensures r.Some? ==> r.value >= 0.0
  {
    match ParseExponent(rest)
    case None => None
    case Some(e) =>
      AllDigitsAppend(whole, frac);
      Some(Scaled(DigitsValue(whole + frac), e - |frac|))
  }

  /**
   * Python's `float(s)` on finite decimal literals: surrounding
   * whitespace, an optional sign, digits with an optional fraction and
   * exponent, underscores between digits. The value is exact; `None` is
   * the `ValueError` the scripts catch.
   */
  function ParseFloat(s: string): (r: Option<real>)
    ensures r.Some? ==> Strip(s) != []
  {
    var sign := SplitSign(Strip(s));
    var magnitude := ParseMagnitude(sign.1);
    if magnitude.None? then None
    else if sign.0 then Some(-magnitude.value)
    else magnitude
  }

  /** Python's `int(x)` on a float: truncation toward zero. */
  function Trunc(x: real): (t: int)
    ensures x >= 0.0 ==> t as real <= x < t as real + 1.0
    ensures x < 0.0 ==> t as real - 1.0 < x <= t as real
  {
    if x >= 0.0 then x.Floor else -((-x).Floor)
  }

  // ---------------------------------------------------------------------
  // Millivolts as volts with three decimals
  // ---------------------------------------------------------------------

  /** The three digits of a number below 1000, with leading zeros. */
  function Pad3(r: nat): (s: string)
    requires r < 1000
    ensures |s| == 3 && AllDigits(s) && DigitsValue(s) == r
  {
    var a, b, c := r / 100, r / 10 % 10, r % 10;
    var s := [DigitChar(a), DigitChar(b), DigitChar(c)];
    assert DigitsValue(s) == 10 * (10 * a + b) + c by {
      assert s[..2][..1] == [s[0]] && [s[0]][..0] == [];
      assert DigitsValue([s[0]]) == a;
      assert DigitsValue(s[..2]) == 10 * a + b;
    }
    ThreeDigits(r);
    s
  }

  /** A number below 1000 is its hundreds, tens and units. */
  lemma ThreeDigits(r: nat)
    requires r < 1000
    ensures 10 * (10 * (r / 100) + r / 10 % 10) + r % 10 == r
  {
  }

  /**
   * `f"{mv / 1000.0:.3f}"` for a whole number of millivolts: an optional
   * minus sign, the whole volts, a point and exactly three decimals.
   */
  function FormatMillivolts(mv: int): (s: string)
    ensures |s| >= 5 && s[|s| - 4] == '.' && AllDigits(s[|s| - 3..])
    ensures s[0] == '-' <==> mv < 0
  {
    var body := VoltsBody(if mv < 0 then -mv else mv);
    var s := (if mv < 0 then "-" else "") + body;
    assert s[|s| - 3..] == body[|body| - 3..];
    assert mv >= 0 ==> s == body;
    s
  }

  /**
   * After the optional sign, the text of `mv` millivolts is the whole volts of `|mv|`
   * without leading zeros, a point, and the three decimals of the remaining millivolts.
   */
  lemma MillivoltsDigits(mv: int)
    ensures var s := FormatMillivolts(mv); var w := s[(if mv < 0 then 1 else 0)..|s| - 4];
      Canonical(w) && DigitsValue(w) == (if mv < 0 then -mv else mv) / 1000
      && DigitsValue(s[|s| - 3..]) == (if mv < 0 then -mv else mv) % 1000
  {
    var m: nat := if mv < 0 then -mv else mv;
    VoltsBodyDigits(m);
    SignedSlices(mv < 0, VoltsBody(m));
  }

  /** A sign before a text of at least four characters leaves its last four and what precedes them alone. */
  lemma SignedSlices(neg: bool, body: string)
    requires |body| >= 4
    ensures var s := (if neg then "-" else "") + body;
      s[(if neg then 1 else 0)..|s| - 4] == body[..|body| - 4] && s[|s| - 3..] == body[|body| - 3..]
  {
  }

  /** The unsigned part: whole volts, a point, three decimals. */
  function VoltsBody(m: nat): (s: string)
    ensures |s| >= 5 && s[|s| - 4] == '.' && AllDigits(s[|s| - 3..])
    ensures IsDigit(s[0]) && IsDigit(s[|s| - 1])
  {
    var whole, frac := NatToString(m / 1000), Pad3(m % 1000);
    var s := whole + "." + frac;
    assert s[|s| - 3..] == frac;
    assert s[0] == whole[0];
    s
  }

  /** `12800` millivolts are `12.800` volts, and `-5` are `-0.005`. */
  lemma WorkedMillivolts()
    ensures FormatMillivolts(12800) == "12.800"
    ensures FormatMillivolts(-5) == "-0.005"
  {
    WorkedVoltsBody(12, 800, "12", "800");
    WorkedVoltsBody(0, 5, "0", "005");
  }

  /** The unsigned part of a value whose whole volts and remaining millivolts have known texts. */
  lemma WorkedVoltsBody(v: nat, r: nat, whole: string, frac: string)
    requires r < 1000 && NatToString(v) == whole && Pad3(r) == frac
    ensures VoltsBody(1000 * v + r) == whole + "." + frac
  {
    var m := 1000 * v + r;
    assert m / 1000 == v && m % 1000 == r;
  }

  /** The unsigned part is the whole volts without leading zeros, a point, and the remaining millivolts. */
  lemma VoltsBodyDigits(m: nat)
    ensures var s := VoltsBody(m);
      Canonical(s[..|s| - 4]) && DigitsValue(s[..|s| - 4]) == m / 1000
      && DigitsValue(s[|s| - 3..]) == m % 1000
  {
    var whole, frac := NatToString(m / 1000), Pad3(m % 1000);
    var s := VoltsBody(m);
    assert s == whole + "." + frac;
    assert s[|s| - 3..] == frac;
    assert s[..|s| - 4] == whole;
  }

  // ---------------------------------------------------------------------
  // Round trips
  // ---------------------------------------------------------------------

  /** An optional minus sign followed by plain digits reads as that signed number. */
  lemma ParseSignedDigitsOf(neg: bool, ds: string)
    requires AllDigits(ds) && ds != []
    ensures ParseSignedDigits((if neg then "-" else "") + ds) == Some(if neg then -(DigitsValue(ds) as int) else DigitsValue(ds))
  {
    SplitSignOf(neg, ds);
    ScanAllDigits(ds);
  }

  /** A run of plain digits is one whole digit part. */
  lemma ScanAllDigits(ds: string)
    requires AllDigits(ds) && ds != []
    ensures ScanDigitPart(ds) == Scan(|ds|, ds)
  {
    ScanDigitsThen(ds, []);
    assert ds + [] == ds;
  }

  /** Plain digits read as an unsigned float literal give their value. */
  lemma ParseMagnitudeOfDigits(ds: string)
    requires AllDigits(ds) && ds != []
    ensures ParseMagnitude(ds) == Some(DigitsValue(ds) as real)
  {
    ScanDigitsThen(ds, []);
    assert ds + [] == ds;
    assert ds[|ds|..] == [];
    assert ParseScaled(ds, [], []) == Some(DigitsValue(ds) as real);
  }

  /** `int(str(n)) == n`. */
  lemma ParseIntOfIntToString(n: int)
    ensures ParseInt(IntToString(n)) == Some(n)
  {
    var m: nat := if n < 0 then -n else n;
    var ds := NatToString(m);
    assert IntToString(n) == (if n < 0 then "-" else "") + ds;
    SignedDigitsInt(n < 0, ds);
    SignedInt(ParseInt(IntToString(n)), n, DigitsValue(ds));
  }

  /** `float(str(n)) == n` for every integer. */
  lemma ParseFloatOfIntToString(n: int)
    ensures ParseFloat(IntToString(n)) == Some(n as real)
  {
    var m: nat := if n < 0 then -n else n;
    var ds := NatToString(m);
    assert IntToString(n) == (if n < 0 then "-" else "") + ds;
    SignedDigitsFloat(n < 0, ds, m as real);
  }

  /** Plain digits after an optional minus sign read as their value with that sign by `int()`. */
  lemma SignedDigitsInt(neg: bool, ds: string)
    requires AllDigits(ds) && ds != []
    ensures ParseInt((if neg then "-" else "") + ds) == Some(if neg then -(DigitsValue(ds) as int) else DigitsValue(ds))
  {
    assert IsDigit(ds[0]) && IsDigit(ds[|ds| - 1]);
    StripSigned(neg, ds);
    ParseSignedDigitsOf(neg, ds);
  }

  /** Plain digits after an optional minus sign read as their value `x` with that sign by `float()`. */
  lemma SignedDigitsFloat(neg: bool, ds: string, x: real)
    requires AllDigits(ds) && ds != [] && x == DigitsValue(ds) as real
    ensures ParseFloat((if neg then "-" else "") + ds) == Some(if neg then -x else x)
  {
    assert IsDigit(ds[0]) && IsDigit(ds[|ds| - 1]);
    ParseMagnitudeOfDigits(ds);
    ParseFloatOfSigned(neg, ds, x);
  }

  /** A value that is `m` with the sign of `n`, for `m` the magnitude of `n`, is `n`. */
  lemma SignedInt(o: Option<int>, n: int, m: nat)
    requires m == (if n < 0 then -n else n)
    requires o == Some(if n < 0 then -(m as int) else m)
    ensures o == Some(n)
  {
  }

  /** A value that is `m` with the sign of `n`, for `m` the magnitude of `n`, is `n`. */
  lemma SignedMagnitude(o: Option<real>, n: int, m: nat)
    requires m == (if n < 0 then -n else n)
    requires o == Some(if n < 0 then -(m as real) else m as real)
    ensures o == Some(n as real)
  {
  }

  /** Digits, a point and more digits read as an unsigned float literal. */
  lemma ParseMagnitudeOfPointed(whole: string, frac: string)
    requires AllDigits(whole) && whole != [] && AllDigits(frac) && frac != []
    ensures AllDigits(whole + frac)
    ensures ParseMagnitude(whole + "." + frac) == Some(Scaled(DigitsValue(whole + frac), -|frac|))
  {
    WholePart(whole, frac);
    PointedFraction(whole, frac);
  }

  /** Once the whole part of `whole.frac` is read, the point and the fraction are left. */
  lemma WholePart(whole: string, frac: string)
    requires AllDigits(whole) && whole != []
    ensures ParseMagnitude(whole + "." + frac) == ParseFraction(Scan(|whole|, whole), "." + frac)
  {
    var body := whole + "." + frac;
    WholeBeforePoint(whole, frac);
    assert body[|whole|..] == "." + frac;
  }

  /** The whole part of `whole.frac` is scanned up to the point. */
  lemma WholeBeforePoint(whole: string, frac: string)
    requires AllDigits(whole) && whole != []
    ensures ScanDigitPart(whole + "." + frac) == Scan(|whole|, whole)
  {
    var body := whole + "." + frac;
    assert body == whole + ("." + frac);
    ScanDigitsThen(whole, "." + frac);
    assert body[0] == whole[0];
  }

  /** After the whole part, a point and a digit run with nothing behind it give the scaled value. */
  lemma PointedFraction(whole: string, frac: string)
    requires AllDigits(whole) && whole != [] && AllDigits(frac) && frac != []
    ensures AllDigits(whole + frac)
    ensures ParseFraction(Scan(|whole|, whole), "." + frac) == Some(Scaled(DigitsValue(whole + frac), -|frac|))
  {
    AllDigitsAppend(whole, frac);
    PointedDigits(whole, frac);
    NoExponent(whole, frac);
  }

  /** A point and a digit run after a whole part leave no exponent to read. */
  lemma PointedDigits(whole: string, frac: string)
    requires AllDigits(whole) && whole != [] && AllDigits(frac) && frac != []
    ensures ParseFraction(Scan(|whole|, whole), "." + frac) == ParseScaled(whole, frac, [])
  {
    var rest := "." + frac;
    assert ScanDigitPart(rest[1..]) == Scan(|frac|, frac) by {
      assert rest[1..] == frac;
      ScanDigitsThen(frac, []);
      assert frac + [] == frac;
    }
    assert rest[1 + |frac|..] == [];
  }

  /** Without an exponent, the digits are scaled down by the length of the fraction. */
  lemma NoExponent(whole: string, frac: string)
    requires AllDigits(whole) && AllDigits(frac)
    ensures AllDigits(whole + frac)
    ensures ParseScaled(whole, frac, []) == Some(Scaled(DigitsValue(whole + frac), -|frac|))
  {
    AllDigitsAppend(whole, frac);
    assert ParseExponent([]) == Some(0);
  }

  /** An optionally signed run starting and ending with a digit has nothing to strip. */
  lemma StripSigned(neg: bool, body: string)
    requires body != [] && IsDigit(body[0]) && IsDigit(body[|body| - 1])
    ensures Strip((if neg then "-" else "") + body) == (if neg then "-" else "") + body
  {
    var s := (if neg then "-" else "") + body;
    assert s[|s| - 1] == body[|body| - 1];
    assert NoEdgeSpace(s);
    StripPadded([], s, []);
    assert [] + s + [] == s;
  }

  /** A sign, when there is one, splits off in front of a body that starts with a digit. */
  lemma SplitSignOf(neg: bool, body: string)
    requires body != [] && IsDigit(body[0])
    ensures SplitSign((if neg then "-" else "") + body) == (neg, body)
  {
    var s := (if neg then "-" else "") + body;
    if neg {
      assert s[0] == '-' && s[1..] == body;
    } else {
      assert s == body;
    }
  }

  /** A signed unpadded literal reads as its magnitude with that sign. */
  lemma ParseFloatOfSigned(neg: bool, body: string, x: real)
    requires body != [] && IsDigit(body[0]) && IsDigit(body[|body| - 1])
    requires ParseMagnitude(body) == Some(x)
    ensures ParseFloat((if neg then "-" else "") + body) == Some(if neg then -x else x)
  {
    StripSigned(neg, body);
    SplitSignOf(neg, body);
  }

  /** Whole volts, a point and three decimals read as an unsigned literal: `m / 1000`. */
  lemma MillivoltsMagnitude(m: nat)
    ensures ParseMagnitude(VoltsBody(m)) == Some(m as real / 1000.0)
  {
    var whole := NatToString(m / 1000);
    var frac := Pad3(m % 1000);
    assert VoltsBody(m) == whole + "." + frac;
    ParseMagnitudeOfPointed(whole, frac);
    WholeAndThousandths(m);
    Thousandths(m);
  }

  /** The digits of the whole volts followed by the three decimals denote the millivolts. */
  lemma WholeAndThousandths(m: nat)
    ensures AllDigits(NatToString(m / 1000) + Pad3(m % 1000))
    ensures DigitsValue(NatToString(m / 1000) + Pad3(m % 1000)) == m
  {
    var whole := NatToString(m / 1000);
    var frac := Pad3(m % 1000);
    DigitsValueAppend(whole, frac);
    assert Pow10(|frac|) == 1000 by {
      assert Pow10(1) == 10;
      assert Pow10(2) == 100;
    }
    DivMod1000(m);
  }

  /** Read back as a float literal, the three-decimal text is exactly `mv / 1000`. */
  lemma ParseFloatOfMillivolts(mv: int)
    ensures ParseFloat(FormatMillivolts(mv)) == Some(mv as real / 1000.0)
  {
    if mv < 0 {
      NegativeMillivolts(mv);
    } else {
      NonNegativeMillivolts(mv);
    }
  }

  /** Without a sign, the text is the unsigned part and reads as it. */
  lemma NonNegativeMillivolts(mv: int)
    requires mv >= 0
    ensures ParseFloat(FormatMillivolts(mv)) == Some(mv as real / 1000.0)
  {
    NonNegativeText(mv);
    UnsignedMillivolts(mv);
  }

  /** The unsigned part reads as `m / 1000`. */
  lemma UnsignedMillivolts(m: nat)
    ensures ParseFloat(VoltsBody(m)) == Some(m as real / 1000.0)
  {
    MillivoltsMagnitude(m);
    ParseFloatOfUnsigned(VoltsBody(m), m as real / 1000.0);
  }

  /** Without a sign, the text is the unsigned part alone. */
  lemma NonNegativeText(mv: nat)
    ensures FormatMillivolts(mv) == VoltsBody(mv)
  {
  }

  /** An unsigned unpadded literal reads as its magnitude. */
  lemma ParseFloatOfUnsigned(body: string, x: real)
    requires body != [] && IsDigit(body[0]) && IsDigit(body[|body| - 1])
    requires ParseMagnitude(body) == Some(x)
    ensures ParseFloat(body) == Some(x)
  {
    ParseFloatOfSigned(false, body, x);
    assert "" + body == body;
  }

  /** With a sign, the text is `-` before the unsigned part of `-mv`, and reads as minus that part. */
  lemma NegativeMillivolts(mv: int)
    requires mv < 0
    ensures ParseFloat(FormatMillivolts(mv)) == Some(mv as real / 1000.0)
  {
    var m: nat := -mv;
    NegativeText(mv, m);
    ParseFloatOfMinus(VoltsBody(m));
    MillivoltsMagnitude(m);
    NegatedThousandths(ParseFloat(FormatMillivolts(mv)), ParseMagnitude(VoltsBody(m)), mv, m);
  }

  /** The value of a float literal after a minus sign, when there is one. */
  function Negated(o: Option<real>): Option<real>
  {
    if o.None? then None else Some(-o.value)
  }

  /** The text of a negative `mv` is a minus sign before the unsigned part of its magnitude `m`. */
  lemma NegativeText(mv: int, m: nat)
    requires mv < 0 && m == -mv
    ensures FormatMillivolts(mv) == "-" + VoltsBody(m)
  {
  }

  /** An unpadded literal after a minus sign reads as minus its magnitude. */
  lemma ParseFloatOfMinus(body: string)
    requires body != [] && IsDigit(body[0]) && IsDigit(body[|body| - 1])
    ensures ParseFloat("-" + body) == Negated(ParseMagnitude(body))
  {
    StripSigned(true, body);
    SplitSignOf(true, body);
  }

  /** A value that is minus `m` thousandths, for `m == -mv`, is `mv` thousandths. */
  lemma NegatedThousandths(o: Option<real>, p: Option<real>, mv: int, m: nat)
    requires m == -mv
    requires o == Negated(p) && p == Some(m as real / 1000.0)
    ensures o == Some(mv as real / 1000.0)
  {
  }

  /** Whole volts and leftover millivolts make up the millivolts. */
  lemma DivMod1000(m: nat)
    ensures m / 1000 * 1000 + m % 1000 == m
  {
  }

  /** Scaling by ten to the minus three is dividing by a thousand. */
  lemma Thousandths(m: nat)
    ensures Scaled(m, -3) == m as real / 1000.0
  {
    assert Scaled(m, -1) == m as real / 10.0;
    assert Scaled(m, -2) == m as real / 100.0;
  }

  /** Text that does not start like a number (digit, sign or point) is not a float literal. */
  lemma ParseFloatNeedsNumeral(s: string)
    requires s != [] && NoEdgeSpace(s)
    requires !IsDigit(s[0]) && s[0] != '+' && s[0] != '-' && s[0] != '.'
    ensures ParseFloat(s) == None
  {
    StripPadded([], s, []);
    assert [] + s + [] == s;
    assert SplitSign(s) == (false, s);
    assert ScanDigitPart(s) == Scan(0, []);
    assert s[0..] == s;
  }
}
