/** The number syntaxes the line parser accepts: Rust's `str::parse::<i64>`
    for minutes and offsets, and an exact decimal for seconds, converted to
    whole milliseconds by truncation toward zero. */
module Numbers {
  import opened Wrappers
  import opened Text

  const I64_MIN: int := -0x8000_0000_0000_0000
  const I64_MAX: int := 0x7FFF_FFFF_FFFF_FFFF

  /** Representable as a Rust `i64`. */
  predicate InI64(n: int) {
    I64_MIN <= n <= I64_MAX
  }

  predicate IsDigit(c: char) {
    '0' <= c <= '9'
  }

  predicate AllDigits(s: string) {
    forall i :: 0 <= i < |s| ==> IsDigit(s[i])
  }

  function Pow10(k: nat): (r: nat)
    ensures r >= 1
  {
    if k == 0 then 1 else 10 * Pow10(k - 1)
  }

  /** The value of a string of decimal digits, most significant first. */
  function DigitsValue(s: string): (r: nat)
    requires AllDigits(s)
  {
    if s == [] then 0
    else 10 * DigitsValue(s[..|s| - 1]) + (s[|s| - 1] as int - '0' as int)
  }

  /** The powers of ten the decoder needs, spelled out. */
  lemma Pow10Values()
    ensures Pow10(1) == 10 && Pow10(2) == 100 && Pow10(3) == 1000
    ensures Pow10(14) == 100_000_000_000_000 && Pow10(15) == 1_000_000_000_000_000
    ensures Pow10(18) == 1_000_000_000_000_000_000
  {
    assert Pow10(1) == 10;
    assert Pow10(2) == 100;
    assert Pow10(3) == 1000;
    assert Pow10(4) == 10_000;
    assert Pow10(5) == 100_000;
    assert Pow10(6) == 1_000_000;
    assert Pow10(7) == 10_000_000;
    assert Pow10(8) == 100_000_000;
    assert Pow10(9) == 1_000_000_000;
    assert Pow10(10) == 10_000_000_000;
    assert Pow10(11) == 100_000_000_000;
    assert Pow10(12) == 1_000_000_000_000;
    assert Pow10(13) == 10_000_000_000_000;
    assert Pow10(14) == 100_000_000_000_000;
    assert Pow10(15) == 1_000_000_000_000_000;
    assert Pow10(16) == 10_000_000_000_000_000;
    assert Pow10(17) == 100_000_000_000_000_000;
  }

  /** More digits, a larger power. */
  lemma {:induction false} Pow10Monotone(a: nat, b: nat)
    requires a <= b
    ensures Pow10(a) <= Pow10(b)
    decreases b
  {
    if a < b {
      Pow10Monotone(a, b - 1);
    }
  }

  /** A digit string of length k is worth less than 10^k. */
  lemma {:induction false} DigitsValueBound(s: string)
    requires AllDigits(s)
    ensures DigitsValue(s) < Pow10(|s|)
  {
    if s != [] {
      DigitsValueBound(s[..|s| - 1]);
    }
  }

  lemma {:induction false} AllDigitsAppend(a: string, b: string)
    requires AllDigits(a) && AllDigits(b)
    ensures AllDigits(a + b)
  {
    forall i | 0 <= i < |a + b| ensures IsDigit((a + b)[i]) {
      if i < |a| { assert (a + b)[i] == a[i]; } else { assert (a + b)[i] == b[i - |a|]; }
    }
  }

  /** Digits written after others shift them by one place each. */
  lemma {:induction false} DigitsValueAppend(a: string, b: string)
    requires AllDigits(a) && AllDigits(b)
    ensures AllDigits(a + b)
    ensures DigitsValue(a + b) == DigitsValue(a) * Pow10(|b|) + DigitsValue(b)
  {
    AllDigitsAppend(a, b);
    if b == [] {
      assert a + b == a;
    } else {
      var b' := b[..|b| - 1];
      var d := b[|b| - 1] as int - '0' as int;
      assert (a + b)[..|a + b| - 1] == a + b';
      assert (a + b)[|a + b| - 1] == b[|b| - 1];
      DigitsValueAppend(a, b');
      assert DigitsValue(a + b) == 10 * DigitsValue(a + b') + d;
      assert DigitsValue(b) == 10 * DigitsValue(b') + d;
      ShiftPlace(DigitsValue(a), Pow10(|b'|), DigitsValue(b'), d);
    }
  }

  lemma ShiftPlace(x: int, p: int, y: int, d: int)
    ensures 10 * (x * p + y) + d == x * (10 * p) + (10 * y + d)
  {
  }

  /** Shifting `a` by `p` places, adding `b`, then shifting by `k` more
      places, where `p` and `k` make 1000 together. */
  lemma Places(a: int, b: int, p: int, k: int, x: int, y: int)
    requires x == a * p + b && y == x * k && p * k == 1000
    ensures y == a * 1000 + b * k
  {
    assert (a * p + b) * k == a * (p * k) + b * k;
  }

  /** `k` zero digits. */
  function Zeros(k: nat): (r: string)
    ensures |r| == k && AllDigits(r) && DigitsValue(r) == 0
  {
    if k == 0 then []
    else
      var r := Zeros(k - 1) + "0";
      assert r[..k - 1] == Zeros(k - 1);
      r
  }

  /** The shortest decimal spelling of a natural number. */
  function ShowNat(n: nat): (r: string)
    ensures r != [] && AllDigits(r)
  {
    var last := ['0' + ((n % 10) as char)];
    if n < 10 then last else ShowNat(n / 10) + last
  }

  /** `ShowNat` spells the number it is given. */
  lemma {:induction false} ShowNatValue(n: nat)
    ensures DigitsValue(ShowNat(n)) == n
  {
    var last := ['0' + ((n % 10) as char)];
    if n >= 10 {
      ShowNatValue(n / 10);
      assert (ShowNat(n / 10) + last)[..|ShowNat(n)| - 1] == ShowNat(n / 10);
    }
  }

  /** `i64::to_string`: an optional minus sign and the digits. */
  function ShowInt(n: int): (r: string) {
    if n < 0 then "-" + ShowNat(-n) else ShowNat(n)
  }

  /** An optional leading `+` or `-`: whether the number is negative, and
      the text after the sign. */
  function SplitSign(s: string): (r: (bool, string))
    ensures r.1 == if s != [] && (s[0] == '+' || s[0] == '-') then s[1..] else s
    ensures r.0 <==> s != [] && s[0] == '-'
  {
    if s != [] && s[0] == '-' then (true, s[1..])
    else if s != [] && s[0] == '+' then (false, s[1..])
    else (false, s)
  }

  /** `str::parse::<i64>`: an optional `+` or `-`, then one or more ASCII
      digits whose signed value is within the i64 range. */
  function ParseI64(s: string): (r: Option<int>)
    ensures r.Some? ==> InI64(r.value)
  {
    var (negative, digits) := SplitSign(s);
    if digits == [] || !AllDigits(digits) then None
    else
      var n: int := if negative then -(DigitsValue(digits) as int) else DigitsValue(digits);
      if InI64(n) then Some(n) else None
  }

  /** Every i64 reads back from its own spelling, and no other integer
      does: the parse is the exact inverse of `ShowInt` on the i64 range. */
  lemma {:induction false} ParseI64ShowInt(n: int)
    ensures ParseI64(ShowInt(n)) == if InI64(n) then Some(n) else None
  {
    if n < 0 {
      ShowNatValue(-n);
      assert SplitSign(ShowInt(n)) == (true, ShowNat(-n));
    } else {
      ShowNatValue(n);
      assert SplitSign(ShowInt(n)) == (false, ShowNat(n));
    }
  }

  /** An integer literal is non-empty, ends in a digit and holds no
      whitespace anywhere, so padding a number with spaces makes it
      unparseable. */
  lemma {:induction false} ParseI64Shape(s: string)
    requires ParseI64(s).Some?
    ensures s != [] && IsDigit(s[|s| - 1])
    ensures forall i :: 0 <= i < |s| ==> !IsWhitespace(s[i])
  {
    var (negative, digits) := SplitSign(s);
    assert forall i :: 0 <= i < |s| ==> s[i] in "+-" || IsDigit(s[i]);
  }

  /** A digit string of at most 18 digits parses as its value. */
  lemma {:induction false} ParseI64Digits(digits: string)
    requires digits != [] && AllDigits(digits) && |digits| <= 18
    ensures ParseI64(digits) == Some(DigitsValue(digits) as int)
  {
    assert SplitSign(digits) == (false, digits);
    DigitsValueBound(digits);
    Pow10Monotone(|digits|, 18);
    Pow10Values();
  }

  /** The sign `SplitSign` removes, as text. */
  lemma {:induction false} SignPrefix(s: string) returns (sign: string)
    ensures sign == "" || sign == "+" || sign == "-"
    ensures s == sign + SplitSign(s).1
    ensures SplitSign(s).0 <==> sign == "-"
  {
    if s != [] && (s[0] == '+' || s[0] == '-') {
      sign := [s[0]];
      assert s == [s[0]] + s[1..];
    } else {
      sign := "";
      assert s == "" + s;
    }
  }

  /** Any optional sign followed by digits reads as its signed value when
      that value is an i64, leading zeros and a `+` included, and fails
      otherwise. */
  lemma {:induction false} ParseI64Signed(sign: string, digits: string)
    requires sign == "" || sign == "+" || sign == "-"
    requires digits != [] && AllDigits(digits)
    ensures var n: int := if sign == "-" then -(DigitsValue(digits) as int) else DigitsValue(digits);
      ParseI64(sign + digits) == if InI64(n) then Some(n) else None
  {
    SplitSignOf(sign, digits);
  }

  /** Conversely, every text that parses is an optional sign followed by
      digits, and its value is theirs: nothing else reads as an integer. */
  lemma {:induction false} ParseI64Converse(s: string) returns (sign: string, digits: string)
    requires ParseI64(s).Some?
    ensures sign == "" || sign == "+" || sign == "-"
    ensures digits != [] && AllDigits(digits) && s == sign + digits
    ensures ParseI64(s).value == if sign == "-" then -(DigitsValue(digits) as int) else DigitsValue(digits)
  {
    sign := SignPrefix(s);
    digits := SplitSign(s).1;
  }

  /** An exact decimal number: `mantissa / 10^scale`. */
  datatype Decimal = Decimal(mantissa: int, scale: nat)

  /** `Decimal::from_str_exact` on the grammar `[+-]?digits('.'digits)?`:
      the digits with the point removed make the mantissa, the number of
      fractional digits the scale. */
  function ParseDecimal(s: string): (r: Option<Decimal>)
    ensures r.Some? ==> r.value.scale < |s|
  {
    var (negative, body) := SplitSign(s);
    match TakeUntil(body, '.')
    case None =>
      if body == [] || !AllDigits(body) then None
      else Some(Decimal(if negative then -(DigitsValue(body) as int) else DigitsValue(body), 0))
    case Some((whole, rest)) =>
      var fraction := rest[1..];
      if whole == [] || fraction == [] || !AllDigits(whole) || !AllDigits(fraction) then None
      else
        var m: int := DigitsValue(whole + fraction);
        Some(Decimal(if negative then -m else m, |fraction|))
  }

  lemma {:induction false} SplitSignOf(sign: string, body: string)
    requires sign == "" || sign == "+" || sign == "-"
    requires body != [] && IsDigit(body[0])
    ensures SplitSign(sign + body) == (sign == "-", body)
  {
    if sign == "" {
      assert sign + body == body;
    } else {
      assert (sign + body)[0] == sign[0];
      assert (sign + body)[1..] == body;
    }
  }

  /** A signed digit string reads as that integer with scale zero. */
  lemma {:induction false} ParseDecimalInteger(sign: string, whole: string)
    requires sign == "" || sign == "+" || sign == "-"
    requires whole != [] && AllDigits(whole)
    ensures var m: int := DigitsValue(whole);
      ParseDecimal(sign + whole) == Some(Decimal(if sign == "-" then -m else m, 0))
  {
    SplitSignOf(sign, whole);
    assert '.' !in whole by {
      forall i | 0 <= i < |whole| ensures whole[i] != '.' { assert IsDigit(whole[i]); }
    }
    TakeUntilSpec(whole, '.');
  }

  /** A signed `whole.fraction` reads exactly as both digit strings side by
      side, with the number of fractional digits as the scale; by
      `DigitsValueAppend` that mantissa is `whole * 10^|fraction| + fraction`. */
  lemma {:induction false} ParseDecimalFraction(sign: string, whole: string, fraction: string)
    requires sign == "" || sign == "+" || sign == "-"
    requires whole != [] && AllDigits(whole) && fraction != [] && AllDigits(fraction)
    ensures AllDigits(whole + fraction)
    ensures var m: int := DigitsValue(whole + fraction);
      ParseDecimal(sign + whole + "." + fraction) == Some(Decimal(if sign == "-" then -m else m, |fraction|))
  {
    var body := whole + ['.'] + fraction;
    var text := sign + whole + "." + fraction;
    assert text == sign + body;
    assert body[|whole|] == '.';
    SplitSignOf(sign, body);
    assert '.' !in whole by {
      forall i | 0 <= i < |whole| ensures whole[i] != '.' { assert IsDigit(whole[i]); }
    }
    TakeUntilSplit(whole, fraction, '.');
    AllDigitsAppend(whole, fraction);
    ParseDecimalPoint(text, sign == "-", body, whole, fraction);
  }

  /** `ParseDecimal` once the sign and the first point are found. */
  lemma {:induction false} ParseDecimalPoint(s: string, negative: bool, body: string, whole: string, fraction: string)
    requires SplitSign(s) == (negative, body)
    requires TakeUntil(body, '.') == Some((whole, ['.'] + fraction))
    requires whole != [] && AllDigits(whole) && fraction != [] && AllDigits(fraction)
    requires AllDigits(whole + fraction)
    ensures var m: int := DigitsValue(whole + fraction);
      ParseDecimal(s) == Some(Decimal(if negative then -m else m, |fraction|))
  {
    assert (['.'] + fraction)[1..] == fraction;
  }

  /** Conversely, every text that reads as a decimal is an optional sign and
      digits, with at most one point between two non-empty digit runs, and
      its value is the one `ParseDecimalInteger` and `ParseDecimalFraction`
      give that spelling. */
  lemma {:induction false} ParseDecimalConverse(s: string) returns (sign: string, whole: string, fraction: string)
    requires ParseDecimal(s).Some?
    ensures sign == "" || sign == "+" || sign == "-"
    ensures whole != [] && AllDigits(whole) && AllDigits(fraction) && AllDigits(whole + fraction)
    ensures s == if fraction == [] then sign + whole else sign + whole + "." + fraction
    ensures var m: int := DigitsValue(whole + fraction);
      ParseDecimal(s).value == Decimal(if sign == "-" then -m else m, |fraction|)
  {
    sign := SignPrefix(s);
    var body := SplitSign(s).1;
    match TakeUntil(body, '.')
    case None =>
      whole, fraction := body, [];
      DecimalWithoutPoint(s, sign, body);
    case Some((w, rest)) =>
      whole, fraction := w, rest[1..];
      DecimalWithPoint(s, sign, body, whole, rest);
  }

  /** A text without a point that reads as a decimal is a sign and digits. */
  lemma {:induction false} DecimalWithoutPoint(s: string, sign: string, body: string)
    requires ParseDecimal(s).Some? && SplitSign(s) == (sign == "-", body) && TakeUntil(body, '.').None?
    ensures body != [] && AllDigits(body) && AllDigits(body + []) && body + [] == body
    ensures var m: int := DigitsValue(body + []);
      ParseDecimal(s).value == Decimal(if sign == "-" then -m else m, 0)
  {
    assert body + [] == body;
  }

  /** A text with a point that reads as a decimal has digits on both sides
      of its first point. */
  lemma {:induction false} DecimalWithPoint(s: string, sign: string, body: string, whole: string, rest: string)
    requires ParseDecimal(s).Some? && SplitSign(s) == (sign == "-", body) && s == sign + body
    requires TakeUntil(body, '.') == Some((whole, rest))
    ensures rest != [] && rest[1..] != []
    ensures whole != [] && AllDigits(whole) && AllDigits(rest[1..]) && AllDigits(whole + rest[1..])
    ensures s == sign + whole + "." + rest[1..]
    ensures var m: int := DigitsValue(whole + rest[1..]);
      ParseDecimal(s).value == Decimal(if sign == "-" then -m else m, |rest[1..]|)
  {
    TakeUntilSpec(body, '.');
    assert rest == ['.'] + rest[1..];
    AllDigitsAppend(whole, rest[1..]);
  }

  /** Integer division that truncates toward zero, as `Decimal::to_i64`
      truncates (Dafny's own `/` is Euclidean). */
  function TruncDiv(a: int, b: int): (r: int)
    requires b > 0
  {
    if a >= 0 then a / b else -((-a) / b)
  }

  /** The truncated quotient is the multiple of `b` next to `a` on the side
      of zero. */
  lemma TruncDivBounds(a: int, b: int)
    requires b > 0
    ensures var q := TruncDiv(a, b);
      (0 <= a ==> 0 <= q * b <= a < q * b + b) && (a < 0 ==> q * b - b < a <= q * b <= 0)
  {
    if a >= 0 {
      EuclideanBounds(a, b);
    } else {
      EuclideanBounds(-a, b);
    }
  }

  lemma EuclideanBounds(a: nat, b: int)
    requires b > 0
    ensures 0 <= (a / b) * b <= a < (a / b) * b + b
  {
    assert a == (a / b) * b + a % b;
  }

  /** `(d * 1000).to_i64()`: the whole milliseconds of `d` seconds,
      truncated toward zero, or None when they have no i64 value. */
  function Millis(d: Decimal): (r: Option<int>)
    ensures r.Some? ==> InI64(r.value)
  {
    var ms := TruncDiv(d.mantissa * 1000, Pow10(d.scale));
    if InI64(ms) then Some(ms) else None
  }

  /** With at most three fractional digits nothing is truncated: the
      milliseconds are the mantissa shifted to three places. */
  lemma {:induction false} MillisExact(d: Decimal)
    requires d.scale <= 3
    ensures TruncDiv(d.mantissa * 1000, Pow10(d.scale)) == d.mantissa * Pow10(3 - d.scale)
  {
    var p := Pow10(d.scale);
    var k := Pow10(3 - d.scale);
    assert p * k == 1000 by {
      if d.scale == 0 {} else if d.scale == 1 {} else if d.scale == 2 {} else {}
    }
    var q := d.mantissa * k;
    assert d.mantissa * 1000 == q * p;
    TruncDivExact(q, p);
  }

  lemma TruncDivExact(q: int, p: int)
    requires p > 0
    ensures TruncDiv(q * p, p) == q
  {
    var r := TruncDiv(q * p, p);
    TruncDivBounds(q * p, p);
    if r < q {
      MulLess(r, q, p);
    } else if q < r {
      MulLess(q, r, p);
    }
  }

  /** For a positive factor, a smaller integer's multiple falls at least one
      whole factor lower. */
  lemma MulLess(x: int, y: int, p: int)
    requires p > 0 && x < y
    ensures x * p + p <= y * p
  {
    var d := y - x - 1;
    assert d >= 0;
    assert d * p >= 0;
    assert y * p == (x + 1 + d) * p == x * p + p + d * p;
  }
}
