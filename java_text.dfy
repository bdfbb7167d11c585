/**
  The pieces of the Java platform the scalar decoders lean on: the widths of
  the integral types and the `(byte)` cast, `String.trim`, decimal integer
  literals as `Integer.parseInt`, `Long.parseLong` and `new BigInteger(String)`
  read them, and decimal literals as `new BigDecimal(String)` reads them.
  A Dafny `char` is a Unicode scalar value; a character of the Basic
  Multilingual Plane outside the surrogate range is one UTF-16 code unit of a
  Java string, and such text is what the model describes.
*/
module JavaText {

  datatype Option<+T> = None | Some(value: T)

  // ---------------------------------------------------------------------
  // Integral widths
  // ---------------------------------------------------------------------

  const MinByte: int := -0x80
  const MaxByte: int := 0x7F
  const MinShort: int := -0x8000
  const MaxShort: int := 0x7FFF
  const MinInt: int := -0x8000_0000
  const MaxInt: int := 0x7FFF_FFFF
  const MinLong: int := -0x8000_0000_0000_0000
  const MaxLong: int := 0x7FFF_FFFF_FFFF_FFFF
  const MaxChar: int := 0xFFFF

  predicate InByteRange(v: int) { MinByte <= v <= MaxByte }
  predicate InShortRange(v: int) { MinShort <= v <= MaxShort }
  predicate InIntRange(v: int) { MinInt <= v <= MaxInt }
  predicate InLongRange(v: int) { MinLong <= v <= MaxLong }

  /** Java's `(byte) v` on an `int`: keeps the low eight bits, read as two's complement. */
  function ToByte(v: int): (b: int)
    ensures InByteRange(b)
    ensures (v - b) % 256 == 0
    ensures InByteRange(v) ==> b == v
  {
    (v + 128) % 256 - 128
  }

  /** Every code unit of `s` is a UTF-16 code unit (Java strings hold nothing else). */
  predicate IsJavaString(s: string)
  {
    forall i :: 0 <= i < |s| ==> s[i] as int <= MaxChar
  }

  // ---------------------------------------------------------------------
  // String.trim
  // ---------------------------------------------------------------------

  /** `String.trim` removes leading and trailing code units at or below U+0020. */
  predicate IsTrimmable(c: char) { c <= ' ' }

  predicate NoneTrimmable(s: string)
  {
    forall i :: 0 <= i < |s| ==> !IsTrimmable(s[i])
  }

  predicate AllTrimmable(s: string)
  {
    forall i :: 0 <= i < |s| ==> IsTrimmable(s[i])
  }

  /** Neither end of `s` can be trimmed. */
  predicate IsTrimmed(s: string)
  {
    s == [] || (!IsTrimmable(s[0]) && !IsTrimmable(s[|s| - 1]))
  }

  function TrimStart(s: string): (r: string)
    ensures |r| <= |s|
    ensures r == [] || !IsTrimmable(r[0])
  {
    if |s| > 0 && IsTrimmable(s[0]) then TrimStart(s[1..]) else s
  }

  function TrimEnd(s: string): (r: string)
    ensures |r| <= |s|
    ensures r == [] || !IsTrimmable(r[|r| - 1])
    ensures r != [] ==> r[0] == s[0]
  {
    if |s| > 0 && IsTrimmable(s[|s| - 1]) then TrimEnd(s[..|s| - 1]) else s
  }

  /** `String.trim`: the longest slice of `s` with no trimmable code unit at either end. */
  function Trim(s: string): (r: string)
    ensures IsTrimmed(r)
    ensures |r| <= |s|
    ensures IsTrimmed(s) ==> r == s
  {
    var t := TrimStart(s);
    var r := TrimEnd(t);
    assert r != [] ==> r[0] == t[0];
    assert IsTrimmed(s) ==> t == s && r == t;
    r
  }

  /** `trim` takes a slice, so it keeps every code unit within the UTF-16 range. */
  lemma TrimKeepsJavaString(s: string)
    ensures IsJavaString(s) ==> IsJavaString(Trim(s))
  {
    if IsJavaString(s) {
      TrimStartKeepsJavaString(s);
      TrimEndKeepsJavaString(TrimStart(s));
    }
  }

  lemma {:induction false} TrimStartKeepsJavaString(s: string)
    requires IsJavaString(s)
    ensures IsJavaString(TrimStart(s))
  {
    if |s| > 0 && IsTrimmable(s[0]) {
      assert forall i :: 0 <= i < |s[1..]| ==> s[1..][i] == s[i + 1];
      TrimStartKeepsJavaString(s[1..]);
    }
  }

  lemma {:induction false} TrimEndKeepsJavaString(s: string)
    requires IsJavaString(s)
    ensures IsJavaString(TrimEnd(s))
  {
    if |s| > 0 && IsTrimmable(s[|s| - 1]) {
      assert forall i :: 0 <= i < |s[..|s| - 1]| ==> s[..|s| - 1][i] == s[i];
      TrimEndKeepsJavaString(s[..|s| - 1]);
    }
  }

  /** Text with no blank at either end is its own trimmed form. */
  lemma TrimUnpadded(s: string)
    requires NoneTrimmable(s)
    ensures Trim(s) == s
  {
    TrimmedIsFixed(s);
  }

  /** Text of blanks only trims to the empty string. */
  lemma TrimAllBlank(s: string)
    requires AllTrimmable(s)
    ensures Trim(s) == []
  {
    TrimStartAllTrimmable(s);
  }

  /** Trimming twice is trimming once. */
  lemma TrimIdempotent(s: string)
    ensures Trim(Trim(s)) == Trim(s)
  {
    var r := Trim(s);
    TrimmedIsFixed(r);
  }

  lemma TrimmedIsFixed(s: string)
    requires IsTrimmed(s)
    ensures Trim(s) == s
  {
    assert TrimStart(s) == s;
    assert TrimEnd(s) == s;
  }

  lemma {:induction false} TrimStartPadding(pre: string, s: string)
    requires AllTrimmable(pre)
    ensures TrimStart(pre + s) == TrimStart(s)
  {
    if pre != [] {
      assert (pre + s)[0] == pre[0];
      assert (pre + s)[1..] == pre[1..] + s;
      TrimStartPadding(pre[1..], s);
    } else {
      assert pre + s == s;
    }
  }

  lemma {:induction false} TrimEndPadding(s: string, post: string)
    requires AllTrimmable(post)
    ensures TrimEnd(s + post) == TrimEnd(s)
  {
    if post != [] {
      var p := post[..|post| - 1];
      assert (s + post)[|s + post| - 1] == post[|post| - 1];
      assert (s + post)[..|s + post| - 1] == s + p;
      TrimEndPadding(s, p);
    } else {
      assert s + post == s;
    }
  }

  lemma TrimStartKeepsTail(s: string, post: string)
    requires AllTrimmable(post)
    ensures TrimStart(s + post) == TrimStart(s) + post || (TrimStart(s) == [] && TrimStart(s + post) == [])
    ensures TrimStart(s) != [] ==> TrimStart(s + post) == TrimStart(s) + post
    decreases |s|
  {
    if |s| > 0 {
      assert (s + post)[0] == s[0];
      if IsTrimmable(s[0]) {
        assert (s + post)[1..] == s[1..] + post;
        TrimStartKeepsTail(s[1..], post);
      }
    } else {
      assert s + post == post;
      TrimStartAllTrimmable(post);
    }
  }

  lemma {:induction false} TrimStartAllTrimmable(s: string)
    requires AllTrimmable(s)
    ensures TrimStart(s) == []
  {
    if s != [] {
      TrimStartAllTrimmable(s[1..]);
    }
  }

  /** Whitespace around a text does not change what `trim` gives: `" 42 "` trims to `"42"`. */
  lemma TrimIgnoresPadding(pre: string, s: string, post: string)
    requires AllTrimmable(pre) && AllTrimmable(post)
    ensures Trim(pre + s + post) == Trim(s)
  {
    assert pre + s + post == pre + (s + post);
    TrimStartPadding(pre, s + post);
    TrimStartKeepsTail(s, post);
    if TrimStart(s) != [] {
      TrimEndPadding(TrimStart(s), post);
    }
  }

  // ---------------------------------------------------------------------
  // Decimal integer literals
  // ---------------------------------------------------------------------

  function Pow10(k: nat): (p: nat)
    ensures p >= 1
  {
    if k == 0 then 1 else 10 * Pow10(k - 1)
  }

  lemma {:induction false} Pow10Monotonic(j: nat, k: nat)
    requires j <= k
    ensures Pow10(j) <= Pow10(k)
  {
    if j < k {
      Pow10Monotonic(j, k - 1);
    }
  }

  predicate IsDigit(c: char) { '0' <= c <= '9' }

  predicate AllDigits(s: string)
  {
    forall i :: 0 <= i < |s| ==> IsDigit(s[i])
  }

  function DigitValue(c: char): (d: nat)
    requires IsDigit(c)
    ensures d < 10
  {
    (c as int) - ('0' as int)
  }

  function DigitChar(d: nat): (c: char)
    requires d < 10
    ensures IsDigit(c) && DigitValue(c) == d
  {
    ('0' as int + d) as char
  }

  /** The value of a run of decimal digits, most significant first; it has fewer digits than its length allows. */
  function DigitsValue(s: string): (n: nat)
    requires AllDigits(s)
    ensures n < Pow10(|s|)
  {
    if s == [] then 0 else DigitsValue(s[..|s| - 1]) * 10 + DigitValue(s[|s| - 1])
  }

  lemma DigitsValueAppend(s: string, c: char)
    requires AllDigits(s) && IsDigit(c)
    ensures AllDigits(s + [c])
    ensures DigitsValue(s + [c]) == DigitsValue(s) * 10 + DigitValue(c)
  {
    assert (s + [c])[..|s|] == s;
  }

  predicate IsSign(c: char) { c == '-' || c == '+' }

  /**
    The syntax `Integer.parseInt`, `Long.parseLong` and `new BigInteger(String)`
    accept (radix 10): an optional `-` or `+` followed by one or more digits.
  */
  predicate IsIntegerLiteral(s: string)
  {
    if |s| > 0 && IsSign(s[0]) then |s| > 1 && AllDigits(s[1..]) else |s| > 0 && AllDigits(s)
  }

  /** The value of a decimal integer literal, or None for any other text; never wider than its digit count. */
  function LiteralValue(s: string): (r: Option<int>)
    ensures r.Some? <==> IsIntegerLiteral(s)
    ensures r.Some? ==> 0 - Pow10(|s|) < r.value < Pow10(|s|)
  {
    if |s| > 0 && IsSign(s[0]) then
      if |s| > 1 && AllDigits(s[1..]) then
        var m: int := DigitsValue(s[1..]);
        Pow10Monotonic(|s| - 1, |s|);
        Some(if s[0] == '-' then -m else m)
      else None
    else if |s| > 0 && AllDigits(s) then Some(DigitsValue(s))
    else None
  }

  /** A literal of at most nine characters always fits in an `int`. */
  lemma ShortLiteralFitsInt(s: string)
    requires |s| <= 9 && LiteralValue(s).Some?
    ensures InIntRange(LiteralValue(s).value)
  {
    Pow10Monotonic(|s|, 9);
    assert Pow10(9) == 1_000_000_000;
  }

  /** `Integer.parseInt(s)` (also what jackson-core's `NumberInput.parseInt` computes). */
  function JavaParseInt(s: string): (r: Option<int>)
    ensures r.Some? <==> IsIntegerLiteral(s) && InIntRange(LiteralValue(s).value)
    ensures r.Some? ==> r.value == LiteralValue(s).value
  {
    match LiteralValue(s)
    case Some(v) => if InIntRange(v) then Some(v) else None
    case None => None
  }

  /** `Long.parseLong(s)` (also what jackson-core's `NumberInput.parseLong` computes). */
  function JavaParseLong(s: string): (r: Option<int>)
    ensures r.Some? <==> IsIntegerLiteral(s) && InLongRange(LiteralValue(s).value)
    ensures r.Some? ==> r.value == LiteralValue(s).value
  {
    match LiteralValue(s)
    case Some(v) => if InLongRange(v) then Some(v) else None
    case None => None
  }

  /** The decimal rendering of a natural number, without leading zeros. */
  function NatText(n: nat): (s: string)
    ensures |s| > 0 && AllDigits(s)
  {
    if n < 10 then [DigitChar(n)] else NatText(n / 10) + [DigitChar(n % 10)]
  }

  /** The decimal rendering of `n` (`Integer.toString`, `Long.toString` within their ranges): the inverse of the integer parser. */
  function IntegerText(n: int): string
  {
    if n < 0 then "-" + NatText(-n) else NatText(n)
  }

  lemma {:induction false} NatTextValue(n: nat)
    ensures DigitsValue(NatText(n)) == n
  {
    if n < 10 {
      assert NatText(n) == [] + [DigitChar(n)];
      DigitsValueAppend([], DigitChar(n));
    } else {
      NatTextValue(n / 10);
      DigitsValueAppend(NatText(n / 10), DigitChar(n % 10));
    }
  }

  /** Parsing the rendering of any integer gives that integer back. */
  lemma IntegerTextRoundTrip(n: int)
    ensures LiteralValue(IntegerText(n)) == Some(n)
  {
    var s := IntegerText(n);
    if n < 0 {
      var digits := NatText(-n);
      assert s[0] == '-' && s[1..] == digits;
      NatTextValue(-n);
    } else {
      NatTextValue(n);
      assert IsDigit(s[0]);
      assert LiteralValue(s) == Some(DigitsValue(s));
    }
  }

  /** The rendering of a number within a width parses back through the width's parser. */
  lemma JavaParsersRoundTrip(n: int)
    ensures InIntRange(n) ==> JavaParseInt(IntegerText(n)) == Some(n)
    ensures InLongRange(n) ==> JavaParseLong(IntegerText(n)) == Some(n)
    ensures ParseBigInteger(IntegerText(n)) == Some(n)
  {
    IntegerTextRoundTrip(n);
  }

  // ---------------------------------------------------------------------
  // Decimal literals: new BigDecimal(String)
  // ---------------------------------------------------------------------

  /** A `java.math.BigDecimal`: the number unscaled × 10^(-scale). */
  datatype Decimal = Decimal(unscaled: int, scale: int)

  const DecimalZero := Decimal(0, 0)

  /** The first index of `s` holding one of `cs`, or `|s|` when there is none. */
  function IndexOfAny(s: string, cs: set<char>): (i: nat)
    ensures i <= |s|
    ensures forall k :: 0 <= k < i ==> s[k] !in cs
    ensures i < |s| ==> s[i] in cs
  {
    if s == [] || s[0] in cs then 0 else 1 + IndexOfAny(s[1..], cs)
  }

  /** An optional sign, then digits with at most one decimal point, with at least one digit. */
  function ParseSignificand(s: string): Option<Decimal>
  {
    var negative := |s| > 0 && s[0] == '-';
    var body := if |s| > 0 && IsSign(s[0]) then s[1..] else s;
    var p := IndexOfAny(body, {'.'});
    var whole := body[..p];
    var fraction := if p < |body| then body[p + 1..] else [];
    if AllDigits(whole) && AllDigits(fraction) && |whole| + |fraction| > 0 then
      var magnitude: int := DigitsValue(whole + fraction);
      Some(Decimal(if negative then -magnitude else magnitude, |fraction|))
    else None
  }

  /**
    `new BigDecimal(s)`: a significand, then optionally `e` or `E` and a signed
    decimal exponent; the scale is the number of fraction digits less the exponent.
  */
  function ParseBigDecimal(s: string): Option<Decimal>
  {
    var e := IndexOfAny(s, {'e', 'E'});
    var exponent := if e < |s| then LiteralValue(s[e + 1..]) else Some(0);
    match ParseSignificand(s[..e])
    case None => None
    case Some(d) =>
      match exponent
      case None => None
      case Some(x) => Some(Decimal(d.unscaled, d.scale - x))
  }

  /** An integer literal reads as a BigDecimal of scale 0 with the same value. */
  lemma IntegerLiteralAsDecimal(s: string)
    requires IsIntegerLiteral(s)
    ensures ParseBigDecimal(s) == Some(Decimal(LiteralValue(s).value, 0))
  {
    assert forall k :: 0 <= k < |s| ==> s[k] !in {'e', 'E'};
    var e := IndexOfAny(s, {'e', 'E'});
    assert e == |s| && s[..e] == s;
    var body := if |s| > 0 && IsSign(s[0]) then s[1..] else s;
    assert AllDigits(body);
    var p := IndexOfAny(body, {'.'});
    assert p == |body|;
    assert body[..p] + [] == body;
  }

  /** A fraction keeps its trailing zeros in the scale: `"1.50"` is 150 with scale 2. */
  lemma ParseBigDecimalFraction()
    ensures ParseBigDecimal("1.50") == Some(Decimal(150, 2))
  {
    var s := "1.50";
    assert IndexOfAny(s, {'e', 'E'}) == 4 && s[..4] == s;
    assert IndexOfAny(s, {'.'}) == 1;
    assert s[..1] + s[2..] == "150";
    DigitsValueAppend("1", '5');
    assert "1" + ['5'] == "15";
    DigitsValueAppend("15", '0');
    assert "15" + ['0'] == "150";
  }

  /** An exponent moves into the scale: `"1e3"` is 1 with scale -3. */
  lemma ParseBigDecimalExponent()
    ensures ParseBigDecimal("1e3") == Some(Decimal(1, -3))
  {
    var s := "1e3";
    assert IndexOfAny(s, {'e', 'E'}) == 1;
    assert s[..1] == "1" && s[2..] == "3";
    assert IndexOfAny("1", {'.'}) == 1;
    assert "1"[..1] + [] == "1";
  }

  /** The first index holding one of `cs` is where `b` begins when `a` holds none of them and `b` starts with one. */
  lemma {:induction false} IndexOfAnyAfter(a: string, b: string, cs: set<char>)
    requires forall k :: 0 <= k < |a| ==> a[k] !in cs
    requires b != [] ==> b[0] in cs
    ensures IndexOfAny(a + b, cs) == |a|
  {
    if a == [] {
      assert a + b == b;
    } else {
      assert (a + b)[0] == a[0];
      assert (a + b)[1..] == a[1..] + b;
      IndexOfAnyAfter(a[1..], b, cs);
    }
  }

  /** The text of a decimal number: an optional `-`, the whole digits, optionally `.` and fraction digits. */
  function SignificandText(negative: bool, whole: string, point: bool, fraction: string): string
  {
    (if negative then "-" else "") + (whole + (if point then "." + fraction else ""))
  }

  lemma AllDigitsConcat(a: string, b: string)
    requires AllDigits(a) && AllDigits(b)
    ensures AllDigits(a + b)
  {
    forall i | 0 <= i < |a + b| ensures IsDigit((a + b)[i]) {
      if i >= |a| { assert (a + b)[i] == b[i - |a|]; }
    }
  }

  /** The unsigned part of a significand splits at its point into the whole and the fraction digits. */
  lemma SignificandBody(whole: string, point: bool, fraction: string)
    requires AllDigits(whole)
    requires point || fraction == []
    ensures var body := whole + (if point then "." + fraction else "");
      var p := IndexOfAny(body, {'.'});
      && body[..p] == whole
      && (if p < |body| then body[p + 1..] else []) == fraction
      && (body == [] || body[0] == '.' || IsDigit(body[0]))
  {
    var tail := if point then "." + fraction else "";
    IndexOfAnyAfter(whole, tail, {'.'});
    assert (whole + tail)[..|whole|] == whole;
    if point {
      assert (whole + tail)[|whole| + 1..] == fraction;
    }
    if whole != [] {
      assert (whole + tail)[0] == whole[0];
    }
  }

  /** A significand is all its digits with the point removed, at the scale of its fraction length. */
  lemma SignificandValue(negative: bool, whole: string, point: bool, fraction: string)
    requires AllDigits(whole) && AllDigits(fraction) && |whole| + |fraction| > 0
    requires point || fraction == []
    ensures AllDigits(whole + fraction)
    ensures var m: int := DigitsValue(whole + fraction);
      ParseSignificand(SignificandText(negative, whole, point, fraction))
        == Some(Decimal(if negative then -m else m, |fraction|))
  {
    var body := whole + (if point then "." + fraction else "");
    SignificandBody(whole, point, fraction);
    SignedText(negative, body);
    SignificandFromParts(SignificandText(negative, whole, point, fraction), negative, whole, fraction);
  }

  /** `ParseSignificand` once the sign, the whole digits and the fraction digits of the text are known. */
  lemma SignificandFromParts(s: string, negative: bool, whole: string, fraction: string)
    requires (|s| > 0 && s[0] == '-') == negative
    requires var b := if |s| > 0 && IsSign(s[0]) then s[1..] else s;
      var p := IndexOfAny(b, {'.'});
      b[..p] == whole && (if p < |b| then b[p + 1..] else []) == fraction
    requires AllDigits(whole) && AllDigits(fraction) && |whole| + |fraction| > 0
    ensures AllDigits(whole + fraction)
    ensures var m: int := DigitsValue(whole + fraction);
      ParseSignificand(s) == Some(Decimal(if negative then -m else m, |fraction|))
  {
    AllDigitsConcat(whole, fraction);
  }

  /** A sign prefix is read back off the text it was put on, as `ParseSignificand` reads it. */
  lemma SignedText(negative: bool, body: string)
    requires !negative ==> body == [] || body[0] == '.' || IsDigit(body[0])
    ensures var s := (if negative then "-" else "") + body;
      && (|s| > 0 && s[0] == '-') == negative
      && (if |s| > 0 && IsSign(s[0]) then s[1..] else s) == body
  {
    if negative {
      var s := "-" + body;
      assert s[0] == '-' && s[1..] == body;
    }
  }

  /**
    `new BigDecimal(s)` on any text of the form `[-]digits[.digits]`: the
    unscaled value is the digits with the point removed, and the scale is the
    number of fraction digits.
  */
  lemma ParseBigDecimalValue(negative: bool, whole: string, point: bool, fraction: string)
    requires AllDigits(whole) && AllDigits(fraction) && |whole| + |fraction| > 0
    requires point || fraction == []
    ensures AllDigits(whole + fraction)
    ensures var m: int := DigitsValue(whole + fraction);
      ParseBigDecimal(SignificandText(negative, whole, point, fraction))
        == Some(Decimal(if negative then -m else m, |fraction|))
  {
    var sig := SignificandText(negative, whole, point, fraction);
    SignificandHasNoExponentMark(negative, whole, point, fraction);
    IndexOfAnyAfter(sig, [], {'e', 'E'});
    assert sig + [] == sig && sig[..|sig|] == sig;
    SignificandValue(negative, whole, point, fraction);
  }

  lemma NoneOfConcat(a: string, b: string, cs: set<char>)
    requires forall k :: 0 <= k < |a| ==> a[k] !in cs
    requires forall k :: 0 <= k < |b| ==> b[k] !in cs
    ensures forall k :: 0 <= k < |a + b| ==> (a + b)[k] !in cs
  {
    forall k | 0 <= k < |a + b| ensures (a + b)[k] !in cs {
      if k >= |a| { assert (a + b)[k] == b[k - |a|]; }
    }
  }

  /** A significand holds no `e` or `E`. */
  lemma SignificandHasNoExponentMark(negative: bool, whole: string, point: bool, fraction: string)
    requires AllDigits(whole) && AllDigits(fraction)
    ensures var sig := SignificandText(negative, whole, point, fraction);
      forall k :: 0 <= k < |sig| ==> sig[k] !in {'e', 'E'}
  {
    var cs := {'e', 'E'};
    var sign := if negative then "-" else "";
    var tail := if point then "." + fraction else "";
    if point {
      NoneOfConcat(".", fraction, cs);
    }
    NoneOfConcat(whole, tail, cs);
    NoneOfConcat(sign, whole + tail, cs);
  }

  /** `new BigInteger(s)` (radix 10): the integer parser with no width limit. */
  function ParseBigInteger(s: string): (r: Option<int>)
    ensures r.Some? <==> IsIntegerLiteral(s)
  {
    LiteralValue(s)
  }

  // ---------------------------------------------------------------------
  // Integer division as Java does it
  // ---------------------------------------------------------------------

  /** Java's `/` on integers: the quotient rounded toward zero. */
  function TruncatingDivide(a: int, b: nat): (q: int)
    requires b > 0
    ensures 0 <= a ==> 0 <= q && q * b <= a < q * b + b
    ensures a < 0 ==> q <= 0 && q * b - b < a <= q * b
  {
    if a >= 0 then a / b else -((-a) / b)
  }

  /** `lo <= d <= hi`, compared exactly, as `BigDecimal.compareTo` does. */
  predicate DecimalWithin(d: Decimal, lo: int, hi: int)
  {
    if d.scale <= 0 then lo <= d.unscaled * Pow10(-d.scale) <= hi
    else lo * Pow10(d.scale) <= d.unscaled <= hi * Pow10(d.scale)
  }

  lemma ScaledLess(a: int, b: int, p: int)
    requires p > 0 && a * p < b * p
    ensures a < b
  {
  }

  lemma ScaledAtMost(a: int, b: int, p: int)
    requires p > 0 && a * p <= b * p
    ensures a <= b
  {
  }

  /** Dividing toward zero keeps a quotient within bounds that the dividend keeps scaled. */
  lemma TruncatingDivideWithin(u: int, p: nat, lo: int, hi: int)
    requires p > 0 && lo * p <= u <= hi * p
    ensures lo <= TruncatingDivide(u, p) <= hi
  {
    var q := TruncatingDivide(u, p);
    if u >= 0 {
      assert (q + 1) * p == q * p + p;
      ScaledLess(lo, q + 1, p);
      ScaledAtMost(q, hi, p);
    } else {
      assert (q - 1) * p == q * p - p;
      ScaledAtMost(lo, q, p);
      ScaledLess(q - 1, hi, p);
    }
  }

  /** A decimal within two integral bounds keeps its integral part within them. */
  lemma TruncateStaysWithin(d: Decimal, lo: int, hi: int)
    requires DecimalWithin(d, lo, hi)
    ensures lo <= TruncateDecimal(d) <= hi
  {
    if d.scale > 0 {
      TruncatingDivideWithin(d.unscaled, Pow10(d.scale), lo, hi);
    }
  }

  /** `BigDecimal.toBigInteger()`: the integral part, rounded toward zero. */
  function TruncateDecimal(d: Decimal): int
  {
    if d.scale <= 0 then d.unscaled * Pow10(-d.scale) else TruncatingDivide(d.unscaled, Pow10(d.scale))
  }
}
