/** JavaScript numbers as the formula engine sees them, without rounding: a
    finite real, one of the two infinities, or NaN. Cell contents are text or
    such numbers. This module holds `parseFloat`, the `Number(...)` test behind
    `isNaN`, and the arithmetic the engine applies. */
module Numbers {
  import opened Wrappers
  import opened Text

  /** A JavaScript number, with exact real arithmetic in place of IEEE-754
      rounding (negative zero is not distinguished from zero). */
  datatype Number = Finite(r: real) | PosInf | NegInf | NaN

  /** What a cell's `content` holds: the text typed in, or the number a
      formula produced. */
  datatype Value = Str(s: string) | Num(n: Number)

  function Pow10(k: nat): (p: nat)
    ensures p >= 1
  {
    if k == 0 then 1 else 10 * Pow10(k - 1)
  }

  /** `10` raised to an integer power, as a real. */
  function Scale(e: int): (r: real)
    ensures r > 0.0
  {
    if e >= 0 then Pow10(e) as real else 1.0 / (Pow10(-e) as real)
  }

  /** End of the run of decimal digits that starts at `i`. */
  function DigitEnd(s: string, i: nat): (j: nat)
    requires i <= |s|
    ensures i <= j <= |s| && AllDigits(s[i..j])
    ensures j < |s| ==> !IsDigit(s[j])
    decreases |s| - i
  {
    if i < |s| && IsDigit(s[i]) then
      var j := DigitEnd(s, i + 1);
      assert s[i..j] == [s[i]] + s[i + 1..j];
      j
    else i
  }

  /** The value of the digits after a decimal point. */
  function Fraction(digits: string): (r: real)
    requires AllDigits(digits)
    ensures 0.0 <= r
  {
    DigitsValue(digits) as real / Pow10(|digits|) as real
  }

  /** Where a numeric prefix ends, and what it denotes. */
  datatype Prefix = Prefix(end: nat, value: real)

  /** An exponent part `e`/`E`, optional sign, at least one digit, at
      position `i`: where it ends and the signed exponent. */
  function ExponentAt(s: string, i: nat): (r: Option<Prefix>)
    requires i <= |s|
    ensures r.Some? ==> i + 2 <= r.value.end <= |s|
    ensures r.Some? ==> s[i] == 'e' || s[i] == 'E'
  {
    if i < |s| && (s[i] == 'e' || s[i] == 'E') then
      var signed := i + 1 < |s| && (s[i + 1] == '+' || s[i + 1] == '-');
      var k := if signed then i + 2 else i + 1;
      var d := DigitEnd(s, k);
      if d == k then None
      else
        var e := DigitsValue(s[k..d]) as int;
        Some(Prefix(d, if signed && s[i + 1] == '-' then -e as real else e as real))
    else None
  }

  /** The longest prefix of `s` that is an unsigned decimal literal
      (`12`, `1.`, `.5`, `1.5e-3`), as `parseFloat` reads it. There is one
      exactly when `s` starts with a digit, or with a point and a digit. */
  function DecimalPrefix(s: string): (r: Option<Prefix>)
    ensures r.Some? <==> (|s| > 0 && IsDigit(s[0])) || (|s| > 1 && s[0] == '.' && IsDigit(s[1]))
    ensures r.Some? ==> 0 < r.value.end <= |s| && r.value.value >= 0.0
  {
    var a := DigitEnd(s, 0);
    var hasDot := a < |s| && s[a] == '.';
    var b := if hasDot then DigitEnd(s, a + 1) else a;
    if a == 0 && (!hasDot || b == a + 1) then None
    else
      var mantissa := DigitsValue(s[..a]) as real + (if hasDot then Fraction(s[a + 1..b]) else 0.0);
      match ExponentAt(s, b)
      case None => Some(Prefix(b, mantissa))
      case Some(e) =>
        ScaledNonNegative(mantissa, Scale(e.value.Floor));
        Some(Prefix(e.end, mantissa * Scale(e.value.Floor)))
  }

  lemma ScaledNonNegative(m: real, k: real)
    requires m >= 0.0 && k > 0.0
    ensures m * k >= 0.0
  {
  }

  /** `s` without leading white space and without one leading sign: whether
      the sign was `-`, and the rest. */
  function Unsigned(s: string): (bool, string)
  {
    var t := s[LeadingSpace(s)..];
    if |t| > 0 && (t[0] == '+' || t[0] == '-') then (t[0] == '-', t[1..]) else (false, t)
  }

  function Negate(n: Number): Number
  {
    match n
    case Finite(x) => Finite(-x)
    case PosInf => NegInf
    case NegInf => PosInf
    case NaN => NaN
  }

  /** `parseFloat(s)`: skips leading white space and one sign, then reads
      `Infinity` or the longest decimal literal; NaN when neither is there. */
  function ParseFloat(s: string): (n: Number)
    ensures (n.PosInf? || n.NegInf?) <==> StartsWith(Unsigned(s).1, "Infinity")
    ensures n.Finite? <==> DecimalPrefix(Unsigned(s).1).Some?
    ensures n.Finite? && !Unsigned(s).0 ==> n.r >= 0.0
  {
    var (negative, u) := Unsigned(s);
    var n :=
      if StartsWith(u, "Infinity") then PosInf
      else match DecimalPrefix(u)
        case None => NaN
        case Some(p) => Finite(p.value);
    if negative then Negate(n) else n
  }

  /** A numeral `String(k)` reads back as `k`. */
  lemma ParseNatToString(k: nat)
    ensures ParseFloat(NatToString(k)) == Finite(k as real)
  {
    var s := NatToString(k);
    NumeralUnsigned(s);
    NumeralPrefix(s);
    NatToStringValue(k);
  }

  /** A run of digits has no space or sign to skip and is no infinity. */
  lemma NumeralUnsigned(s: string)
    requires |s| >= 1 && AllDigits(s)
    ensures Unsigned(s) == (false, s) && !StartsWith(s, "Infinity")
  {
    assert LeadingSpace(s) == 0;
    assert s[0..] == s;
    assert IsDigit(s[0]);
  }

  /** A run of digits is a decimal literal to its end, read as its value. */
  lemma NumeralPrefix(s: string)
    requires |s| >= 1 && AllDigits(s)
    ensures DecimalPrefix(s) == Some(Prefix(|s|, DigitsValue(s) as real))
  {
    DigitEndAt(s, 0, |s|);
    assert s[..|s|] == s;
  }

  /** The digit run from `i` ends at `j` when `s[i..j]` are digits and
      `s[j]` is not. */
  lemma {:induction false} DigitEndAt(s: string, i: nat, j: nat)
    requires i <= j <= |s|
    requires forall k :: i <= k < j ==> IsDigit(s[k])
    requires j == |s| || !IsDigit(s[j])
    ensures DigitEnd(s, i) == j
    decreases j - i
  {
    if i < j {
      DigitEndAt(s, i + 1, j);
    }
  }

  /** `parseFloat` stops at the first character that cannot continue the
      literal: a numeral followed by an operator reads as the numeral. */
  lemma ParseFloatStops(digits: string, rest: string)
    requires |digits| > 0 && AllDigits(digits)
    requires |rest| > 0 && !IsDigit(rest[0]) && rest[0] !in ".eE"
    ensures ParseFloat(digits + rest) == Finite(DigitsValue(digits) as real)
  {
    var s := digits + rest;
    var a := |digits|;
    assert s[a] == rest[0];
    assert s[..a] == digits;
    DecimalPrefixOfDigits(s, a);
    ParseFloatOfDecimal(s, s);
  }

  /** When `s` starts (after white space and sign) with a decimal literal,
      `parseFloat` reads its value. */
  lemma ParseFloatOfDecimal(s: string, u: string)
    requires Unsigned(s) == (false, u) || (|s| > 0 && IsDigit(s[0]) && u == s)
    requires DecimalPrefix(u).Some?
    ensures ParseFloat(s) == Finite(DecimalPrefix(u).value.value)
  {
    if |s| > 0 && IsDigit(s[0]) && u == s {
      assert LeadingSpace(s) == 0;
      assert s[0..] == s;
    }
    assert !StartsWith(u, "Infinity") by { assert u[0] != 'I'; }
  }

  /** A run of digits that is not followed by a point or an exponent is the
      whole numeric prefix. */
  lemma DecimalPrefixOfDigits(s: string, a: nat)
    requires 0 < a <= |s| && AllDigits(s[..a])
    requires a < |s| ==> !IsDigit(s[a]) && s[a] != '.' && s[a] != 'e' && s[a] != 'E'
    ensures DecimalPrefix(s) == Some(Prefix(a, DigitsValue(s[..a]) as real))
  {
    assert forall k :: 0 <= k < a ==> s[..a][k] == s[k];
    DigitEndAt(s, 0, a);
    assert ExponentAt(s, a).None?;
  }

  /** A literal `0x…`, `0o…` or `0b…`, which `Number(...)` accepts. */
  predicate NonDecimalLiteral(t: string) {
    |t| >= 3 && t[0] == '0'
    && ((t[1] in "xX" && forall i :: 2 <= i < |t| ==> IsDigit(t[i]) || t[i] in "abcdefABCDEF")
        || (t[1] in "oO" && forall i :: 2 <= i < |t| ==> '0' <= t[i] <= '7')
        || (t[1] in "bB" && forall i :: 2 <= i < |t| ==> t[i] in "01"))
  }

  /** `Number(s)` is not NaN: after trimming, `s` is empty, a whole signed
      decimal literal or `Infinity`, or a hexadecimal, octal or binary
      literal. */
  predicate NumericText(s: string) {
    var t := Trim(s);
    var u := if |t| > 0 && (t[0] == '+' || t[0] == '-') then t[1..] else t;
    t == []
    || u == "Infinity"
    || (DecimalPrefix(u).Some? && DecimalPrefix(u).value.end == |u|)
    || NonDecimalLiteral(t)
  }

  /** `isNaN(v) ? 0 : parseFloat(v)`: the number that an expression uses for
      a referenced cell. Text that is not numeric and a NaN result count as
      0; the only way to obtain NaN is a blank cell, because `isNaN('')` is
      false while `parseFloat('')` is NaN. */
  function ReferenceNumber(v: Value): (n: Number)
    ensures n.NaN? <==> v.Str? && AllSpace(v.s)
    ensures v.Str? && !NumericText(v.s) ==> n == Finite(0.0)
    ensures v.Num? && !v.n.NaN? ==> n == v.n
  {
    match v
    case Num(x) => if x.NaN? then Finite(0.0) else x
    case Str(s) =>
      TrimEmptyIff(s);
      if !NumericText(s) then Finite(0.0)
      else
        ReferenceNumberOfNumeric(s);
        ParseFloat(s)
  }

  lemma ReferenceNumberOfNumeric(s: string)
    requires NumericText(s)
    ensures ParseFloat(s).NaN? <==> AllSpace(s)
  {
    TrimEmptyIff(s);
    var r := Trim(s);
    if r != [] {
      var u := if r[0] == '+' || r[0] == '-' then r[1..] else r;
      var w := Unsigned(s).1;
      UnsignedStartsWith(s);
      if u == "Infinity" {
        assert StartsWith(w, "Infinity");
      } else if DecimalPrefix(u).Some? && DecimalPrefix(u).value.end == |u| {
        DecimalLead(u, w);
      } else {
        assert NonDecimalLiteral(r);
        assert w[0] == u[0];
      }
    }
  }

  /** After white space and a sign, `parseFloat` sees the trimmed text
      without its sign, and possibly more after it. */
  lemma UnsignedStartsWith(s: string)
    requires Trim(s) != []
    ensures var r := Trim(s);
      var u := if r[0] == '+' || r[0] == '-' then r[1..] else r;
      |u| <= |Unsigned(s).1| && Unsigned(s).1[..|u|] == u
  {
    var a := LeadingSpace(s);
    var t := s[a..];
    var r := Trim(s);
    assert r == t[..|t| - TrailingSpace(t)];
    assert t[0] == r[0];
  }

  /** A text that starts like a decimal literal still does when more
      follows it. */
  lemma DecimalLead(u: string, w: string)
    requires |u| <= |w| && w[..|u|] == u
    requires DecimalPrefix(u).Some?
    ensures DecimalPrefix(w).Some?
  {
    assert u[0] == w[0];
    if |u| > 1 {
      assert u[1] == w[1];
    }
  }

  /** A cell holding the numeral of `k`, with any white space around it,
      contributes `k` to an expression. */
  lemma ReferenceNumberOfNumeral(s: string, k: nat)
    requires Trim(s) == NatToString(k)
    ensures ReferenceNumber(Str(s)) == Finite(k as real)
  {
    var r := Trim(s);
    assert NumericText(s) by {
      assert IsDigit(r[0]);
      assert r[..|r|] == r;
      DecimalPrefixOfDigits(r, |r|);
    }
    ParseTrimmedDigits(s, r);
    NatToStringValue(k);
  }

  /** Digits with white space around them read as their value. */
  lemma ParseTrimmedDigits(s: string, r: string)
    requires r == Trim(s) && |r| > 0 && AllDigits(r)
    ensures ParseFloat(s) == Finite(DigitsValue(r) as real)
  {
    var t := s[LeadingSpace(s)..];
    TrimThenSpace(s);
    assert Unsigned(s) == (false, t) by {
      assert t[0] == r[0];
    }
    assert DecimalPrefix(t) == Some(Prefix(|r|, DigitsValue(r) as real)) by {
      DecimalPrefixOfDigits(t, |r|);
    }
    ParseFloatOfDecimal(s, t);
  }

  /** After leading white space comes the trimmed text, then white space
      or the end. */
  lemma TrimThenSpace(s: string)
    ensures var t := s[LeadingSpace(s)..]; var r := Trim(s);
      |r| <= |t| && t[..|r|] == r && (|r| < |t| ==> IsSpace(t[|r|]))
  {
    var t := s[LeadingSpace(s)..];
    TrimIsPrefix(s);
    assert |Trim(s)| < |t| ==> t[|Trim(s)|..][0] == t[|Trim(s)|];
  }

  /** The trimmed text begins where leading white space ends. */
  lemma TrimIsPrefix(s: string)
    ensures var t := s[LeadingSpace(s)..]; |Trim(s)| <= |t| && t[..|Trim(s)|] == Trim(s)
    ensures var t := s[LeadingSpace(s)..]; AllSpace(t[|Trim(s)|..])
  {
  }

  /** Addition with the IEEE rules for infinities and NaN. */
  function Add(a: Number, b: Number): (r: Number)
    ensures r.NaN? <==> a.NaN? || b.NaN? || (a.PosInf? && b.NegInf?) || (a.NegInf? && b.PosInf?)
    ensures a.Finite? && b.Finite? ==> r == Finite(a.r + b.r)
  {
    match (a, b)
    case (NaN, _) => NaN
    case (_, NaN) => NaN
    case (PosInf, NegInf) => NaN
    case (NegInf, PosInf) => NaN
    case (PosInf, _) => PosInf
    case (NegInf, _) => NegInf
    case (_, PosInf) => PosInf
    case (_, NegInf) => NegInf
    case (Finite(x), Finite(y)) => Finite(x + y)
  }

  function Sub(a: Number, b: Number): Number
  {
    Add(a, Negate(b))
  }

  /** The sign of a number that is not NaN: -1, 0 or 1. */
  function Sign(a: Number): int
    requires !a.NaN?
  {
    match a
    case Finite(x) => if x < 0.0 then -1 else if x == 0.0 then 0 else 1
    case PosInf => 1
    case NegInf => -1
  }

  function Infinity(sign: int): Number
  {
    if sign < 0 then NegInf else PosInf
  }

  /** Multiplication; an infinity times zero is NaN. */
  function Mul(a: Number, b: Number): (r: Number)
    ensures a.Finite? && b.Finite? ==> r == Finite(a.r * b.r)
  {
    if a.NaN? || b.NaN? then NaN
    else if a.Finite? && b.Finite? then Finite(a.r * b.r)
    else if Sign(a) == 0 || Sign(b) == 0 then NaN
    else Infinity(Sign(a) * Sign(b))
  }

  /** Division; a non-zero number over zero is an infinity, 0/0 and
      an infinity over an infinity are NaN. */
  function Div(a: Number, b: Number): (r: Number)
    ensures a.Finite? && b.Finite? && b.r != 0.0 ==> r == Finite(a.r / b.r)
    ensures a.Finite? && a.r > 0.0 && b == Finite(0.0) ==> r == PosInf
    ensures a == Finite(0.0) && b == Finite(0.0) ==> r.NaN?
  {
    if a.NaN? || b.NaN? then NaN
    else if a.Finite? && b.Finite? then
      if b.r != 0.0 then Finite(a.r / b.r)
      else if a.r == 0.0 then NaN
      else Infinity(Sign(a))
    else if b.Finite? then Infinity(Sign(a) * (if Sign(b) < 0 then -1 else 1))
    else if a.Finite? then Finite(0.0)
    else NaN
  }

  /** The four operators of the expression language. */
  function Apply(a: Number, op: char, b: Number): Number
    requires op in "+-*/"
  {
    if op == '+' then Add(a, b)
    else if op == '-' then Sub(a, b)
    else if op == '*' then Mul(a, b)
    else Div(a, b)
  }

  /** `x || 0` on a number: NaN and zero become zero. */
  function OrZero(n: Number): (r: Number)
    ensures !r.NaN?
    ensures n.NaN? || n == Finite(0.0) ==> r == Finite(0.0)
    ensures !n.NaN? ==> r == n
  {
    if n.NaN? then Finite(0.0) else n
  }

  /** `a < b` on numbers that are not NaN. */
  predicate Less(a: Number, b: Number)
    requires !a.NaN? && !b.NaN?
  {
    match (a, b)
    case (Finite(x), Finite(y)) => x < y
    case (NegInf, _) => !b.NegInf?
    case (_, PosInf) => !a.PosInf?
    case _ => false
  }

  /** `parseFloat` applied to a cell value: text is parsed, a number is kept
      (`parseFloat(String(x))` gives `x` back). */
  function ParseValue(v: Value): Number
  {
    match v
    case Str(s) => ParseFloat(s)
    case Num(n) => n
  }
}
