/** The arithmetic of `calculateExpression` and `calculateSimpleExpression`.
    The source rewrites a string: it removes white space, replaces each
    innermost parenthesised group by the printed value of its contents, then
    repeatedly replaces the leftmost `number * number` or `number / number`,
    then the leftmost `number + number` or `number - number`, and finally
    reads the text with `parseFloat`. The model rewrites a sequence of
    tokens in the same steps: a run of digits and points is one numeral
    token carrying the value `parseFloat` gives it, and a printed result is
    re-inserted as the tokens its printed form consists of (a `-` sign for a
    negative number, the letters of `Infinity` or `NaN`). A printed value
    stays a token of its own: it does not join an adjacent run of digits
    and points into one numeral, as the text would. */
module Calc {
  import opened Wrappers
  import opened Text
  import opened Numbers

  datatype Token =
    | Numeral(n: Number, whole: bool)  // a maximal run of digits and points: its parseFloat value, and whether the whole run is one literal
    | Op(c: char)                      // + - * /
    | Open
    | Close
    | Other(c: char)                   // any other character

  /** The text an expression is computed from, once cell references are
      replaced: characters of the formula and the numbers substituted for
      references. */
  datatype Piece = Ch(c: char) | Val(n: Number)

  /** The result of the parenthesis loop, which repeats forever when a `(`
      remains that no innermost non-empty group accounts for. */
  datatype Outcome = Done(n: Number) | Hangs

  /** Which operators a rewriting round looks for. */
  datatype Level = Products | Sums

  function Operators(level: Level): string
  {
    match level
    case Products => "*/"
    case Sums => "+-"
  }

  function NumeralCount(t: seq<Token>): nat
  {
    if t == [] then 0 else (if t[0].Numeral? then 1 else 0) + NumeralCount(t[1..])
  }

  lemma {:induction false} NumeralCountAppend(a: seq<Token>, b: seq<Token>)
    ensures NumeralCount(a + b) == NumeralCount(a) + NumeralCount(b)
    decreases |a|
  {
    if a == [] {
      assert a + b == b;
    } else {
      assert (a + b)[0] == a[0];
      assert (a + b)[1..] == a[1..] + b;
      NumeralCountAppend(a[1..], b);
    }
  }

  function OpenCount(t: seq<Token>): nat
  {
    if t == [] then 0 else (if t[0] == Open then 1 else 0) + OpenCount(t[1..])
  }

  lemma {:induction false} OpenCountAppend(a: seq<Token>, b: seq<Token>)
    ensures OpenCount(a + b) == OpenCount(a) + OpenCount(b)
    decreases |a|
  {
    if a == [] {
      assert a + b == b;
    } else {
      assert (a + b)[0] == a[0];
      assert (a + b)[1..] == a[1..] + b;
      OpenCountAppend(a[1..], b);
    }
  }

  predicate ParenFree(t: seq<Token>) {
    forall i :: 0 <= i < |t| ==> t[i] != Open && t[i] != Close
  }

  lemma {:induction false} OpenCountParenFree(t: seq<Token>)
    requires ParenFree(t)
    ensures OpenCount(t) == 0
    decreases |t|
  {
    if t != [] {
      OpenCountParenFree(t[1..]);
    }
  }

  /** The letters of a word such as `NaN`. */
  function Word(w: string): (t: seq<Token>)
    ensures |t| == |w| && ParenFree(t) && NumeralCount(t) == 0
    ensures forall i :: 0 <= i < |t| ==> t[i] == Other(w[i])
    decreases |w|
  {
    if w == [] then [] else [Other(w[0])] + Word(w[1..])
  }

  /** How a result re-enters the text as `String(x)`: a non-negative number
      as one numeral, a negative one behind a `-` sign, the infinities and
      NaN as words. */
  function Render(n: Number): (t: seq<Token>)
    ensures |t| >= 1 && t[0] != Close && ParenFree(t)
    ensures NumeralCount(t) <= 1
  {
    match n
    case Finite(x) =>
      if x >= 0.0 then [Numeral(n, true)]
      else
        var t := [Op('-'), Numeral(Finite(-x), true)];
        assert t[1..] == [Numeral(Finite(-x), true)];
        assert t[1..][1..] == [];
        assert NumeralCount(t[1..]) == 1;
        t
    case PosInf => Word("Infinity")
    case NegInf =>
      var t := [Op('-')] + Word("Infinity");
      assert t[1..] == Word("Infinity");
      t
    case NaN => Word("NaN")
  }

  /** `t[i] t[i+1] t[i+2]` read `numeral operator numeral`, with an operator
      of the given level: what `/[\d.]+[*\/][\d.]+/` or `/[\d.]+[+-][\d.]+/`
      matches. */
  predicate MatchAt(t: seq<Token>, i: nat, level: Level) {
    i + 2 < |t| && t[i].Numeral? && t[i + 1].Op? && t[i + 1].c in Operators(level) && t[i + 2].Numeral?
  }

  function FirstMatchFrom(t: seq<Token>, level: Level, i: nat): (r: Option<nat>)
    requires i <= |t|
    ensures r.Some? ==> i <= r.value && MatchAt(t, r.value, level)
    ensures r.Some? ==> forall j :: i <= j < r.value ==> !MatchAt(t, j, level)
    ensures r.None? ==> forall j :: i <= j ==> !MatchAt(t, j, level)
    decreases |t| - i
  {
    if i == |t| then None
    else if MatchAt(t, i, level) then Some(i)
    else FirstMatchFrom(t, level, i + 1)
  }

  /** The leftmost match, the one `String.prototype.replace` rewrites. */
  function FirstMatch(t: seq<Token>, level: Level): (r: Option<nat>)
    ensures r.Some? ==> MatchAt(t, r.value, level)
    ensures r.Some? ==> forall j :: 0 <= j < r.value ==> !MatchAt(t, j, level)
    ensures r.None? ==> forall j :: 0 <= j ==> !MatchAt(t, j, level)
  {
    FirstMatchFrom(t, level, 0)
  }

  /** The operator at `t[i + 1]` applied to the numerals around it. */
  function MatchValue(t: seq<Token>, i: nat, level: Level): Number
    requires MatchAt(t, i, level)
  {
    Apply(t[i].n, t[i + 1].c, t[i + 2].n)
  }

  /** One replacement: the match gives way to its printed value. */
  function Rewrite(t: seq<Token>, i: nat, level: Level): seq<Token>
    requires MatchAt(t, i, level)
  {
    t[..i] + Render(MatchValue(t, i, level)) + t[i + 3..]
  }

  /** A replacement leaves one numeral fewer or more, and no `(` more or
      fewer. */
  lemma RewriteCounts(t: seq<Token>, i: nat, level: Level)
    requires MatchAt(t, i, level)
    ensures NumeralCount(Rewrite(t, i, level)) < NumeralCount(t)
    ensures OpenCount(Rewrite(t, i, level)) == OpenCount(t)
  {
    var v := Render(MatchValue(t, i, level));
    assert t == t[..i] + t[i..i + 3] + t[i + 3..];
    MatchCounts(t, i, level);
    NumeralCountAppend(t[..i] + t[i..i + 3], t[i + 3..]);
    NumeralCountAppend(t[..i], t[i..i + 3]);
    NumeralCountAppend(t[..i] + v, t[i + 3..]);
    NumeralCountAppend(t[..i], v);
    OpenCountAppend(t[..i] + t[i..i + 3], t[i + 3..]);
    OpenCountAppend(t[..i], t[i..i + 3]);
    OpenCountAppend(t[..i] + v, t[i + 3..]);
    OpenCountAppend(t[..i], v);
    OpenCountParenFree(v);
  }

  lemma MatchCounts(t: seq<Token>, i: nat, level: Level)
    requires MatchAt(t, i, level)
    ensures NumeralCount(t[i..i + 3]) == 2 && OpenCount(t[i..i + 3]) == 0
  {
    var m := t[i..i + 3];
    assert m[0].Numeral? && m[1].Op? && m[2].Numeral?;
    assert m[1..][1..][1..] == [];
    assert NumeralCount(m[1..][1..]) == 1 && OpenCount(m[1..][1..]) == 0;
    assert NumeralCount(m[1..]) == 1 && OpenCount(m[1..]) == 0;
  }

  /** One `while (expression.match(re)) expression = expression.replace(re, …)`
      loop: rewrite the leftmost match until none is left. */
  function Reduce(t: seq<Token>, level: Level): (r: seq<Token>)
    ensures OpenCount(r) == OpenCount(t)
    decreases NumeralCount(t)
  {
    match FirstMatch(t, level)
    case None => t
    case Some(i) =>
      RewriteCounts(t, i, level);
      Reduce(Rewrite(t, i, level), level)
  }

  /** The loop ends only once the pattern no longer matches anywhere. */
  lemma {:induction false} ReduceFinishes(t: seq<Token>, level: Level)
    ensures FirstMatch(Reduce(t, level), level).None?
    decreases NumeralCount(t)
  {
    match FirstMatch(t, level)
    case None =>
    case Some(i) =>
      RewriteCounts(t, i, level);
      ReduceFinishes(Rewrite(t, i, level), level);
  }

  /** An exponent `e5`, `E-3`, `e+2` after a numeral: the integer that
      `parseFloat` reads from the digits after the letter and sign. A numeral
      that begins with a point, such as `.5`, has no leading digit and its
      floor is 0, which leaves the value unchanged as `parseFloat` does. */
  function ExponentTokens(t: seq<Token>): Option<int>
  {
    if |t| >= 2 && (t[0] == Other('e') || t[0] == Other('E')) then
      var signed := t[1] == Op('+') || t[1] == Op('-');
      var k := if signed then 2 else 1;
      if k < |t| && t[k].Numeral? && t[k].n.Finite? && t[k].n.r >= 0.0 then
        Some(if t[1] == Op('-') then -t[k].n.r.Floor else t[k].n.r.Floor)
      else None
    else None
  }

  /** `parseFloat` of a text without sign: `Infinity`, or a numeral with an
      optional exponent, or NaN. */
  function ParseUnsignedTokens(t: seq<Token>): Number
  {
    if |t| >= 8 && t[..8] == Word("Infinity") then PosInf
    else if |t| > 0 && t[0].Numeral? then
      if t[0].whole && t[0].n.Finite? then
        match ExponentTokens(t[1..])
        case None => t[0].n
        case Some(e) => Finite(t[0].n.r * Scale(e))
      else t[0].n
    else NaN
  }

  /** `parseFloat` of the final text: one optional sign, then a number. */
  function ParseTokens(t: seq<Token>): Number
  {
    if |t| > 0 && t[0] == Op('+') then ParseUnsignedTokens(t[1..])
    else if |t| > 0 && t[0] == Op('-') then Negate(ParseUnsignedTokens(t[1..]))
    else ParseUnsignedTokens(t)
  }

  /** `calculateSimpleExpression`: every product and quotient, leftmost
      first; then every sum and difference, leftmost first; then
      `parseFloat`. */
  function CalcSimple(t: seq<Token>): Number
  {
    ParseTokens(Reduce(Reduce(t, Products), Sums))
  }

  /** The first parenthesis at or after `i`. */
  function FirstParen(t: seq<Token>, i: nat): (r: Option<nat>)
    requires i <= |t|
    ensures r.Some? ==> i <= r.value < |t| && (t[r.value] == Open || t[r.value] == Close)
    ensures r.Some? ==> ParenFree(t[i..r.value])
    ensures r.None? ==> ParenFree(t[i..])
    decreases |t| - i
  {
    if i == |t| then None
    else if t[i] == Open || t[i] == Close then Some(i)
    else
      var r := FirstParen(t, i + 1);
      assert forall k :: i < k <= |t| ==> t[i..k] == [t[i]] + t[i + 1..k];
      assert t[i..] == [t[i]] + t[i + 1..];
      r
  }

  /** `/\(([^()]+)\)/` at the front of `t`: the position of the `)` that
      closes a non-empty group without parentheses inside. */
  function GroupEnd(t: seq<Token>): (r: Option<nat>)
    ensures r.Some? ==> 2 <= r.value < |t| && t[0] == Open && t[r.value] == Close
    ensures r.Some? ==> ParenFree(t[1..r.value])
  {
    if |t| == 0 || t[0] != Open then None
    else match FirstParen(t, 1)
      case Some(j) => if t[j] == Close && j >= 2 then Some(j) else None
      case None => None
  }

  /** What may stand in for a group: at least one token, no parenthesis,
      and not beginning with `)`. */
  predicate Shaped(v: seq<Token>)
  {
    |v| >= 1 && v[0] != Close && ParenFree(v)
  }

  /** The printed value of a group's inside, `calculateSimpleExpression`
      followed by `String`. */
  function GroupValue(inner: seq<Token>): (v: seq<Token>)
    ensures Shaped(v)
  {
    Render(CalcSimple(inner))
  }

  /** `expression.replace(/\(([^()]+)\)/g, …)` with the replacement given
      by `value`: every innermost non-empty group, left to right, gives way
      to `value` of its contents; also whether any group was found. Without
      one the text is returned as it was. */
  function ReplaceGroupsBy(t: seq<Token>, value: seq<Token> -> seq<Token>): (r: (seq<Token>, bool))
    ensures !r.1 ==> r.0 == t
    decreases |t|
  {
    if t == [] then ([], false)
    else match GroupEnd(t)
      case Some(j) => (value(t[1..j]) + ReplaceGroupsBy(t[j + 1..], value).0, true)
      case None =>
        var (rest, found) := ReplaceGroupsBy(t[1..], value);
        assert !found ==> [t[0]] + rest == t;
        ([t[0]] + rest, found)
  }

  /** One round of the source's parenthesis loop: each innermost group is
      replaced by its printed value. */
  function ReplaceGroups(t: seq<Token>): (r: (seq<Token>, bool))
    ensures !r.1 ==> r.0 == t
  {
    ReplaceGroupsBy(t, GroupValue)
  }

  /** A group at the front holds exactly one `(`. */
  lemma GroupOpens(t: seq<Token>, j: nat)
    requires GroupEnd(t) == Some(j)
    ensures OpenCount(t) == 1 + OpenCount(t[j + 1..])
  {
    assert t == [Open] + (t[1..j] + ([Close] + t[j + 1..]));
    OpenCountAppend(t[1..j], [Close] + t[j + 1..]);
    OpenCountParenFree(t[1..j]);
    assert ([Close] + t[j + 1..])[1..] == t[j + 1..];
  }

  /** A group at the front is replaced by the value of its inside. */
  lemma GroupReplaced(t: seq<Token>, j: nat, value: seq<Token> -> seq<Token>)
    requires GroupEnd(t) == Some(j)
    ensures ReplaceGroupsBy(t, value).0 == value(t[1..j]) + ReplaceGroupsBy(t[j + 1..], value).0
  {
    assert t != [];
    assert ReplaceGroupsBy(t, value) == (value(t[1..j]) + ReplaceGroupsBy(t[j + 1..], value).0, true);
  }

  /** A replacement round never adds a `(`, and one that finds a group
      removes at least one. */
  lemma {:induction false} ReplaceGroupsOpens(t: seq<Token>, value: seq<Token> -> seq<Token>)
    requires forall x :: Shaped(value(x))
    ensures OpenCount(ReplaceGroupsBy(t, value).0) <= OpenCount(t)
    ensures ReplaceGroupsBy(t, value).1 ==> OpenCount(ReplaceGroupsBy(t, value).0) < OpenCount(t)
    decreases |t|
  {
    if t != [] {
      match GroupEnd(t)
      case Some(j) =>
        var rest := ReplaceGroupsBy(t[j + 1..], value).0;
        var v := value(t[1..j]);
        GroupReplaced(t, j, value);
        ReplaceGroupsOpens(t[j + 1..], value);
        GroupOpens(t, j);
        OpenCountAppend(v, rest);
        OpenCountParenFree(v);
      case None =>
        var rest := ReplaceGroupsBy(t[1..], value).0;
        assert ReplaceGroupsBy(t, value).0 == [t[0]] + rest;
        assert ([t[0]] + rest)[1..] == rest;
        ReplaceGroupsOpens(t[1..], value);
    }
  }

  /** `calculateExpression` after white space is gone: collapse groups
      while a `(` remains, then compute the rest. */
  function CalcExpr(t: seq<Token>): Outcome
    decreases OpenCount(t)
  {
    if Open !in t then Done(CalcSimple(t))
    else
      var (r, found) := ReplaceGroups(t);
      ReplaceGroupsOpens(t, GroupValue);
      if !found then Hangs else CalcExpr(r)
  }

  predicate NumeralChar(c: char) { IsDigit(c) || c == '.' }

  /** Length of the run of digits and points at the front of `p`. */
  function RunLength(p: seq<Piece>): (k: nat)
    ensures k <= |p|
    ensures forall i :: 0 <= i < k ==> p[i].Ch? && NumeralChar(p[i].c)
    ensures k < |p| ==> !(p[k].Ch? && NumeralChar(p[k].c))
  {
    if p != [] && p[0].Ch? && NumeralChar(p[0].c) then 1 + RunLength(p[1..]) else 0
  }

  function Chars(p: seq<Piece>): string
    requires forall i :: 0 <= i < |p| ==> p[i].Ch?
  {
    seq(|p|, i requires 0 <= i < |p| => p[i].c)
  }

  /** The run is a single decimal literal, as `1.5` is and `1.2.3` is not. */
  predicate Whole(run: string) {
    DecimalPrefix(run).Some? && DecimalPrefix(run).value.end == |run|
  }

  function CharToken(c: char): Token
  {
    if c in "+-*/" then Op(c)
    else if c == '(' then Open
    else if c == ')' then Close
    else Other(c)
  }

  /** The tokens of a text: each run of digits and points is one numeral
      worth what `parseFloat` reads from it, each substituted number is
      printed as tokens of its own, apart from the characters around it. */
  function Lex(p: seq<Piece>): seq<Token>
    decreases |p|
  {
    if p == [] then []
    else match p[0]
      case Val(n) => Render(n) + Lex(p[1..])
      case Ch(c) =>
        if NumeralChar(c) then
          var k := RunLength(p);
          var run := Chars(p[..k]);
          [Numeral(ParseFloat(run), Whole(run))] + Lex(p[k..])
        else [CharToken(c)] + Lex(p[1..])
  }

  /** `expression.replace(/\s+/g, '')`. */
  function Strip(p: seq<Piece>): (r: seq<Piece>)
    ensures |r| <= |p|
    ensures forall i :: 0 <= i < |r| ==> !(r[i].Ch? && IsSpace(r[i].c))
  {
    if p == [] then []
    else if p[0].Ch? && IsSpace(p[0].c) then Strip(p[1..])
    else [p[0]] + Strip(p[1..])
  }

  /** `calculateExpression(expression)`. */
  function Calculate(p: seq<Piece>): Outcome
  {
    CalcExpr(Lex(Strip(p)))
  }

  /** The characters of a formula, as pieces. */
  function Characters(s: string): (p: seq<Piece>)
    ensures |p| == |s| && forall i :: 0 <= i < |s| ==> p[i] == Ch(s[i])
  {
    seq(|s|, i requires 0 <= i < |s| => Ch(s[i]))
  }

  /** `calculateSimpleExpression(expression)`: the two rewriting loops and
      the final `parseFloat`. */
  method CalculateSimpleExpression(t: seq<Token>) returns (n: Number)
    ensures n == CalcSimple(t)
  {
    var e := t;
    while FirstMatch(e, Products).Some?
      invariant Reduce(e, Products) == Reduce(t, Products)
      decreases NumeralCount(e)
    {
      RewriteCounts(e, FirstMatch(e, Products).value, Products);
      e := Rewrite(e, FirstMatch(e, Products).value, Products);
    }
    var u := e;
    while FirstMatch(e, Sums).Some?
      invariant Reduce(e, Sums) == Reduce(u, Sums)
      decreases NumeralCount(e)
    {
      RewriteCounts(e, FirstMatch(e, Sums).value, Sums);
      e := Rewrite(e, FirstMatch(e, Sums).value, Sums);
    }
    n := ParseTokens(e);
  }

  /** `calculateExpression(expression)`: remove white space, collapse the
      innermost groups while a `(` is left, then compute what remains. Where
      the source's loop would repeat forever the method reports `Hangs`. */
  method CalculateExpression(p: seq<Piece>) returns (r: Outcome)
    ensures r == Calculate(p)
  {
    var e := Lex(Strip(p));
    while Open in e
      invariant CalcExpr(e) == Calculate(p)
      decreases OpenCount(e)
    {
      var (next, found) := ReplaceGroups(e);
      ReplaceGroupsOpens(e, GroupValue);
      if !found {
        return Hangs;
      }
      e := next;
    }
    var n := CalculateSimpleExpression(e);
    r := Done(n);
  }
}
