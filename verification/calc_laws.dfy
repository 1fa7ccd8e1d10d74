/** What the rewriting arithmetic of `calculateSimpleExpression` and
    `calculateExpression` computes, compared with the conventional reading
    of arithmetic: products and quotients first, each level left to right.
    The two agree on plain text as long as no divisor is zero and no running
    total of the sums goes below zero; a negative running total loses its
    sign, and an unbalanced or empty pair of parentheses makes the source's
    loop spin forever. */
module CalcLaws {
  import opened Wrappers
  import opened Numbers
  import opened Calc

  /** A numeral a digit run produces for a non-negative decimal literal. */
  predicate PlainNumeral(tok: Token) {
    tok.Numeral? && tok.whole && tok.n.Finite? && tok.n.r >= 0.0
  }

  /** `op n op n …` with plain numerals. */
  predicate FlatTail(t: seq<Token>)
    decreases |t|
  {
    t == [] || (|t| >= 2 && t[0].Op? && t[0].c in "+-*/" && PlainNumeral(t[1]) && FlatTail(t[2..]))
  }

  /** Arithmetic text without parentheses: `n op n op … n`. */
  predicate Flat(t: seq<Token>) {
    |t| >= 1 && PlainNumeral(t[0]) && FlatTail(t[1..])
  }

  predicate DivisorsNonZero(t: seq<Token>)
    requires FlatTail(t)
    decreases |t|
  {
    t == [] || ((t[0].c == '/' ==> t[1].n.r != 0.0) && DivisorsNonZero(t[2..]))
  }

  /** No `/` is followed by a zero. */
  predicate NoZeroDivisor(t: seq<Token>)
    requires Flat(t)
  {
    DivisorsNonZero(t[1..])
  }

  /** `± n ± n …`: what is left once the products are computed. */
  predicate SumChain(w: seq<Token>)
    decreases |w|
  {
    w == [] || (|w| >= 2 && w[0].Op? && w[0].c in "+-" && w[1].Numeral? && w[1].whole && SumChain(w[2..]))
  }

  /** Folds the run of `* n` and `/ n` at the front of `t` into `acc`: the
      value of one product and the text after it. */
  function Product(acc: Number, t: seq<Token>): (r: (Number, seq<Token>))
    requires FlatTail(t)
    ensures FlatTail(r.1) && |r.1| <= |t|
    ensures r.1 == [] || r.1[0].c in "+-"
    ensures DivisorsNonZero(t) ==> DivisorsNonZero(r.1)
    ensures acc.Finite? && acc.r >= 0.0 && DivisorsNonZero(t) ==> r.0.Finite? && r.0.r >= 0.0
    decreases |t|
  {
    if t != [] && t[0].c in "*/" then Product(Apply(acc, t[0].c, t[1].n), t[2..]) else (acc, t)
  }

  /** The text with every product computed and the sums and differences
      left in place. */
  function Collapse(t: seq<Token>): (r: seq<Token>)
    requires Flat(t)
    ensures |r| >= 1 && r[0].Numeral? && r[0].whole && SumChain(r[1..])
    ensures NoZeroDivisor(t) ==> PlainNumeral(r[0])
    decreases |t|
  {
    var (p, rest) := Product(t[0].n, t[1..]);
    if rest == [] then [Numeral(p, true)]
    else
      var r := [Numeral(p, true), rest[0]] + Collapse(rest[1..]);
      assert r[1..][2..] == Collapse(rest[1..])[1..];
      r
  }

  /** The sums and differences folded left to right from `acc`. */
  function Fold(acc: Number, w: seq<Token>): Number
    requires SumChain(w)
    decreases |w|
  {
    if w == [] then acc else Fold(Apply(acc, w[0].c, w[1].n), w[2..])
  }

  /** The conventional value of plain arithmetic text. */
  function Ref(t: seq<Token>): Number
    requires Flat(t)
  {
    var v := Collapse(t);
    Fold(v[0].n, v[1..])
  }

  predicate TotalsNonNegative(acc: Number, w: seq<Token>)
    requires SumChain(w)
    decreases |w|
  {
    w == [] || (var a := Apply(acc, w[0].c, w[1].n); a.Finite? && a.r >= 0.0 && TotalsNonNegative(a, w[2..]))
  }

  /** Each running total of the sums and differences, left to right, is a
      non-negative number. */
  predicate RunningTotalsNonNegative(t: seq<Token>)
    requires Flat(t)
  {
    var v := Collapse(t);
    TotalsNonNegative(v[0].n, v[1..])
  }

  /** A leading `n ±` passes through the product phase unchanged. */
  lemma PrefixCollapse(a: Token, o: Token, u: seq<Token>)
    requires PlainNumeral(a) && o.Op? && o.c in "+-" && Flat(u)
    ensures Flat([a, o] + u)
    ensures Collapse([a, o] + u) == [a, o] + Collapse(u)
    ensures NoZeroDivisor(u) ==> NoZeroDivisor([a, o] + u)
  {
    var t := [a, o] + u;
    assert t[1..] == [o] + u;
    assert ([o] + u)[2..] == u[1..];
    assert ([o] + u)[1..] == u;
  }

  lemma SplitTwo(t: seq<Token>)
    requires |t| >= 2
    ensures t == [t[0], t[1]] + t[2..]
  {
  }

  /** A leading product `a op b` may be computed first. */
  lemma HeadCollapse(t: seq<Token>)
    requires Flat(t) && NoZeroDivisor(t) && |t| >= 3 && t[1].c in "*/"
    ensures var c := Apply(t[0].n, t[1].c, t[2].n);
      c.Finite? && c.r >= 0.0 &&
      Flat([Numeral(c, true)] + t[3..]) && NoZeroDivisor([Numeral(c, true)] + t[3..]) &&
      Collapse([Numeral(c, true)] + t[3..]) == Collapse(t)
  {
    var c := Apply(t[0].n, t[1].c, t[2].n);
    var u := [Numeral(c, true)] + t[3..];
    assert t[1..][2..] == t[3..];
    assert u[1..] == t[3..];
  }

  lemma {:induction false} SpliceShift(t: seq<Token>, i: nat, v: seq<Token>)
    requires 2 <= i && i + 2 < |t|
    ensures t[..i] + v + t[i + 3..] == [t[0], t[1]] + (t[2..][..i - 2] + v + t[2..][i + 1..])
  {
    var u := t[2..];
    assert t[..i] == [t[0], t[1]] + u[..i - 2];
    assert t[i + 3..] == u[i + 1..];
  }

  /** Rewriting past the first two tokens leaves them in place. */
  lemma {:induction false} RewriteShift(t: seq<Token>, i: nat, level: Level)
    requires i >= 2 && MatchAt(t, i, level)
    ensures MatchAt(t[2..], i - 2, level)
    ensures Rewrite(t, i, level) == [t[0], t[1]] + Rewrite(t[2..], i - 2, level)
  {
    var u := t[2..];
    assert u[i - 2] == t[i] && u[i - 1] == t[i + 1] && u[i] == t[i + 2];
    assert MatchAt(u, i - 2, level);
    assert MatchValue(u, i - 2, level) == MatchValue(t, i, level);
    SpliceShift(t, i, Render(MatchValue(t, i, level)));
  }

  /** A first match at the front that evaluates to a non-negative number
      becomes one numeral. */
  lemma {:induction false} RewriteFront(t: seq<Token>, level: Level)
    requires MatchAt(t, 0, level)
    requires MatchValue(t, 0, level).Finite? && MatchValue(t, 0, level).r >= 0.0
    ensures Rewrite(t, 0, level) == [Numeral(MatchValue(t, 0, level), true)] + t[3..]
  {
    assert t[..0] == [];
  }

  /** Rewriting the leftmost product keeps the text plain and changes none
      of the products' values. */
  lemma {:induction false} RewriteCollapse(t: seq<Token>, i: nat)
    requires Flat(t) && NoZeroDivisor(t)
    requires MatchAt(t, i, Products) && forall j :: 0 <= j < i ==> !MatchAt(t, j, Products)
    ensures Flat(Rewrite(t, i, Products)) && NoZeroDivisor(Rewrite(t, i, Products))
    ensures Collapse(Rewrite(t, i, Products)) == Collapse(t)
    decreases i
  {
    if i == 0 {
      HeadCollapse(t);
      RewriteFront(t, Products);
    } else {
      LaterMatch(t, i);
      RewriteCollapse(t[2..], i - 2);
      RewriteBehind(t, i);
    }
  }

  /** A leftmost product that is not at the front lies behind a leading
      `a +` or `a -`, and is the leftmost product of the rest. */
  lemma LaterMatch(t: seq<Token>, i: nat)
    requires Flat(t) && NoZeroDivisor(t) && i > 0
    requires MatchAt(t, i, Products) && forall j :: 0 <= j < i ==> !MatchAt(t, j, Products)
    ensures i >= 2 && |t| >= 3 && !MatchAt(t, 0, Products)
    ensures Flat(t[2..]) && NoZeroDivisor(t[2..]) && MatchAt(t[2..], i - 2, Products)
    ensures forall j :: 0 <= j < i - 2 ==> !MatchAt(t[2..], j, Products)
  {
    assert !MatchAt(t, 0, Products);
    assert t[1..][2..] == t[3..];
    var u := t[2..];
    forall j | 0 <= j < i - 2
      ensures !MatchAt(u, j, Products)
    {
      assert !MatchAt(t, j + 2, Products);
    }
    RewriteShift(t, i, Products);
  }

  /** Rewriting the leftmost product behind a leading `a +` or `a -` keeps
      the collapse when rewriting it in the rest does. */
  lemma RewriteBehind(t: seq<Token>, i: nat)
    requires Flat(t) && NoZeroDivisor(t) && i >= 2 && |t| >= 3 && !MatchAt(t, 0, Products)
    requires MatchAt(t, i, Products)
    requires Flat(Rewrite(t[2..], i - 2, Products)) && NoZeroDivisor(Rewrite(t[2..], i - 2, Products))
    requires Collapse(Rewrite(t[2..], i - 2, Products)) == Collapse(t[2..])
    ensures Flat(Rewrite(t, i, Products)) && NoZeroDivisor(Rewrite(t, i, Products))
    ensures Collapse(Rewrite(t, i, Products)) == Collapse(t)
  {
    RewriteShift(t, i, Products);
    CollapseBehind(t, Rewrite(t[2..], i - 2, Products));
  }

  /** A rewrite behind a leading `a +` or `a -` that keeps the collapse of
      the rest keeps the collapse of the whole text. */
  lemma CollapseBehind(t: seq<Token>, v: seq<Token>)
    requires Flat(t) && NoZeroDivisor(t) && |t| >= 3 && !MatchAt(t, 0, Products)
    requires Flat(v) && NoZeroDivisor(v) && Collapse(v) == Collapse(t[2..])
    ensures Flat([t[0], t[1]] + v) && NoZeroDivisor([t[0], t[1]] + v)
    ensures Collapse([t[0], t[1]] + v) == Collapse(t)
  {
    assert t[1..][2..] == t[3..];
    PrefixCollapse(t[0], t[1], v);
    PrefixCollapse(t[0], t[1], t[2..]);
    SplitTwo(t);
  }

  /** Text with no product left is its own collapse. */
  lemma {:induction false} CollapseNoProducts(t: seq<Token>)
    requires Flat(t) && forall j :: 0 <= j ==> !MatchAt(t, j, Products)
    ensures Collapse(t) == t
    decreases |t|
  {
    if |t| == 1 {
      assert t[1..] == [];
    } else {
      assert !MatchAt(t, 0, Products);
      assert t[1..][2..] == t[3..];
      forall j | 0 <= j
        ensures !MatchAt(t[2..], j, Products)
      {
        assert !MatchAt(t, j + 2, Products);
      }
      CollapseNoProducts(t[2..]);
      PrefixCollapse(t[0], t[1], t[2..]);
      SplitTwo(t);
    }
  }

  /** The first rewriting loop computes exactly the products. */
  lemma {:induction false} ProductsPhase(t: seq<Token>)
    requires Flat(t) && NoZeroDivisor(t)
    ensures Reduce(t, Products) == Collapse(t)
    decreases NumeralCount(t)
  {
    match FirstMatch(t, Products)
    case None =>
      CollapseNoProducts(t);
    case Some(i) =>
      RewriteCounts(t, i, Products);
      RewriteCollapse(t, i);
      ProductsPhase(Rewrite(t, i, Products));
  }

  /** The second rewriting loop folds the sums left to right while no
      running total is negative. */
  lemma {:induction false} SumsPhase(v: seq<Token>)
    requires |v| >= 1 && PlainNumeral(v[0]) && SumChain(v[1..])
    requires TotalsNonNegative(v[0].n, v[1..])
    ensures Reduce(v, Sums) == [Numeral(Fold(v[0].n, v[1..]), true)]
    decreases |v|
  {
    if |v| == 1 {
      assert FirstMatch(v, Sums).None?;
    } else {
      assert MatchAt(v, 0, Sums);
      assert FirstMatch(v, Sums) == Some(0);
      var c := MatchValue(v, 0, Sums);
      var w := [Numeral(c, true)] + v[3..];
      assert v[1..][2..] == v[3..];
      RewriteFront(v, Sums);
      assert w[1..] == v[3..];
      SumsPhase(w);
    }
  }

  /** On plain text with non-zero divisors and non-negative running totals,
      `calculateSimpleExpression` gives the conventional value. */
  lemma CalcSimpleIsConventional(t: seq<Token>)
    requires Flat(t) && NoZeroDivisor(t) && RunningTotalsNonNegative(t)
    ensures CalcSimple(t) == Ref(t)
  {
    ProductsPhase(t);
    var v := Collapse(t);
    SumsPhase(v);
  }

  function N(x: real): Token
    requires x >= 0.0
  {
    Numeral(Finite(x), true)
  }

  /** `1-2+5`: the first difference prints as `-1`, the next match is
      `1+5`, and the sign ends up in front of 6; the conventional value is 4. */
  lemma NegativeTotalLosesSign()
    ensures var t := [N(1.0), Op('-'), N(2.0), Op('+'), N(5.0)];
      Flat(t) && NoZeroDivisor(t) && Ref(t) == Finite(4.0) && CalcSimple(t) == Finite(-6.0)
  {
    var t := [N(1.0), Op('-'), N(2.0), Op('+'), N(5.0)];
    SumsOnlyRef(1.0, '-', 2.0, '+', 5.0);
    assert Ref(t) == Finite(4.0);
    NegativeReduces();
    ParseNegated(6.0);
  }

  /** `parseFloat` reads one minus sign before a numeral. */
  lemma ParseNegated(x: real)
    requires x >= 0.0
    ensures ParseTokens([Op('-'), N(x)]) == Finite(-x)
  {
    assert [Op('-'), N(x)][1..] == [N(x)];
    assert [N(x)][1..] == [];
  }

  /** `parseFloat` reads no number after two minus signs. */
  lemma ParseTwoSigns(x: real)
    requires x >= 0.0
    ensures ParseTokens([Op('-'), Op('-'), N(x)]) == NaN
  {
    assert [Op('-'), Op('-'), N(x)][1..] == [Op('-'), N(x)];
  }

  /** A text `a o b p c` of sums only is its own collapse, and its
      conventional value folds left to right. */
  lemma SumsOnlyRef(a: real, o: char, b: real, p: char, c: real)
    requires a >= 0.0 && b >= 0.0 && c >= 0.0 && o in "+-" && p in "+-"
    ensures var t := [N(a), Op(o), N(b), Op(p), N(c)];
      Flat(t) && NoZeroDivisor(t) && Collapse(t) == t
      && Ref(t) == Fold(Finite(a), [Op(o), N(b), Op(p), N(c)])
  {
    var t := [N(a), Op(o), N(b), Op(p), N(c)];
    assert t[1..][2..][2..] == [];
    assert FirstMatch(t, Products).None? by {
      assert !MatchAt(t, 0, Products) && !MatchAt(t, 2, Products);
    }
    CollapseNoProducts(t);
    assert t[1..] == [Op(o), N(b), Op(p), N(c)];
  }

  /** The two rewriting loops take `1-2+5` to `-6`. */
  lemma NegativeReduces()
    ensures Reduce(Reduce([N(1.0), Op('-'), N(2.0), Op('+'), N(5.0)], Products), Sums) == [Op('-'), N(6.0)]
  {
    var t := [N(1.0), Op('-'), N(2.0), Op('+'), N(5.0)];
    assert FirstMatch(t, Products).None? by {
      assert !MatchAt(t, 0, Products) && !MatchAt(t, 2, Products);
    }
    var t1 := [Op('-'), N(1.0), Op('+'), N(5.0)];
    assert FirstMatch(t, Sums) == Some(0);
    NegativeFirstRewrite();
    assert FirstMatch(t1, Sums) == Some(1) by {
      assert !MatchAt(t1, 0, Sums) && MatchAt(t1, 1, Sums);
    }
    var t2 := [Op('-'), N(6.0)];
    NegativeSecondRewrite();
    assert FirstMatch(t2, Sums).None?;
  }

  /** `1-2` in `1-2+5` prints as `-1`. */
  lemma NegativeFirstRewrite()
    ensures MatchAt([N(1.0), Op('-'), N(2.0), Op('+'), N(5.0)], 0, Sums)
    ensures Rewrite([N(1.0), Op('-'), N(2.0), Op('+'), N(5.0)], 0, Sums) == [Op('-'), N(1.0), Op('+'), N(5.0)]
  {
    var t := [N(1.0), Op('-'), N(2.0), Op('+'), N(5.0)];
    assert t[..0] == [] && t[3..] == [Op('+'), N(5.0)];
  }

  /** `1+5` in `-1+5` prints as `6`, after the sign. */
  lemma NegativeSecondRewrite()
    ensures MatchAt([Op('-'), N(1.0), Op('+'), N(5.0)], 1, Sums)
    ensures Rewrite([Op('-'), N(1.0), Op('+'), N(5.0)], 1, Sums) == [Op('-'), N(6.0)]
  {
    var t := [Op('-'), N(1.0), Op('+'), N(5.0)];
    assert t[..1] == [Op('-')] && t[4..] == [];
  }

  /** `2-3-4`: after `2-3` prints as `-1` and `1-4` as `-3`, the text reads
      `--3`, which `parseFloat` does not accept; the conventional value is -5. */
  lemma TwoDifferencesGiveNaN()
    ensures var t := [N(2.0), Op('-'), N(3.0), Op('-'), N(4.0)];
      Flat(t) && NoZeroDivisor(t) && Ref(t) == Finite(-5.0) && CalcSimple(t) == NaN
  {
    var t := [N(2.0), Op('-'), N(3.0), Op('-'), N(4.0)];
    SumsOnlyRef(2.0, '-', 3.0, '-', 4.0);
    assert Ref(t) == Finite(-5.0);
    TwoDifferencesReduce();
    ParseTwoSigns(3.0);
  }

  /** The two rewriting loops take `2-3-4` to `--3`. */
  lemma TwoDifferencesReduce()
    ensures Reduce(Reduce([N(2.0), Op('-'), N(3.0), Op('-'), N(4.0)], Products), Sums) == [Op('-'), Op('-'), N(3.0)]
  {
    var t := [N(2.0), Op('-'), N(3.0), Op('-'), N(4.0)];
    assert FirstMatch(t, Products).None? by {
      assert !MatchAt(t, 0, Products) && !MatchAt(t, 2, Products);
    }
    var t1 := [Op('-'), N(1.0), Op('-'), N(4.0)];
    assert FirstMatch(t, Sums) == Some(0);
    assert Rewrite(t, 0, Sums) == t1 by {
      assert t[..0] == [] && t[3..] == [Op('-'), N(4.0)];
    }
    assert FirstMatch(t1, Sums) == Some(1) by {
      assert !MatchAt(t1, 0, Sums) && MatchAt(t1, 1, Sums);
    }
    var t2 := [Op('-'), Op('-'), N(3.0)];
    assert Rewrite(t1, 1, Sums) == t2 by {
      assert t1[..1] == [Op('-')] && t1[4..] == [];
    }
    assert FirstMatch(t2, Sums).None?;
  }

  /** Parentheses are nested: reading left to right from depth `depth`, no
      `)` closes a group that is not open, and all groups close. */
  predicate Nested(t: seq<Token>, depth: nat)
    decreases |t|
  {
    if t == [] then depth == 0
    else if t[0] == Open then Nested(t[1..], depth + 1)
    else if t[0] == Close then depth > 0 && Nested(t[1..], depth - 1)
    else Nested(t[1..], depth)
  }

  predicate Balanced(t: seq<Token>) {
    Nested(t, 0)
  }

  /** No `()` with nothing inside. */
  predicate NoEmptyGroup(t: seq<Token>) {
    forall i :: 0 <= i < |t| - 1 ==> !(t[i] == Open && t[i + 1] == Close)
  }

  lemma {:induction false} NestedParenFree(p: seq<Token>, u: seq<Token>, depth: nat)
    requires ParenFree(p)
    ensures Nested(p + u, depth) == Nested(u, depth)
    decreases |p|
  {
    if p == [] {
      assert p + u == u;
    } else {
      assert (p + u)[1..] == p[1..] + u;
      NestedParenFree(p[1..], u, depth);
    }
  }

  /** A group at the front leaves the depth where it was. */
  lemma {:induction false} GroupNested(t: seq<Token>, j: nat, depth: nat)
    requires GroupEnd(t) == Some(j)
    ensures Nested(t, depth) == Nested(t[j + 1..], depth)
  {
    assert t[1..] == t[1..j] + t[j..];
    NestedParenFree(t[1..j], t[j..], depth + 1);
    assert t[j..][1..] == t[j + 1..];
  }

  /** An open group must be closed somewhere. */
  lemma {:induction false} OpenGroupCloses(u: seq<Token>, depth: nat)
    requires Nested(u, depth) && depth >= 1 && Open !in u
    ensures Close in u
    decreases |u|
  {
    if u != [] && u[0] != Close {
      OpenGroupCloses(u[1..], depth);
    }
  }

  /** Balanced text with a `(` and without `()` holds an innermost group. */
  lemma {:induction false} GroupExists(t: seq<Token>, depth: nat)
    requires Nested(t, depth) && NoEmptyGroup(t) && Open in t
    ensures exists k :: 0 <= k < |t| && GroupEnd(t[k..]).Some?
    decreases |t|
  {
    var u := t[1..];
    assert NoEmptyGroup(u) by {
      forall i | 0 <= i < |u| - 1
        ensures !(u[i] == Open && u[i + 1] == Close)
      {
        assert !(t[i + 1] == Open && t[i + 2] == Close);
      }
    }
    if t[0] == Open && Open !in u {
      OpenGroupCloses(u, depth + 1);
      var k :| 0 <= k < |u| && u[k] == Close;
      assert !ParenFree(u);
      var j := FirstParen(t, 1).value;
      assert t[j] in u by {
        assert t[j] == u[j - 1];
      }
      assert !(t[0] == Open && t[1] == Close);
      assert GroupEnd(t[0..]).Some? by {
        assert t[0..] == t;
      }
    } else {
      assert Open in u;
      if t[0] == Close {
        GroupExists(u, depth - 1);
      } else if t[0] == Open {
        GroupExists(u, depth + 1);
      } else {
        GroupExists(u, depth);
      }
      var k :| 0 <= k < |u| && GroupEnd(u[k..]).Some?;
      assert t[k + 1..] == u[k..];
    }
  }

  /** A round finds a group whenever the text holds one. */
  lemma {:induction false} ReplaceGroupsFinds(t: seq<Token>, k: nat, value: seq<Token> -> seq<Token>)
    requires k < |t| && GroupEnd(t[k..]).Some?
    ensures ReplaceGroupsBy(t, value).1
    decreases |t|
  {
    assert t[0..] == t;
    if GroupEnd(t).None? {
      assert t[1..][k - 1..] == t[k..];
      ReplaceGroupsFinds(t[1..], k - 1, value);
    }
  }

  /** A round keeps the parentheses nested. */
  lemma {:induction false} ReplaceGroupsNested(t: seq<Token>, depth: nat, value: seq<Token> -> seq<Token>)
    requires forall x :: Shaped(value(x))
    requires Nested(t, depth)
    ensures Nested(ReplaceGroupsBy(t, value).0, depth)
    decreases |t|
  {
    if t != [] {
      match GroupEnd(t)
      case Some(j) =>
        GroupNested(t, j, depth);
        ReplaceGroupsNested(t[j + 1..], depth, value);
        GroupReplaced(t, j, value);
        NestedParenFree(value(t[1..j]), ReplaceGroupsBy(t[j + 1..], value).0, depth);
      case None =>
        var d: nat := if t[0] == Open then depth + 1 else if t[0] == Close then depth - 1 else depth;
        ReplaceGroupsNested(t[1..], d, value);
        NestedAfterToken(t, depth, d, value);
    }
  }

  /** A token kept in front moves the depth as it did in the text. */
  lemma NestedAfterToken(t: seq<Token>, depth: nat, d: nat, value: seq<Token> -> seq<Token>)
    requires t != [] && GroupEnd(t).None?
    requires d == if t[0] == Open then depth + 1 else if t[0] == Close then depth - 1 else depth
    requires t[0] == Close ==> depth > 0
    requires Nested(ReplaceGroupsBy(t[1..], value).0, d)
    ensures Nested(ReplaceGroupsBy(t, value).0, depth)
  {
    var rest := ReplaceGroupsBy(t[1..], value).0;
    var r := [t[0]] + rest;
    assert ReplaceGroupsBy(t, value).0 == r;
    assert r[1..] == rest;
  }

  /** A round creates no `()`, and its result starts with `)` only where
      the text did. */
  lemma {:induction false} ReplaceGroupsNoEmpty(t: seq<Token>, value: seq<Token> -> seq<Token>)
    requires forall x :: Shaped(value(x))
    requires NoEmptyGroup(t)
    ensures var r := ReplaceGroupsBy(t, value).0;
      NoEmptyGroup(r) && (r == [] <==> t == []) && (r != [] ==> (r[0] == Close <==> t[0] == Close))
    decreases |t|
  {
    if t != [] {
      var u := t[1..];
      match GroupEnd(t)
      case Some(j) =>
        var w := t[j + 1..];
        assert NoEmptyGroup(w) by {
          forall i | 0 <= i < |w| - 1
            ensures !(w[i] == Open && w[i + 1] == Close)
          {
            assert w[i] == t[j + 1 + i] && w[i + 1] == t[j + 1 + i + 1];
          }
        }
        ReplaceGroupsNoEmpty(w, value);
        GroupReplaced(t, j, value);
        var rest := ReplaceGroupsBy(w, value).0;
        var v := value(t[1..j]);
        var r := v + rest;
        forall i | 0 <= i < |r| - 1
          ensures !(r[i] == Open && r[i + 1] == Close)
        {
          if i + 1 < |v| {
            assert r[i] == v[i];
          } else if i + 1 == |v| {
            assert r[i] == v[i];
          } else {
            assert r[i] == rest[i - |v|] && r[i + 1] == rest[i + 1 - |v|];
          }
        }
      case None =>
        assert NoEmptyGroup(u) by {
          forall i | 0 <= i < |u| - 1
            ensures !(u[i] == Open && u[i + 1] == Close)
          {
            assert !(t[i + 1] == Open && t[i + 2] == Close);
          }
        }
        ReplaceGroupsNoEmpty(u, value);
        var rest := ReplaceGroupsBy(u, value).0;
        var r := [t[0]] + rest;
        assert |t| >= 2 ==> !(t[0] == Open && t[1] == Close);
        forall i | 0 <= i < |r| - 1
          ensures !(r[i] == Open && r[i + 1] == Close)
        {
          if i > 0 {
            assert r[i] == rest[i - 1] && r[i + 1] == rest[i];
          }
        }
    }
  }

  /** With nested parentheses and no `()`, the parenthesis loop of
      `calculateExpression` ends. */
  lemma {:induction false} BalancedTerminates(t: seq<Token>)
    requires Balanced(t) && NoEmptyGroup(t)
    ensures CalcExpr(t).Done?
    decreases OpenCount(t)
  {
    if Open in t {
      GroupExists(t, 0);
      var k :| 0 <= k < |t| && GroupEnd(t[k..]).Some?;
      ReplaceGroupsFinds(t, k, GroupValue);
      ReplaceGroupsOpens(t, GroupValue);
      ReplaceGroupsNested(t, 0, GroupValue);
      ReplaceGroupsNoEmpty(t, GroupValue);
      BalancedTerminates(ReplaceGroups(t).0);
    }
  }

  /** `(` with no `)` after it: the source's loop never ends. */
  lemma UnclosedGroupHangs()
    ensures CalcExpr([Open, N(1.0)]) == Hangs
  {
    var t := [Open, N(1.0)];
    assert FirstParen(t, 2).None?;
    assert GroupEnd(t).None?;
    assert GroupEnd(t[1..]).None?;
    assert ReplaceGroupsBy(t[1..][1..], GroupValue) == ([], false);
    assert ReplaceGroupsBy(t[1..], GroupValue) == (t[1..], false);
    assert ReplaceGroups(t) == (t, false);
  }
}
