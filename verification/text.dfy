/** String primitives of the JavaScript runtime that the spreadsheet relies on:
    the `\s` character class and `trim`, ASCII case mapping, decimal numerals,
    `split`/`join` on one character, `replaceAll` with a string pattern, and
    insertion-ordered sets represented as sequences without repetition. */
module Text {

  predicate IsUpper(c: char) { 'A' <= c <= 'Z' }
  predicate IsLower(c: char) { 'a' <= c <= 'z' }
  predicate IsDigit(c: char) { '0' <= c <= '9' }

  /** ECMAScript WhiteSpace and LineTerminator: what `\s` matches and what `trim` strips. */
  predicate IsSpace(c: char) {
    c == '\t' || c == '\n' || c == '\U{000B}' || c == '\U{000C}' || c == '\r' || c == ' '
    || c == '\U{00A0}' || c == '\U{1680}' || ('\U{2000}' <= c <= '\U{200A}')
    || c == '\U{2028}' || c == '\U{2029}' || c == '\U{202F}' || c == '\U{205F}'
    || c == '\U{3000}' || c == '\U{FEFF}'
  }

  /** The characters that `.` in a regular expression does not match. */
  predicate IsLineTerminator(c: char) {
    c == '\n' || c == '\r' || c == '\U{2028}' || c == '\U{2029}'
  }

  predicate AllSpace(s: string) { forall i :: 0 <= i < |s| ==> IsSpace(s[i]) }
  predicate AllDigits(s: string) { forall i :: 0 <= i < |s| ==> IsDigit(s[i]) }
  predicate AllUpper(s: string) { forall i :: 0 <= i < |s| ==> IsUpper(s[i]) }

  predicate StartsWith(s: string, p: string) { |p| <= |s| && s[..|p|] == p }

  /** Number of white-space characters at the front of `s`. */
  function LeadingSpace(s: string): (n: nat)
    ensures n <= |s| && AllSpace(s[..n])
    ensures n < |s| ==> !IsSpace(s[n])
  {
    if s == [] || !IsSpace(s[0]) then 0
    else
      var m := LeadingSpace(s[1..]);
      assert s[..1 + m] == [s[0]] + s[1..][..m];
      1 + m
  }

  /** Number of white-space characters at the end of `s`. */
  function TrailingSpace(s: string): (n: nat)
    ensures n <= |s| && AllSpace(s[|s| - n..])
    ensures n < |s| ==> !IsSpace(s[|s| - n - 1])
  {
    if s == [] || !IsSpace(s[|s| - 1]) then 0
    else
      var t := s[..|s| - 1];
      var m := TrailingSpace(t);
      assert s[|s| - (1 + m)..] == t[|t| - m..] + [s[|s| - 1]];
      1 + m
  }

  /** String.prototype.trim: `s` with white space removed from both ends. The
      result is a slice of `s` framed by white space only, and it neither
      starts nor ends with white space. */
  function Trim(s: string): (r: string)
    ensures |r| <= |s|
    ensures r == [] || (!IsSpace(r[0]) && !IsSpace(r[|r| - 1]))
    ensures exists a :: 0 <= a && a + |r| <= |s| && AllSpace(s[..a])
                     && s[a..a + |r|] == r && AllSpace(s[a + |r|..])
  {
    var a := LeadingSpace(s);
    var t := s[a..];
    var b := TrailingSpace(t);
    var r := t[..|t| - b];
    assert s[a..a + |r|] == r;
    assert s[a + |r|..] == t[|t| - b..];
    r
  }

  /** Trimming twice is trimming once. */
  lemma TrimIdempotent(s: string)
    ensures Trim(Trim(s)) == Trim(s)
  {
    var r := Trim(s);
    assert LeadingSpace(r) == 0;
    assert r[0..] == r;
    assert TrailingSpace(r) == 0;
    assert r[..|r|] == r;
  }

  /** A string with no white space at either end is its own trim. */
  lemma TrimUnspaced(s: string)
    requires s != [] ==> !IsSpace(s[0]) && !IsSpace(s[|s| - 1])
    ensures Trim(s) == s
  {
    assert LeadingSpace(s) == 0;
    assert s[0..] == s;
    assert TrailingSpace(s) == 0;
    assert s[..|s|] == s;
  }

  /** A string trims to nothing exactly when it is all white space. */
  lemma TrimEmptyIff(s: string)
    ensures Trim(s) == [] <==> AllSpace(s)
  {
  }

  function UpperChar(c: char): char { if IsLower(c) then (c as int - 32) as char else c }
  function LowerChar(c: char): char { if IsUpper(c) then (c as int + 32) as char else c }

  /** String.prototype.toUpperCase on ASCII letters: no lower-case letter is
      left and each character is the same letter or symbol as before. */
  function ToUpper(s: string): (r: string)
    ensures |r| == |s|
    ensures forall i :: 0 <= i < |s| ==> !IsLower(r[i]) && LowerChar(r[i]) == LowerChar(s[i])
  {
    seq(|s|, i requires 0 <= i < |s| => UpperChar(s[i]))
  }

  /** String.prototype.toLowerCase on ASCII letters. */
  function ToLower(s: string): (r: string)
    ensures |r| == |s|
    ensures forall i :: 0 <= i < |s| ==> !IsUpper(r[i]) && UpperChar(r[i]) == UpperChar(s[i])
  {
    seq(|s|, i requires 0 <= i < |s| => LowerChar(s[i]))
  }

  /** Case mapping keeps characters that are not letters. */
  lemma CaseMappingKeepsOthers(s: string, i: int)
    requires 0 <= i < |s| && !IsUpper(s[i]) && !IsLower(s[i])
    ensures ToUpper(s)[i] == s[i] && ToLower(s)[i] == s[i]
  {
  }

  function DigitValue(c: char): nat
    requires IsDigit(c)
  {
    c as int - '0' as int
  }

  function DigitChar(d: nat): char
    requires d < 10
  {
    ('0' as int + d) as char
  }

  /** The value of a string of decimal digits (the empty string counts as 0). */
  function DigitsValue(s: string): nat
    requires AllDigits(s)
    decreases |s|
  {
    if s == [] then 0 else 10 * DigitsValue(s[..|s| - 1]) + DigitValue(s[|s| - 1])
  }

  /** Decimal numeral of a natural number, as `String(n)` writes it: the
      shortest digit string denoting `n`, without leading zero. */
  function NatToString(n: nat): (r: string)
    ensures |r| >= 1 && AllDigits(r)
    ensures |r| == 1 <==> n < 10
    ensures |r| > 1 ==> r[0] != '0'
  {
    var p := if n < 10 then "" else NatToString(n / 10);
    var d := DigitChar(n % 10);
    var r := p + [d];
    assert |r| > 1 ==> r[0] == p[0];
    assert |p| == 1 ==> p[0] == DigitChar(n / 10) && n / 10 >= 1;
    r
  }

  /** The numeral denotes `n`. */
  lemma {:induction false} NatToStringValue(n: nat)
    ensures DigitsValue(NatToString(n)) == n
  {
    var r := NatToString(n);
    var p := if n < 10 then "" else NatToString(n / 10);
    if n >= 10 {
      NatToStringValue(n / 10);
    }
    assert r == p + [DigitChar(n % 10)];
    assert r[..|r| - 1] == p;
    assert DigitsValue(r) == 10 * DigitsValue(p) + n % 10;
  }

  /** First position of `x` in `s`. */
  function FirstIndex<T(==,!new)>(s: seq<T>, x: T): (i: nat)
    requires x in s
    ensures i < |s| && s[i] == x && x !in s[..i]
  {
    if s[0] == x then 0
    else
      var j := FirstIndex(s[1..], x);
      assert s[..1 + j] == [s[0]] + s[1..][..j];
      1 + j
  }

  /** Concatenation of `parts` with `sep` between consecutive parts. */
  function Join(parts: seq<string>, sep: char): string
    requires |parts| >= 1
  {
    if |parts| == 1 then parts[0] else parts[0] + [sep] + Join(parts[1..], sep)
  }

  /** String.prototype.split with a one-character separator: the pieces between
      separators, none of which contains the separator; joining them back
      gives the original string. */
  function Split(s: string, sep: char): (parts: seq<string>)
    ensures |parts| >= 1
    ensures forall i :: 0 <= i < |parts| ==> sep !in parts[i]
    ensures Join(parts, sep) == s
    decreases |s|
  {
    if sep !in s then [s]
    else
      var i := FirstIndex(s, sep);
      var rest := Split(s[i + 1..], sep);
      assert s == s[..i] + [sep] + s[i + 1..];
      [s[..i]] + rest
  }

  /** Splitting a join of separator-free pieces gives the pieces back. */
  lemma {:induction false} SplitJoin(parts: seq<string>, sep: char)
    requires |parts| >= 1
    requires forall i :: 0 <= i < |parts| ==> sep !in parts[i]
    ensures Split(Join(parts, sep), sep) == parts
    decreases |parts|
  {
    if |parts| == 1 {
    } else {
      var s := Join(parts, sep);
      var tail := Join(parts[1..], sep);
      assert s == parts[0] + [sep] + tail;
      assert sep in s by { assert s[|parts[0]|] == sep; }
      var i := FirstIndex(s, sep);
      assert i == |parts[0]| by {
        assert s[..|parts[0]|] == parts[0];
      }
      assert s[..i] == parts[0];
      assert s[i + 1..] == tail;
      SplitJoin(parts[1..], sep);
    }
  }

  /** `find` occurs in `s` at position `i`. */
  predicate OccursAt(s: string, find: string, i: nat) {
    i + |find| <= |s| && s[i..i + |find|] == find
  }

  predicate Contains(s: string, find: string) {
    exists i: nat :: i <= |s| && OccursAt(s, find, i)
  }

  /** GetSubstitution of ECMAScript for a string pattern (no capture groups):
      `$$` stands for `$`, `$&` for the matched text, `` $` `` for the text
      before the match and `$'` for the text after it; any other `$` is
      literal. */
  function Expand(rep: string, matched: string, before: string, after: string): string
    decreases |rep|
  {
    if |rep| >= 2 && rep[0] == '$' && rep[1] == '$' then "$" + Expand(rep[2..], matched, before, after)
    else if |rep| >= 2 && rep[0] == '$' && rep[1] == '&' then matched + Expand(rep[2..], matched, before, after)
    else if |rep| >= 2 && rep[0] == '$' && rep[1] == '`' then before + Expand(rep[2..], matched, before, after)
    else if |rep| >= 2 && rep[0] == '$' && rep[1] == '\'' then after + Expand(rep[2..], matched, before, after)
    else if rep == [] then []
    else [rep[0]] + Expand(rep[1..], matched, before, after)
  }

  /** A replacement without `$` is inserted as written. */
  lemma {:induction false} ExpandLiteral(rep: string, matched: string, before: string, after: string)
    requires '$' !in rep
    ensures Expand(rep, matched, before, after) == rep
    decreases |rep|
  {
    if rep != [] {
      assert rep[0] != '$';
      ExpandLiteral(rep[1..], matched, before, after);
    }
  }

  /** String.prototype.replaceAll scanning `s` from position `i`:
      non-overlapping occurrences of `find`, left to right. */
  function ReplaceFrom(s: string, find: string, rep: string, i: nat): string
    requires |find| > 0 && i <= |s|
    decreases |s| - i
  {
    if OccursAt(s, find, i) then
      Expand(rep, find, s[..i], s[i + |find|..]) + ReplaceFrom(s, find, rep, i + |find|)
    else if i < |s| then [s[i]] + ReplaceFrom(s, find, rep, i + 1)
    else []
  }

  /** String.prototype.replaceAll(find, rep) with a non-empty string `find`. */
  function ReplaceAll(s: string, find: string, rep: string): string
    requires |find| > 0
  {
    ReplaceFrom(s, find, rep, 0)
  }

  lemma {:induction false} ReplaceFromAbsent(s: string, find: string, rep: string, i: nat)
    requires |find| > 0 && i <= |s| && !Contains(s, find)
    ensures ReplaceFrom(s, find, rep, i) == s[i..]
    decreases |s| - i
  {
    assert !OccursAt(s, find, i);
    if i < |s| {
      ReplaceFromAbsent(s, find, rep, i + 1);
      assert s[i..] == [s[i]] + s[i + 1..];
    }
  }

  /** Without an occurrence of `find`, replaceAll changes nothing. */
  lemma ReplaceAllAbsent(s: string, find: string, rep: string)
    requires |find| > 0 && !Contains(s, find)
    ensures ReplaceAll(s, find, rep) == s
  {
    ReplaceFromAbsent(s, find, rep, 0);
  }

  lemma {:induction false} ReplaceFromSelf(s: string, find: string, i: nat)
    requires |find| > 0 && i <= |s| && '$' !in find
    ensures ReplaceFrom(s, find, find, i) == s[i..]
    decreases |s| - i
  {
    if OccursAt(s, find, i) {
      var j := i + |find|;
      assert ReplaceFrom(s, find, find, i) == find + ReplaceFrom(s, find, find, j) by {
        ExpandLiteral(find, find, s[..i], s[j..]);
      }
      ReplaceFromSelf(s, find, j);
      assert s[i..] == find + s[j..] by {
        assert s[i..j] == find;
      }
    } else if i < |s| {
      ReplaceFromSelf(s, find, i + 1);
      assert s[i..] == [s[i]] + s[i + 1..];
    }
  }

  /** Replacing a text by itself (when it holds no `$` pattern) changes nothing. */
  lemma ReplaceAllSelf(s: string, find: string)
    requires |find| > 0 && '$' !in find
    ensures ReplaceAll(s, find, find) == s
  {
    ReplaceFromSelf(s, find, 0);
  }

  predicate Distinct<T(==,!new)>(s: seq<T>) {
    forall i, j :: 0 <= i < j < |s| ==> s[i] != s[j]
  }

  /** `Array.from(new Set(s))`: the elements of `s` without repetition, each
      where it first occurs. */
  function Dedup<T(==,!new)>(s: seq<T>): (r: seq<T>)
    ensures Distinct(r)
    ensures forall x :: x in r <==> x in s
    ensures |r| <= |s|
  {
    if s == [] then []
    else
      var r := Dedup(s[..|s| - 1]);
      var x := s[|s| - 1];
      assert forall y :: y in s <==> y in s[..|s| - 1] || y == x by {
        assert s == s[..|s| - 1] + [x];
      }
      if x in r then r else r + [x]
  }

  /** Dedup lists elements in the order of their first occurrences. */
  lemma {:induction false} DedupOrder<T(!new)>(s: seq<T>, i: int, j: int)
    requires 0 <= i < j < |Dedup(s)|
    ensures FirstIndex(s, Dedup(s)[i]) < FirstIndex(s, Dedup(s)[j])
    decreases |s|
  {
    var p := s[..|s| - 1];
    var x := s[|s| - 1];
    var r := Dedup(p);
    assert s == p + [x];
    var a := Dedup(s)[i];
    var b := Dedup(s)[j];
    assert i < |r|;
    assert a == r[i];
    assert FirstIndex(s, a) == FirstIndex(p, a) by { FirstIndexPrefix(p, x, a); }
    if j < |r| {
      assert b == r[j];
      DedupOrder(p, i, j);
      FirstIndexPrefix(p, x, b);
    } else {
      assert b == x && x !in p;
      assert s[..|p|] == p;
    }
  }

  lemma FirstIndexPrefix<T(!new)>(p: seq<T>, x: T, y: T)
    requires y in p
    ensures y in p + [x] && FirstIndex(p + [x], y) == FirstIndex(p, y)
  {
    var s := p + [x];
    var m := FirstIndex(p, y);
    assert s[..m] == p[..m];
    FirstIndexUnique(s, y, m);
  }

  /** The first position is the one with no earlier occurrence. */
  lemma FirstIndexUnique<T(!new)>(s: seq<T>, x: T, i: nat)
    requires i < |s| && s[i] == x && x !in s[..i]
    ensures FirstIndex(s, x) == i
  {
    var k := FirstIndex(s, x);
    assert forall t :: 0 <= t < i ==> s[..i][t] == s[t];
    assert forall t :: 0 <= t < k ==> s[..k][t] == s[t];
  }

  /** `set.delete(x)` on an insertion-ordered set. */
  function Remove<T(==,!new)>(s: seq<T>, x: T): (r: seq<T>)
    ensures x !in r
    ensures forall y :: y in r <==> y in s && y != x
    ensures Distinct(s) ==> Distinct(r)
  {
    if s == [] then []
    else
      var r := Remove(s[..|s| - 1], x);
      var y := s[|s| - 1];
      assert s == s[..|s| - 1] + [y];
      assert Distinct(s) ==> y !in s[..|s| - 1];
      if y == x then r else r + [y]
  }

  /** `set.add(x)` on an insertion-ordered set: appended when new. */
  function Add<T(==,!new)>(s: seq<T>, x: T): (r: seq<T>)
    ensures x in r
    ensures forall y :: y in r <==> y in s || y == x
    ensures Distinct(s) ==> Distinct(r)
  {
    if x in s then s else s + [x]
  }
}
