/**
 * The few Python string operations the server relies on, stated over
 * `string` (a sequence of Unicode scalar values):
 *   - `str.strip()` with no argument, which removes leading and trailing
 *     characters for which `str.isspace()` holds;
 *   - `str.lower()`, restricted to the ASCII letters;
 *   - `str.split(sep)` for a one-character separator, and its inverse `sep.join`;
 *   - the substring test `sub in s`.
 */
module Text {

  /** `c.isspace()` in Python 3: the characters of Unicode category Zs and
      the bidirectional classes WS, B and S. */
  predicate IsSpace(c: char) {
    || c == ' '
    || ('\t' <= c <= '\r')
    || ('\U{1C}' <= c <= '\U{1F}')
    || c == '\U{85}' || c == '\U{A0}' || c == '\U{1680}'
    || ('\U{2000}' <= c <= '\U{200A}')
    || c == '\U{2028}' || c == '\U{2029}' || c == '\U{202F}' || c == '\U{205F}'
    || c == '\U{3000}'
  }

  /** Every character of `s` is white space (true of the empty string). */
  predicate AllSpace(s: string) {
    forall i :: 0 <= i < |s| ==> IsSpace(s[i])
  }

  /** `s.lstrip()`. */
  function TrimStart(s: string): string {
    if s != [] && IsSpace(s[0]) then TrimStart(s[1..]) else s
  }

  /** `s.rstrip()`. */
  function TrimEnd(s: string): string {
    if s != [] && IsSpace(s[|s| - 1]) then TrimEnd(s[..|s| - 1]) else s
  }

  /** `s.strip()`. */
  function Strip(s: string): string {
    TrimEnd(TrimStart(s))
  }

  /** `lstrip()` keeps a suffix that does not start with white space, and
      drops white space only. */
  lemma {:induction false} TrimStartShape(s: string)
    ensures var r := TrimStart(s);
      && |r| <= |s| && r == s[|s| - |r|..]
      && AllSpace(s[..|s| - |r|])
      && (r != [] ==> !IsSpace(r[0]))
  {
    if s != [] && IsSpace(s[0]) {
      TrimStartShape(s[1..]);
      var r := TrimStart(s);
      assert s[..|s| - |r|] == [s[0]] + s[1..][..|s| - 1 - |r|];
    }
  }

  /** `rstrip()` keeps a prefix that does not end with white space, and
      drops white space only. */
  lemma {:induction false} TrimEndShape(s: string)
    ensures var r := TrimEnd(s);
      && |r| <= |s| && r == s[..|r|]
      && AllSpace(s[|r|..])
      && (r != [] ==> !IsSpace(r[|r| - 1]))
  {
    if s != [] && IsSpace(s[|s| - 1]) {
      var s' := s[..|s| - 1];
      TrimEndShape(s');
      var r := TrimEnd(s);
      assert s[|r|..] == s'[|r|..] + [s[|s| - 1]];
    }
  }

  /** What `strip()` keeps is an infix of the input that neither starts nor
      ends with white space, and what it drops is white space only. */
  lemma StripIsTrimmedInfix(s: string)
    ensures var r := Strip(s);
      && (r == [] || (!IsSpace(r[0]) && !IsSpace(r[|r| - 1])))
      && exists i, j :: 0 <= i <= j <= |s| && r == s[i..j] && AllSpace(s[..i]) && AllSpace(s[j..])
  {
    var t := TrimStart(s);
    var r := TrimEnd(t);
    TrimStartShape(s);
    TrimEndShape(t);
    var i, j := |s| - |t|, |s| - |t| + |r|;
    assert r == s[i..j];
    assert s[j..] == t[|r|..];
  }

  /** Leading white space never changes what `lstrip()` keeps. */
  lemma {:induction false} TrimStartSkipsSpace(p: string, s: string)
    requires AllSpace(p)
    ensures TrimStart(p + s) == TrimStart(s)
  {
    if p != [] {
      assert (p + s)[1..] == p[1..] + s;
      TrimStartSkipsSpace(p[1..], s);
    } else {
      assert p + s == s;
    }
  }

  /** Trailing white space never changes what `rstrip()` keeps. */
  lemma {:induction false} TrimEndSkipsSpace(s: string, q: string)
    requires AllSpace(q)
    ensures TrimEnd(s + q) == TrimEnd(s)
  {
    if q != [] {
      var q' := q[..|q| - 1];
      assert (s + q)[..|s + q| - 1] == s + q';
      TrimEndSkipsSpace(s, q');
    } else {
      assert s + q == s;
    }
  }

  /** A word that neither starts nor ends with white space is recovered by
      `strip()` from any white-space padding around it. */
  lemma StripPadded(p: string, w: string, q: string)
    requires AllSpace(p) && AllSpace(q)
    requires w != [] && !IsSpace(w[0]) && !IsSpace(w[|w| - 1])
    ensures Strip(p + w + q) == w
  {
    assert p + w + q == p + (w + q);
    TrimStartSkipsSpace(p, w + q);
    assert TrimStart(w + q) == w + q;
    TrimEndSkipsSpace(w, q);
  }

  /** `c.lower()` on ASCII letters; every other character is left alone. */
  function LowerChar(c: char): char {
    if 'A' <= c <= 'Z' then (c as int + 32) as char else c
  }

  /** `c.upper()` on ASCII letters (used only to state case-insensitivity). */
  function UpperChar(c: char): char {
    if 'a' <= c <= 'z' then (c as int - 32) as char else c
  }

  /** `s.lower()`, character by character. */
  function Lower(s: string): (r: string)
    ensures |r| == |s|
    ensures forall i :: 0 <= i < |s| ==> r[i] == LowerChar(s[i])
  {
    seq(|s|, i requires 0 <= i < |s| => LowerChar(s[i]))
  }

  /** `s.upper()`, character by character. */
  function Upper(s: string): (r: string)
    ensures |r| == |s|
    ensures forall i :: 0 <= i < |s| ==> r[i] == UpperChar(s[i])
  {
    seq(|s|, i requires 0 <= i < |s| => UpperChar(s[i]))
  }

  /** No ASCII capital letter occurs in `s`. */
  predicate IsLowerCase(s: string) {
    forall i :: 0 <= i < |s| ==> !('A' <= s[i] <= 'Z')
  }

  /** Lower-casing is a projection, and it undoes upper-casing of a
      lower-case word. */
  lemma LowerProperties(s: string)
    ensures IsLowerCase(Lower(s))
    ensures Lower(Lower(s)) == Lower(s)
    ensures IsLowerCase(s) ==> Lower(s) == s && Lower(Upper(s)) == s
  {
  }

  lemma LowerConcat(a: string, b: string)
    ensures Lower(a + b) == Lower(a) + Lower(b)
  {
  }

  /** Lower-casing leaves white space alone. */
  lemma LowerKeepsSpace(s: string)
    requires AllSpace(s)
    ensures Lower(s) == s && AllSpace(Lower(s))
  {
  }

  /** `sub` occurs in `s` starting at index `i`. */
  predicate OccursAt(s: string, sub: string, i: int) {
    0 <= i && i + |sub| <= |s| && s[i..i + |sub|] == sub
  }

  /** `sub in s`: `sub` occurs in `s` as a contiguous infix. */
  function Contains(s: string, sub: string): (r: bool)
    ensures r <==> exists i :: OccursAt(s, sub, i)
    decreases |s|
  {
    if |sub| > |s| then false
    else if s[..|sub|] == sub then assert OccursAt(s, sub, 0); true
    else
      var r := Contains(s[1..], sub);
      assert r ==> exists i :: OccursAt(s, sub, i) by {
        if r {
          var i :| OccursAt(s[1..], sub, i);
          assert s[i + 1..i + 1 + |sub|] == s[1..][i..i + |sub|];
          assert OccursAt(s, sub, i + 1);
        }
      }
      assert (exists i :: OccursAt(s, sub, i)) ==> r by {
        if i :| OccursAt(s, sub, i) {
          assert i != 0;
          assert s[1..][i - 1..i - 1 + |sub|] == s[i..i + |sub|];
          assert OccursAt(s[1..], sub, i - 1);
        }
      }
      r
  }

  /** `s.split(c)`: the pieces of `s` between occurrences of `c`, always at
      least one, none of which contains `c`. */
  function Split(s: string, c: char): (parts: seq<string>)
    ensures |parts| >= 1
    ensures forall k :: 0 <= k < |parts| ==> c !in parts[k]
    ensures c !in s ==> parts == [s]
    decreases |s|
  {
    if s == [] then [[]]
    else
      var rest := Split(s[1..], c);
      if s[0] == c then [[]] + rest
      else
        assert c !in s ==> c !in s[1..] && s == [s[0]] + s[1..];
        [[s[0]] + rest[0]] + rest[1..]
  }

  /** `c.join(parts)`. */
  function Join(parts: seq<string>, c: char): string
    requires |parts| >= 1
  {
    if |parts| == 1 then parts[0] else parts[0] + [c] + Join(parts[1..], c)
  }

  /** Splitting on `c` and joining with `c` gives back the string. */
  lemma {:induction false} JoinSplit(s: string, c: char)
    ensures Join(Split(s, c), c) == s
    decreases |s|
  {
    if s != [] {
      var rest := Split(s[1..], c);
      JoinSplit(s[1..], c);
      if s[0] == c {
        JoinAfterEmpty(rest, c);
      } else {
        JoinWithFirstLonger(s[0], rest, c);
      }
      assert s == [s[0]] + s[1..];
    }
  }

  /** An empty first piece joins to the separator and the rest. */
  lemma JoinAfterEmpty(rest: seq<string>, c: char)
    requires |rest| >= 1
    ensures Join([[]] + rest, c) == [c] + Join(rest, c)
  {
    assert ([[]] + rest)[1..] == rest;
  }

  /** A character put in front of the first piece comes first in the join. */
  lemma JoinWithFirstLonger(x: char, rest: seq<string>, c: char)
    requires |rest| >= 1
    ensures Join([[x] + rest[0]] + rest[1..], c) == [x] + Join(rest, c)
  {
    var parts := [[x] + rest[0]] + rest[1..];
    if |rest| > 1 {
      assert parts[1..] == rest[1..];
    }
  }

  /** Joining pieces that do not contain the separator and splitting the
      result gives back the pieces. */
  lemma {:induction false} SplitJoin(parts: seq<string>, c: char)
    requires |parts| >= 1
    requires forall i :: 0 <= i < |parts| ==> c !in parts[i]
    ensures Split(Join(parts, c), c) == parts
    decreases |parts|
  {
    if |parts| > 1 {
      SplitJoin(parts[1..], c);
      SplitAround(parts[0], c, Join(parts[1..], c));
      assert [parts[0]] + parts[1..] == parts;
    }
  }

  /** Splitting around one occurrence of the separator concatenates the
      pieces of both sides. */
  lemma {:induction false} SplitAround(a: string, c: char, b: string)
    ensures Split(a + [c] + b, c) == Split(a, c) + Split(b, c)
    decreases |a|
  {
    var s := a + [c] + b;
    if a == [] {
      assert s[1..] == b;
    } else {
      assert s[1..] == a[1..] + [c] + b;
      SplitAround(a[1..], c, b);
    }
  }

  /** The text of `s` before the first `c` (all of `s` when there is none):
      `s.split(c)[0]`. */
  function Before(s: string, c: char): (r: string)
    ensures c !in r
    ensures |r| <= |s| && r == s[..|r|]
    ensures c in s ==> |r| < |s| && s[|r|] == c
    ensures c !in s ==> r == s
    decreases |s|
  {
    if s == [] || s[0] == c then [] else [s[0]] + Before(s[1..], c)
  }

  /** The text of `s` after the first `c` (empty when there is none). */
  function After(s: string, c: char): (r: string)
    ensures c in s ==> s == Before(s, c) + [c] + r
    ensures c !in s ==> r == []
  {
    if c in s then s[|Before(s, c)| + 1..] else []
  }

  /** The text of `s` after the last `c` (all of `s` when there is none):
      `s.split(c)[-1]`. */
  function AfterLast(s: string, c: char): (r: string)
    ensures c !in r
    ensures |r| <= |s| && r == s[|s| - |r|..]
    ensures c in s ==> |r| < |s| && s[|s| - |r| - 1] == c
    ensures c !in s ==> r == s
    decreases |s|
  {
    if s == [] || s[|s| - 1] == c then []
    else
      var r := AfterLast(s[..|s| - 1], c);
      assert c in s ==> c in s[..|s| - 1];
      r + [s[|s| - 1]]
  }

  /** The first piece of a split is the text before the first separator. */
  lemma {:induction false} SplitFirst(s: string, c: char)
    ensures Split(s, c)[0] == Before(s, c)
    decreases |s|
  {
    if s != [] && s[0] != c {
      SplitFirst(s[1..], c);
    }
  }

  /** The second piece of a split is the text between the first and the
      second separator. */
  lemma SplitSecond(s: string, c: char)
    requires c in s
    ensures |Split(s, c)| >= 2
    ensures Split(s, c)[1] == Before(After(s, c), c)
  {
    SplitAround(Before(s, c), c, After(s, c));
    SplitFirst(After(s, c), c);
  }

  /** The last piece of a split is the text after the last separator. */
  lemma {:induction false} SplitLast(s: string, c: char)
    ensures Split(s, c)[|Split(s, c)| - 1] == AfterLast(s, c)
    decreases |s|
  {
    if c in s {
      var a, b := s[..|s| - |AfterLast(s, c)| - 1], AfterLast(s, c);
      assert s == a + [c] + b;
      SplitAround(a, c, b);
    }
  }

  /** Around the first occurrence of the separator, `Before` and `After`
      give back the two sides. */
  lemma BeforeAfterSeparator(a: string, c: char, b: string)
    requires c !in a
    ensures Before(a + [c] + b, c) == a
    ensures After(a + [c] + b, c) == b
  {
    var s := a + [c] + b;
    assert s[|a|] == c;
    assert s[..|a|] == a;
    assert forall i :: 0 <= i < |a| ==> s[i] == a[i] != c;
    assert s[|a| + 1..] == b;
  }

  /** Around the last occurrence of the separator, `AfterLast` gives back
      the side after it. */
  lemma {:induction false} AfterLastSeparator(a: string, c: char, b: string)
    requires c !in b
    ensures AfterLast(a + [c] + b, c) == b
    decreases |b|
  {
    var s := a + [c] + b;
    if b != [] {
      var b' := b[..|b| - 1];
      assert s[..|s| - 1] == a + [c] + b';
      AfterLastSeparator(a, c, b');
      assert b == b' + [b[|b| - 1]];
    }
  }
}
