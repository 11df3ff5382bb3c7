/**
 * The parts of java.lang.String the core relies on: indexOf, trim,
 * toLowerCase and equalsIgnoreCase (ASCII letters only), split on a single
 * character, and the lexical compareTo.
 */
module Strings {
  import opened Wrappers

  /** Position of the first `d` in `s` (String.indexOf(char)). */
  function IndexOf(s: string, d: char): (r: Option<nat>)
    ensures r.None? <==> d !in s
    ensures r.Some? ==> r.value < |s| && s[r.value] == d && d !in s[..r.value]
  {
    if s == [] then None
    else if s[0] == d then Some(0)
    else match IndexOf(s[1..], d)
      case None => None
      case Some(i) =>
        assert s[..i + 1] == [s[0]] + s[1..][..i];
        Some(i + 1)
  }

  /** The first `d` of `a + [d] + b` is the one after `a` when `a` has none. */
  lemma {:induction false} IndexOfAfter(a: string, d: char, b: string)
    requires d !in a
    ensures IndexOf(a + [d] + b, d) == Some(|a|)
  {
    if a != [] {
      assert (a + [d] + b)[1..] == a[1..] + [d] + b;
      IndexOfAfter(a[1..], d, b);
    }
  }

  /** Whitespace in the sense of String.trim: every char up to U+0020. */
  predicate IsSpace(c: char) {
    c <= ' '
  }

  function TrimLeft(s: string): (r: string)
    ensures |r| <= |s|
    ensures r == [] || !IsSpace(r[0])
    ensures forall i :: 0 <= i < |s| - |r| ==> IsSpace(s[i])
  {
    if s != [] && IsSpace(s[0]) then TrimLeft(s[1..]) else s
  }

  function TrimRight(s: string): (r: string)
    ensures |r| <= |s|
    ensures r == [] || !IsSpace(r[|r| - 1])
    ensures forall i :: |r| <= i < |s| ==> IsSpace(s[i])
  {
    if s != [] && IsSpace(s[|s| - 1]) then TrimRight(s[..|s| - 1]) else s
  }

  /** What TrimRight keeps is a prefix of its input. */
  lemma TrimRightIsPrefix(s: string)
    ensures TrimRight(s) == s[..|TrimRight(s)|]
  {
  }

  /** String.trim: drops leading and trailing whitespace. */
  function Trim(s: string): (r: string)
    ensures |r| <= |s|
    ensures r == [] || (!IsSpace(r[0]) && !IsSpace(r[|r| - 1]))
  {
    TrimRightIsPrefix(TrimLeft(s));
    TrimRight(TrimLeft(s))
  }

  /** A string without surrounding whitespace is its own trim. */
  lemma TrimNoSpace(s: string)
    requires s == [] || (!IsSpace(s[0]) && !IsSpace(s[|s| - 1]))
    ensures Trim(s) == s
  {
  }

  /** One leading blank is trimmed away. */
  lemma TrimLeadingBlank(s: string)
    requires s != [] && !IsSpace(s[0]) && !IsSpace(s[|s| - 1])
    ensures Trim([' '] + s) == s
  {
    assert ([' '] + s)[1..] == s;
    assert TrimLeft([' '] + s) == TrimLeft(s) == s;
    TrimNoSpace(s);
  }

  function LowerChar(c: char): char {
    if 'A' <= c <= 'Z' then (c as int + 32) as char else c
  }

  /** String.toLowerCase, restricted to ASCII letters. */
  function Lower(s: string): (r: string)
    ensures |r| == |s|
    ensures forall i :: 0 <= i < |s| ==> r[i] == LowerChar(s[i])
  {
    seq(|s|, i requires 0 <= i < |s| => LowerChar(s[i]))
  }

  /** No upper-case ASCII letter occurs in `s`. */
  predicate IsLower(s: string) {
    forall i :: 0 <= i < |s| ==> !('A' <= s[i] <= 'Z')
  }

  lemma LowerIsLower(s: string)
    ensures IsLower(Lower(s))
  {
  }

  lemma LowerOfLower(s: string)
    requires IsLower(s)
    ensures Lower(s) == s
  {
  }

  /** String.equalsIgnoreCase, restricted to ASCII letters. */
  predicate EqualsIgnoreCase(a: string, b: string) {
    Lower(a) == Lower(b)
  }

  /** Only "*" folds to "*". */
  lemma LowerStar(s: string)
    requires Lower(s) == "*"
    ensures s == "*"
  {
    assert LowerChar(s[0]) == '*';
  }

  /** Every piece of `s` between occurrences of `d`, empty pieces included. */
  function Split(s: string, d: char): (r: seq<string>)
    ensures |r| >= 1
    ensures forall i :: 0 <= i < |r| ==> d !in r[i]
    decreases |s|
  {
    match IndexOf(s, d)
    case None => [s]
    case Some(i) => [s[..i]] + Split(s[i + 1..], d)
  }

  /** The pieces `ps` glued together with `d`. */
  function Join(ps: seq<string>, d: char): string
    requires |ps| >= 1
  {
    if |ps| == 1 then ps[0] else ps[0] + [d] + Join(ps[1..], d)
  }

  /** One step of Split: the piece before the first `d`, glued to the rest. */
  lemma JoinSplitStep(s: string, d: char, i: nat)
    requires IndexOf(s, d) == Some(i)
    ensures Join(Split(s, d), d) == s[..i] + [d] + Join(Split(s[i + 1..], d), d)
  {
    var rest := Split(s[i + 1..], d);
    assert Split(s, d) == [s[..i]] + rest;
    assert ([s[..i]] + rest)[1..] == rest;
  }

  lemma {:induction false} JoinSplit(s: string, d: char)
    ensures Join(Split(s, d), d) == s
    decreases |s|
  {
    match IndexOf(s, d)
    case None =>
    case Some(i) =>
      JoinSplitStep(s, d, i);
      JoinSplit(s[i + 1..], d);
      assert s == s[..i] + [d] + s[i + 1..];
  }

  lemma {:induction false} SplitJoin(ps: seq<string>, d: char)
    requires |ps| >= 1
    requires forall i :: 0 <= i < |ps| ==> d !in ps[i]
    ensures Split(Join(ps, d), d) == ps
  {
    if |ps| > 1 {
      SplitJoinStep(ps[0], d, Join(ps[1..], d));
      SplitJoin(ps[1..], d);
      assert ps == [ps[0]] + ps[1..];
    }
  }

  /** Splitting `p + [d] + rest` at its first `d` yields `p` first when `p` has no `d`. */
  lemma SplitJoinStep(p: string, d: char, rest: string)
    requires d !in p
    ensures Split(p + [d] + rest, d) == [p] + Split(rest, d)
  {
    var s := p + [d] + rest;
    IndexOfAfter(p, d, rest);
    assert s[..|p|] == p;
    assert s[|p| + 1..] == rest;
  }

  /** Drops the empty strings at the end of `ps`. */
  function DropTrailingEmpty(ps: seq<string>): (r: seq<string>)
    ensures |r| <= |ps| && r == ps[..|r|]
    ensures r == [] || r[|r| - 1] != []
    ensures forall i :: |r| <= i < |ps| ==> ps[i] == []
  {
    if ps != [] && ps[|ps| - 1] == [] then DropTrailingEmpty(ps[..|ps| - 1]) else ps
  }

  /**
   * String.split with a one-character separator: the string itself when the
   * separator does not occur, otherwise the pieces without trailing empty ones.
   */
  function JavaSplit(s: string, d: char): (r: seq<string>)
    ensures forall i :: 0 <= i < |r| ==> d !in r[i]
  {
    if d !in s then [s] else DropTrailingEmpty(Split(s, d))
  }

  /**
   * Splitting undoes joining whenever the pieces hold no separator and the
   * last piece is not an empty string that split would drop.
   */
  lemma JavaSplitJoin(ps: seq<string>, d: char)
    requires |ps| >= 1
    requires forall i :: 0 <= i < |ps| ==> d !in ps[i]
    requires |ps| == 1 || ps[|ps| - 1] != []
    ensures JavaSplit(Join(ps, d), d) == ps
  {
    SplitJoin(ps, d);
    if |ps| > 1 {
      assert d in Join(ps, d) by {
        assert Join(ps, d)[|ps[0]|] == d;
      }
    }
  }

  /** String.compareTo: first differing char, else the difference in length. */
  function CompareStrings(x: string, y: string): int {
    if x == [] || y == [] then |x| - |y|
    else if x[0] != y[0] then x[0] as int - y[0] as int
    else CompareStrings(x[1..], y[1..])
  }

  lemma {:induction false} CompareStringsAntisymmetric(x: string, y: string)
    ensures CompareStrings(y, x) == -CompareStrings(x, y)
  {
    if x != [] && y != [] && x[0] == y[0] {
      CompareStringsAntisymmetric(x[1..], y[1..]);
    }
  }

  lemma {:induction false} CompareStringsZero(x: string, y: string)
    ensures CompareStrings(x, y) == 0 <==> x == y
  {
    if x != [] && y != [] && x[0] == y[0] {
      CompareStringsZero(x[1..], y[1..]);
      assert x == [x[0]] + x[1..] && y == [y[0]] + y[1..];
    }
  }

  lemma {:induction false} CompareStringsTransitive(x: string, y: string, z: string)
    requires CompareStrings(x, y) < 0 && CompareStrings(y, z) < 0
    ensures CompareStrings(x, z) < 0
  {
    if x != [] && y != [] && z != [] && x[0] == y[0] && y[0] == z[0] {
      CompareStringsTransitive(x[1..], y[1..], z[1..]);
    }
  }

  /** A common prefix does not change the comparison. */
  lemma {:induction false} CompareStringsPrefix(p: string, x: string, y: string)
    ensures CompareStrings(p + x, p + y) == CompareStrings(x, y)
  {
    if p != [] {
      assert (p + x)[0] == p[0] == (p + y)[0];
      assert (p + x)[1..] == p[1..] + x;
      assert (p + y)[1..] == p[1..] + y;
      CompareStringsPrefix(p[1..], x, y);
    } else {
      assert p + x == x && p + y == y;
    }
  }
}
