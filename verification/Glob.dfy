/**
 Names passed to a shell-pattern matcher: escape_glob() wraps the wildcard characters in brackets.
 The matcher follows section 2.13 of the POSIX.1-2017 Shell Command Language; named classes,
 collating symbols and equivalence classes inside brackets are not part of this model.
 */
module Glob {
  predicate IsWildcard(c: char) {
    c == '*' || c == '?' || c == '['
  }

  /** escape_glob() */
  function Escape(s: string): string {
    if s == "" then ""
    else (if IsWildcard(s[0]) then "[" + [s[0]] + "]" else [s[0]]) + Escape(s[1..])
  }

  /** The first ']' at or after j, or the length of the pattern. */
  function Close(p: string, j: nat): (k: nat)
    requires j <= |p|
    ensures j <= k <= |p| && (k < |p| ==> p[k] == ']')
    decreases |p| - j
  {
    if j == |p| || p[j] == ']' then j else Close(p, j + 1)
  }

  /** Membership in a bracket list of characters and ranges. */
  predicate InList(list: string, c: char)
    decreases |list|
  {
    if list == "" then false
    else if |list| >= 3 && list[1] == '-' then list[0] <= c <= list[2] || InList(list[3..], c)
    else list[0] == c || InList(list[1..], c)
  }

  /** Whether the pattern matches the whole string. */
  predicate Match(p: string, s: string)
    decreases |p| + |s|
  {
    if p == "" then s == ""
    else if p[0] == '*' then Match(p[1..], s) || (s != "" && Match(p, s[1..]))
    else if s == "" then false
    else if p[0] == '?' then Match(p[1..], s[1..])
    else if p[0] == '\\' then |p| > 1 && s[0] == p[1] && Match(p[2..], s[1..])
    else if p[0] == '[' then
      var negated := |p| > 1 && p[1] == '!';
      var first := if negated then 2 else 1;
      var end := if first < |p| then Close(p, first + 1) else |p|;
      if end == |p| then s[0] == '[' && Match(p[1..], s[1..])
      else InList(p[first..end], s[0]) != negated && Match(p[end + 1..], s[1..])
    else s[0] == p[0] && Match(p[1..], s[1..])
  }

  /** A bracketed wildcard stands for itself. */
  lemma BracketedMatches(c: char, rest: string, u: string)
    requires IsWildcard(c)
    ensures Match("[" + [c] + "]" + rest, u) <==> u != "" && u[0] == c && Match(rest, u[1..])
  {
    var p := "[" + [c] + "]" + rest;
    assert p[0] == '[' && p[1] == c && p[2] == ']';
    assert Close(p, 2) == 2;
    assert p[1..2] == [c] && p[3..] == rest;
    if u != "" {
      assert [c][1..] == "";
      assert InList([c], u[0]) <==> u[0] == c;
      assert Match(p, u) <==> InList(p[1..2], u[0]) && Match(p[3..], u[1..]);
    }
  }

  lemma EscapeStep(s: string, u: string)
    requires s != "" && s[0] != '\\'
    ensures Match(Escape(s), u) <==> u != "" && u[0] == s[0] && Match(Escape(s[1..]), u[1..])
  {
    if IsWildcard(s[0]) {
      BracketedMatches(s[0], Escape(s[1..]), u);
    } else {
      assert Escape(s)[0] == s[0] && Escape(s)[1..] == Escape(s[1..]);
    }
  }

  /** Without a backslash, the escaped name matches the name and nothing else. */
  lemma {:induction false} EscapedMatchesItself(s: string, u: string)
    requires '\\' !in s
    ensures Match(Escape(s), u) <==> u == s
    decreases |s|
  {
    if s != "" {
      EscapeStep(s, u);
      if u != "" {
        EscapedMatchesItself(s[1..], u[1..]);
        assert u == s <==> u[0] == s[0] && u[1..] == s[1..] by {
          assert u == [u[0]] + u[1..] && s == [s[0]] + s[1..];
        }
      }
    }
  }

  function Backslashes(n: nat): string {
    seq(n, _ => '\\')
  }

  /** A pattern that has fallen behind by a backslash never catches up. */
  lemma {:induction false} NeverCatchesUp(t: string, n: nat)
    requires n > 0
    ensures !Match(Escape(t), Backslashes(n) + t)
    decreases |t|
  {
    var u := Backslashes(n) + t;
    assert u[0] == '\\';
    if t == "" {
      assert Escape(t) == "";
    } else if t[0] != '\\' {
      EscapeStep(t, u);
    } else if |t| > 1 && t[1] == '\\' {
      var p := Escape(t);
      assert t[1..][1..] == t[2..];
      assert Escape(t[1..]) == "\\" + Escape(t[2..]);
      assert p == "\\" + ("\\" + Escape(t[2..]));
      assert p[1] == '\\' && p[2..] == Escape(t[2..]);
      assert u[1..] == Backslashes(n + 1) + t[2..];
      NeverCatchesUp(t[2..], n + 1);
    } else {
      var p := Escape(t);
      assert p == "\\" + Escape(t[1..]);
      assert |p| > 1 ==> p[1] == Escape(t[1..])[0];
    }
  }

  /** With a backslash, the escaped name does not even match itself. */
  lemma {:induction false} BackslashBreaks(s: string)
    requires '\\' in s
    ensures !Match(Escape(s), s)
    decreases |s|
  {
    if s[0] != '\\' {
      EscapeStep(s, s);
      BackslashBreaks(s[1..]);
    } else if |s| > 1 && s[1] == '\\' {
      var p := Escape(s);
      assert s[1..][1..] == s[2..];
      assert Escape(s[1..]) == "\\" + Escape(s[2..]);
      assert p == "\\" + ("\\" + Escape(s[2..]));
      assert p[1] == '\\' && p[2..] == Escape(s[2..]);
      assert s[1..] == Backslashes(1) + s[2..];
      NeverCatchesUp(s[2..], 1);
    } else {
      var p := Escape(s);
      assert p == "\\" + Escape(s[1..]);
      assert |p| > 1 ==> p[1] == Escape(s[1..])[0];
    }
  }

  /** escape_glob() makes a pattern for exactly one name, precisely when the name has no backslash. */
  lemma EscapeExactly(s: string)
    ensures (forall u :: Match(Escape(s), u) <==> u == s) <==> '\\' !in s
  {
    if '\\' in s {
      BackslashBreaks(s);
    } else {
      forall u
        ensures Match(Escape(s), u) <==> u == s
      {
        EscapedMatchesItself(s, u);
      }
    }
  }
}
