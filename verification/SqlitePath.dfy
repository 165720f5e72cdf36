/**
 Database paths of the SQLite file system over RADOS: any number of slashes, a pool, a colon, an
 optional namespace, a slash and a name. parsepath() takes a path apart, FullPathname() prints the
 canonical form.
 */
module SqlitePath {
  import opened Wrappers

  datatype Location = Location(pool: string, nspace: string, name: string)

  predicate Digit(c: char) {
    '0' <= c <= '9'
  }

  predicate NameChar(c: char) {
    Digit(c) || 'a' <= c <= 'z' || 'A' <= c <= 'Z' || c == '-' || c == '_' || c == '.'
  }

  predicate Digits(s: string) {
    forall i | 0 <= i < |s| :: Digit(s[i])
  }

  predicate NameChars(s: string) {
    forall i | 0 <= i < |s| :: NameChar(s[i])
  }

  /** A pool name, or a star and the pool's number. */
  predicate PoolOk(pool: string) {
    || (|pool| > 1 && pool[0] == '*' && Digits(pool[1..]))
    || (pool != "" && NameChars(pool))
  }

  predicate LocationOk(loc: Location) {
    PoolOk(loc.pool) && NameChars(loc.nspace) && loc.name != "" && NameChars(loc.name)
  }

  /** The canonical form. */
  function Print(loc: Location): string {
    loc.pool + ":" + loc.nspace + "/" + loc.name
  }

  function Slashes(n: nat): string {
    seq(n, _ => '/')
  }

  /** The path is slashes and a printed location. */
  ghost predicate Spelled(path: string, loc: Location) {
    LocationOk(loc) && exists n: nat :: path == Slashes(n) + Print(loc)
  }

  // ---------------------------------------------------------------- the regular expressions

  /** A bracket expression: named classes and single characters. */
  datatype Class = Class(digit: bool, alpha: bool, chars: string)

  datatype Re = Lit(c: char) | OneOf(cls: Class) | Cat(a: Re, b: Re) | Star(r: Re)

  predicate InClass(cls: Class, c: char) {
    || (cls.digit && '0' <= c <= '9')
    || (cls.alpha && ('a' <= c <= 'z' || 'A' <= c <= 'Z'))
    || c in cls.chars
  }

  ghost predicate Matches(re: Re, s: string)
    decreases re, |s|
  {
    match re
    case Lit(c) => s == [c]
    case OneOf(cls) => |s| == 1 && InClass(cls, s[0])
    case Cat(a, b) => exists i: nat | i <= |s| :: Matches(a, s[..i]) && Matches(b, s[i..])
    case Star(r) => s == "" || exists i: nat | 0 < i <= |s| :: Matches(r, s[..i]) && Matches(re, s[i..])
  }

  /** A part of an expression, captured or not. */
  datatype Part = Plain(re: Re) | Group(re: Re)

  /** The whole text matches the parts in order, and the groups have captured these. */
  ghost predicate MatchParts(parts: seq<Part>, s: string, groups: seq<string>)
    decreases |parts|
  {
    if parts == [] then s == "" && groups == []
    else
      match parts[0]
      case Plain(re) => exists i: nat | i <= |s| :: Matches(re, s[..i]) && MatchParts(parts[1..], s[i..], groups)
      case Group(re) =>
        && groups != [] && groups[0] <= s && Matches(re, groups[0])
        && MatchParts(parts[1..], s[|groups[0]|..], groups[1..])
  }

  const DIGITS := OneOf(Class(true, false, ""))
  const WORD := OneOf(Class(true, true, "-_."))

  /** The expression for a pool number, and the one for a pool name. */
  function Pattern(pool: Re): seq<Part> {
    [Plain(Star(Lit('/'))), Group(pool), Plain(Lit(':')), Group(Star(WORD)), Plain(Lit('/')), Group(Cat(WORD, Star(WORD)))]
  }

  const POOL_NUMBER := Cat(Lit('*'), Cat(DIGITS, Star(DIGITS)))
  const POOL_NAME := Cat(WORD, Star(WORD))

  /** One of the two expressions matches the whole path with these three groups. */
  ghost predicate Accepts(path: string, loc: Location) {
    var groups := [loc.pool, loc.nspace, loc.name];
    MatchParts(Pattern(POOL_NUMBER), path, groups) || MatchParts(Pattern(POOL_NAME), path, groups)
  }

  lemma {:induction false} StarOf(cls: Class, s: string)
    ensures Matches(Star(OneOf(cls)), s) <==> forall i | 0 <= i < |s| :: InClass(cls, s[i])
    decreases |s|
  {
    if s != "" {
      StarOf(cls, s[1..]);
      assert s[..1] == [s[0]];
      assert Matches(OneOf(cls), s[..1]) <==> InClass(cls, s[0]);
      if Matches(Star(OneOf(cls)), s) {
        var i: nat :| 0 < i <= |s| && Matches(OneOf(cls), s[..i]) && Matches(Star(OneOf(cls)), s[i..]);
        assert i == 1;
      }
      assert (forall i | 0 <= i < |s| :: InClass(cls, s[i])) <==>
             InClass(cls, s[0]) && forall i | 0 <= i < |s[1..]| :: InClass(cls, s[1..][i]);
    }
  }

  lemma PlusOf(cls: Class, s: string)
    ensures Matches(Cat(OneOf(cls), Star(OneOf(cls))), s) <==> s != "" && forall i | 0 <= i < |s| :: InClass(cls, s[i])
  {
    if Matches(Cat(OneOf(cls), Star(OneOf(cls))), s) {
      var i: nat :| i <= |s| && Matches(OneOf(cls), s[..i]) && Matches(Star(OneOf(cls)), s[i..]);
      assert |s[..i]| == 1 && i == 1;
      StarOf(cls, s[1..]);
      assert forall k | 1 <= k < |s| :: s[k] == s[1..][k - 1];
    }
    if s != "" && forall i | 0 <= i < |s| :: InClass(cls, s[i]) {
      StarOf(cls, s[1..]);
      assert Matches(OneOf(cls), s[..1]) && Matches(Star(OneOf(cls)), s[1..]);
    }
  }

  lemma {:induction false} StarSlash(s: string)
    ensures Matches(Star(Lit('/')), s) <==> s == Slashes(|s|)
    decreases |s|
  {
    if s != "" {
      StarSlash(s[1..]);
      assert s[..1] == [s[0]] && Slashes(|s|) == ['/'] + Slashes(|s| - 1);
      if Matches(Star(Lit('/')), s) {
        var i: nat :| 0 < i <= |s| && Matches(Lit('/'), s[..i]) && Matches(Star(Lit('/')), s[i..]);
        assert i == 1 && s == s[..1] + s[1..];
      }
      if s == Slashes(|s|) {
        assert s[1..] == Slashes(|s| - 1);
      }
    }
  }

  lemma NumberOf(s: string)
    ensures Matches(POOL_NUMBER, s) <==> |s| > 1 && s[0] == '*' && Digits(s[1..])
  {
    var digits := Class(true, false, "");
    var rest := Cat(DIGITS, Star(DIGITS));
    if s != "" {
      PlusOf(digits, s[1..]);
      assert s[..1] == [s[0]];
    }
    if Matches(POOL_NUMBER, s) {
      var i: nat :| i <= |s| && Matches(Lit('*'), s[..i]) && Matches(rest, s[i..]);
      assert i == 1;
    }
    if |s| > 1 && s[0] == '*' && Digits(s[1..]) {
      assert Matches(Lit('*'), s[..1]) && Matches(rest, s[1..]);
    }
  }

  lemma NameOf(s: string)
    ensures Matches(POOL_NAME, s) <==> s != "" && NameChars(s)
    ensures Matches(Star(WORD), s) <==> NameChars(s)
  {
    var word := Class(true, true, "-_.");
    PlusOf(word, s);
    StarOf(word, s);
    assert forall c: char :: InClass(word, c) <==> NameChar(c);
  }

  /** A single character that is not captured. */
  lemma LitPart(c: char, parts: seq<Part>, s: string, groups: seq<string>)
    requires parts != [] && parts[0] == Plain(Lit(c))
    ensures MatchParts(parts, s, groups) <==> s != "" && s[0] == c && MatchParts(parts[1..], s[1..], groups)
  {
    if MatchParts(parts, s, groups) {
      var i: nat :| i <= |s| && Matches(Lit(c), s[..i]) && MatchParts(parts[1..], s[i..], groups);
      assert i == 1;
    }
    if s != "" && s[0] == c && MatchParts(parts[1..], s[1..], groups) {
      assert s[..1] == [c];
    }
  }

  /** A captured part: the text begins with the group, and the rest matches the other parts. */
  lemma GroupPart(parts: seq<Part>, s: string, g: string, groups: seq<string>)
    requires parts != [] && parts[0].Group?
    ensures MatchParts(parts, s, [g] + groups) <==>
              g <= s && Matches(parts[0].re, g) && MatchParts(parts[1..], s[|g|..], groups)
  {
    assert ([g] + groups)[1..] == groups;
  }

  lemma NamePart(parts: seq<Part>, s: string, name: string)
    requires parts == [Plain(Lit('/')), Group(POOL_NAME)]
    ensures MatchParts(parts, s, [name]) <==> s == ['/'] + name && name != "" && NameChars(name)
  {
    hide Matches;
    LitPart('/', parts, s, [name]);
    NameOf(name);
    if s != "" { LastGroup(parts[1..], s[1..], name); }
  }

  lemma NamespacePart(parts: seq<Part>, s: string, nspace: string, name: string)
    requires parts == [Group(Star(WORD)), Plain(Lit('/')), Group(POOL_NAME)]
    ensures MatchParts(parts, s, [nspace, name]) <==>
              s == nspace + (['/'] + name) && NameChars(nspace) && name != "" && NameChars(name)
  {
    hide Matches; hide MatchParts;
    assert [nspace, name] == [nspace] + [name];
    GroupPart(parts, s, nspace, [name]);
    NameOf(nspace);
    if nspace <= s {
      NamePart(parts[1..], s[|nspace|..], name);
      assert s == nspace + s[|nspace|..];
    }
  }

  lemma ColonPart(parts: seq<Part>, s: string, nspace: string, name: string)
    requires parts == [Plain(Lit(':')), Group(Star(WORD)), Plain(Lit('/')), Group(POOL_NAME)]
    ensures MatchParts(parts, s, [nspace, name]) <==>
              s == [':'] + (nspace + (['/'] + name)) && NameChars(nspace) && name != "" && NameChars(name)
  {
    hide Matches; hide MatchParts;
    LitPart(':', parts, s, [nspace, name]);
    if s != "" {
      NamespacePart(parts[1..], s[1..], nspace, name);
      assert s == [s[0]] + s[1..];
    }
  }

  /** What the parts after the slashes come to, for any expression for the pool. */
  lemma AfterSlashes(pool: Re, s: string, loc: Location)
    ensures MatchParts(Pattern(pool)[1..], s, [loc.pool, loc.nspace, loc.name]) <==>
              && s == Print(loc) && Matches(pool, loc.pool)
              && NameChars(loc.nspace) && loc.name != "" && NameChars(loc.name)
  {
    hide Matches; hide MatchParts;
    var parts := Pattern(pool)[1..];
    assert [loc.pool, loc.nspace, loc.name] == [loc.pool] + [loc.nspace, loc.name];
    GroupPart(parts, s, loc.pool, [loc.nspace, loc.name]);
    PrintInParts(loc);
    var tail := [':'] + (loc.nspace + (['/'] + loc.name));
    assert Print(loc) == loc.pool + tail;
    if loc.pool <= s {
      ColonPart(parts[1..], s[|loc.pool|..], loc.nspace, loc.name);
      assert s == loc.pool + s[|loc.pool|..];
    }
  }

  lemma LastGroup(parts: seq<Part>, s: string, name: string)
    requires |parts| == 1 && parts[0].Group?
    ensures MatchParts(parts, s, [name]) <==> s == name && Matches(parts[0].re, name)
  {
    assert [name][1..] == [] && parts[1..] == [];
    if MatchParts(parts, s, [name]) {
      assert s == name + s[|name|..];
    }
  }

  /** Leading slashes that are not captured. */
  lemma SlashesPart(parts: seq<Part>, s: string, groups: seq<string>)
    requires parts != [] && parts[0] == Plain(Star(Lit('/')))
    ensures MatchParts(parts, s, groups) <==>
              exists n: nat :: n <= |s| && s[..n] == Slashes(n) && MatchParts(parts[1..], s[n..], groups)
  {
    if MatchParts(parts, s, groups) {
      var n: nat :| n <= |s| && Matches(Star(Lit('/')), s[..n]) && MatchParts(parts[1..], s[n..], groups);
      StarSlash(s[..n]);
    }
    if n: nat :| n <= |s| && s[..n] == Slashes(n) && MatchParts(parts[1..], s[n..], groups) {
      StarSlash(s[..n]);
    }
  }

  lemma PatternMeans(pool: Re, path: string, loc: Location)
    ensures MatchParts(Pattern(pool), path, [loc.pool, loc.nspace, loc.name]) <==>
              && (exists n: nat :: path == Slashes(n) + Print(loc)) && Matches(pool, loc.pool)
              && NameChars(loc.nspace) && loc.name != "" && NameChars(loc.name)
  {
    hide Matches; hide MatchParts; hide Print; hide NameChars;
    var groups, p := [loc.pool, loc.nspace, loc.name], Pattern(pool);
    SlashesPart(p, path, groups);
    if n: nat :| n <= |path| && path[..n] == Slashes(n) && MatchParts(p[1..], path[n..], groups) {
      AfterSlashes(pool, path[n..], loc);
      assert path == Slashes(n) + Print(loc);
    }
    if n: nat :| path == Slashes(n) + Print(loc) {
      assert path[..n] == Slashes(n) && path[n..] == Print(loc);
      AfterSlashes(pool, path[n..], loc);
    }
  }

  /** The two expressions accept exactly the paths that are slashes and a printed location. */
  lemma AcceptsExactly(path: string, loc: Location)
    ensures Accepts(path, loc) <==> Spelled(path, loc)
  {
    hide Matches; hide MatchParts; hide Print; hide Pattern;
    PatternMeans(POOL_NUMBER, path, loc);
    PatternMeans(POOL_NAME, path, loc);
    NumberOf(loc.pool);
    NameOf(loc.pool);
  }

  // ---------------------------------------------------------------- the parser

  function SkipSlashes(path: string): string {
    if path != "" && path[0] == '/' then SkipSlashes(path[1..]) else path
  }

  function IndexOf(s: string, c: char): (i: nat)
    ensures i <= |s| && (i < |s| ==> s[i] == c) && forall k | 0 <= k < i :: s[k] != c
  {
    if s == "" || s[0] == c then 0 else 1 + IndexOf(s[1..], c)
  }

  /** parsepath() */
  function ParsePath(path: string): Option<Location> {
    ParseStripped(SkipSlashes(path))
  }

  function ParseStripped(s: string): Option<Location> {
    var i := IndexOf(s, ':');
    if i == |s| then None
    else
      var rest := s[i + 1..];
      var j := IndexOf(rest, '/');
      if j == |rest| then None
      else
        var loc := Location(s[..i], rest[..j], rest[j + 1..]);
        if LocationOk(loc) then Some(loc) else None
  }

  lemma {:induction false} SkipSlashesPrefix(path: string) returns (n: nat)
    ensures path == Slashes(n) + SkipSlashes(path)
    decreases |path|
  {
    if path != "" && path[0] == '/' {
      var m := SkipSlashesPrefix(path[1..]);
      n := m + 1;
      assert path == ['/'] + path[1..];
      assert Slashes(n) == ['/'] + Slashes(m);
    } else {
      n := 0;
    }
  }

  lemma {:induction false} SkipSlashesOf(n: nat, s: string)
    requires s != "" && s[0] != '/'
    ensures SkipSlashes(Slashes(n) + s) == s
    decreases n
  {
    if n > 0 {
      assert (Slashes(n) + s)[1..] == Slashes(n - 1) + s;
      SkipSlashesOf(n - 1, s);
    } else {
      assert Slashes(0) + s == s;
    }
  }

  lemma IndexOfFirst(a: string, c: char, b: string)
    requires forall k | 0 <= k < |a| :: a[k] != c
    ensures var s := a + [c] + b; IndexOf(s, c) == |a| && s[..|a|] == a && s[|a| + 1..] == b
  {
    var s := a + [c] + b;
    var i := IndexOf(s, c);
    assert forall k | 0 <= k < |a| :: s[k] == a[k];
    assert s[|a|] == c;
  }

  lemma PoolStart(pool: string)
    requires PoolOk(pool)
    ensures pool[0] != '/' && forall k | 0 <= k < |pool| :: pool[k] != ':'
  {
    if !NameChars(pool) {
      forall k | 0 <= k < |pool|
        ensures pool[k] != ':'
      {
        assert k > 0 ==> pool[k] == pool[1..][k - 1];
      }
    }
  }

  lemma ParsePrinted(loc: Location)
    requires LocationOk(loc)
    ensures ParseStripped(Print(loc)) == Some(loc)
  {
    PoolStart(loc.pool);
    var rest := loc.nspace + ['/'] + loc.name;
    assert Print(loc) == loc.pool + [':'] + rest;
    IndexOfFirst(loc.pool, ':', rest);
    IndexOfFirst(loc.nspace, '/', loc.name);
  }

  /** Whatever is spelled so is parsed, to that very location. */
  lemma ParseComplete(path: string, loc: Location)
    requires Spelled(path, loc)
    ensures ParsePath(path) == Some(loc)
  {
    var n: nat :| path == Slashes(n) + Print(loc);
    PoolStart(loc.pool);
    assert Print(loc)[0] == loc.pool[0];
    SkipSlashesOf(n, Print(loc));
    ParsePrinted(loc);
  }

  lemma SplitAt(s: string, i: nat)
    requires i < |s|
    ensures s == s[..i] + [s[i]] + s[i + 1..]
  {
  }

  lemma PrintInParts(loc: Location)
    ensures Print(loc) == loc.pool + [':'] + (loc.nspace + ['/'] + loc.name)
  {
  }

  lemma SplitPrints(s: string)
    requires ParseStripped(s).Some?
    ensures LocationOk(ParseStripped(s).value) && s == Print(ParseStripped(s).value)
  {
    hide LocationOk; hide Print;
    var i := IndexOf(s, ':');
    var rest := s[i + 1..];
    var j := IndexOf(rest, '/');
    SplitAt(s, i);
    SplitAt(rest, j);
    PrintInParts(ParseStripped(s).value);
  }

  /** Whatever is parsed is spelled so. */
  lemma ParseSound(path: string)
    requires ParsePath(path).Some?
    ensures Spelled(path, ParsePath(path).value)
  {
    hide ParseStripped; hide SkipSlashes; hide LocationOk; hide Print;
    var n := SkipSlashesPrefix(path);
    SplitPrints(SkipSlashes(path));
  }

  /** The parser decides the expressions, and every accepted path has one decomposition. */
  lemma ParseExactly(path: string, loc: Location)
    ensures ParsePath(path) == Some(loc) <==> Accepts(path, loc)
  {
    AcceptsExactly(path, loc);
    if ParsePath(path) == Some(loc) { ParseSound(path); }
    if Spelled(path, loc) { ParseComplete(path, loc); }
  }

  // ---------------------------------------------------------------- the canonical form

  datatype FullPath = Full(path: string) | NotFound | CantOpen

  /** FullPathname() with an output buffer of `room` bytes. */
  function FullPathname(path: string, room: int): FullPath {
    var loc := ParsePath(path);
    if loc.None? then NotFound
    else if |Print(loc.value)| >= room then CantOpen
    else Full(Print(loc.value))
  }

  /**
   The result for every path and buffer: the printed location if one is accepted and its text fits
   with a byte to spare for the end; otherwise which of the two is missing.
   */
  lemma FullPathnameExactly(path: string, room: int)
    ensures FullPathname(path, room).NotFound? <==> forall loc :: !Accepts(path, loc)
    ensures forall loc | Accepts(path, loc) ::
              FullPathname(path, room) == if |Print(loc)| + 1 <= room then Full(Print(loc)) else CantOpen
  {
    hide Accepts; hide ParsePath; hide Print;
    forall loc: Location
      ensures ParsePath(path) == Some(loc) <==> Accepts(path, loc)
    {
      ParseExactly(path, loc);
    }
  }

  /** The canonical path names the same location. */
  lemma PrintParses(path: string)
    requires ParsePath(path).Some?
    ensures ParsePath(Print(ParsePath(path).value)) == ParsePath(path)
  {
    var loc := ParsePath(path).value;
    ParseSound(path);
    assert Slashes(0) + Print(loc) == Print(loc);
    ParseComplete(Print(loc), loc);
  }

  /** Making a path canonical twice changes nothing, and two paths share a form exactly when they share a location. */
  lemma FullPathnameCanonical(path: string, other: string, room: int)
    requires FullPathname(path, room).Full? && FullPathname(other, room).Full?
    ensures FullPathname(FullPathname(path, room).path, room) == FullPathname(path, room)
    ensures FullPathname(path, room) == FullPathname(other, room) <==> ParsePath(path) == ParsePath(other)
  {
    PrintParses(path);
    PrintParses(other);
  }
}
