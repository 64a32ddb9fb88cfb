/** LIKE patterns, SQLite's string functions, and the escaping that makes user text literal. */
module Like {

  datatype TextMode = Contains | Prefix | Suffix

  // ----- What the modes mean -----

  ghost predicate HasPrefix(v: string, s: string) {
    |v| <= |s| && s[..|v|] == v
  }

  ghost predicate HasSuffix(v: string, s: string) {
    |v| <= |s| && s[|s| - |v|..] == v
  }

  ghost predicate HasInfix(v: string, s: string) {
    exists i :: 0 <= i <= |s| && HasPrefix(v, s[i..])
  }

  ghost predicate TextMatches(mode: TextMode, v: string, s: string) {
    match mode
    case Prefix => HasPrefix(v, s)
    case Suffix => HasSuffix(v, s)
    case Contains => HasInfix(v, s)
  }

  // ----- The SQL matcher -----

  /** `%` matches any run, `_` any one character, and the escape character makes its successor
      literal. A trailing escape character matches nothing. */
  predicate Matches(p: string, s: string, escape: char)
    decreases |p| + |s|
  {
    if p == [] then s == []
    else if p[0] == escape then |p| > 1 && s != [] && s[0] == p[1] && Matches(p[2..], s[1..], escape)
    else if p[0] == '%' then Matches(p[1..], s, escape) || (s != [] && Matches(p, s[1..], escape))
    else if p[0] == '_' then s != [] && Matches(p[1..], s[1..], escape)
    else s != [] && s[0] == p[0] && Matches(p[1..], s[1..], escape)
  }

  // ----- Escaping -----

  /** A replacer that puts the escape character before itself, `%` and `_`. */
  function Escape(v: string, escape: char): string {
    if v == [] then []
    else (if v[0] in [escape, '%', '_'] then [escape, v[0]] else [v[0]]) + Escape(v[1..], escape)
  }

  /** The built pattern: the escaped text, wrapped for the mode. */
  function Pattern(mode: TextMode, v: string, escape: char): string {
    match mode
    case Prefix => Escape(v, escape) + "%"
    case Suffix => "%" + Escape(v, escape)
    case Contains => "%" + Escape(v, escape) + "%"
  }

  /** Matching an escaped character first takes that very character. */
  lemma EscapedHead(c: char, rest: string, s: string, escape: char)
    ensures var q := (if c in [escape, '%', '_'] then [escape, c] else [c]) + rest;
      Matches(q, s, escape) <==> s != [] && s[0] == c && Matches(rest, s[1..], escape)
  {
    if c in [escape, '%', '_'] {
      assert ([escape, c] + rest)[2..] == rest;
    } else {
      assert ([c] + rest)[1..] == rest;
    }
  }

  lemma PrefixStep(v: string, s: string)
    requires v != [] && s != []
    ensures HasPrefix(v, s) <==> s[0] == v[0] && HasPrefix(v[1..], s[1..])
    ensures |v| <= |s| ==> s[|v|..] == s[1..][|v| - 1..]
  {
    assert v == [v[0]] + v[1..] && s == [s[0]] + s[1..];
    if |v| <= |s| {
      assert s[..|v|] == [s[0]] + s[1..][..|v| - 1];
    }
  }

  lemma {:induction false} EscapedTextIsLiteral(v: string, p: string, s: string, escape: char)
    ensures Matches(Escape(v, escape) + p, s, escape) <==> HasPrefix(v, s) && Matches(p, s[|v|..], escape)
    decreases v
  {
    hide Matches;
    if v == [] {
      assert Escape(v, escape) + p == p && s[0..] == s;
    } else {
      var head := if v[0] in [escape, '%', '_'] then [escape, v[0]] else [v[0]];
      var rest := Escape(v[1..], escape) + p;
      assert Escape(v, escape) + p == head + rest;
      EscapedHead(v[0], rest, s, escape);
      if s != [] {
        EscapedTextIsLiteral(v[1..], p, s[1..], escape);
        PrefixStep(v, s);
      }
    }
  }

  lemma {:induction false} PercentMatchesAnyRun(p: string, s: string, escape: char)
    requires escape != '%'
    ensures Matches("%" + p, s, escape) <==> exists i :: 0 <= i <= |s| && Matches(p, s[i..], escape)
    decreases s
  {
    assert ("%" + p)[1..] == p;
    assert s[0..] == s;
    if s != [] {
      PercentMatchesAnyRun(p, s[1..], escape);
      forall i | 0 <= i <= |s| - 1
        ensures s[1..][i..] == s[i + 1..]
      {}
      if exists i :: 0 <= i <= |s| && Matches(p, s[i..], escape) {
        var i :| 0 <= i <= |s| && Matches(p, s[i..], escape);
        if i > 0 {
          assert s[1..][i - 1..] == s[i..];
        }
      }
    }
  }

  lemma PercentMatchesAll(s: string, escape: char)
    requires escape != '%'
    ensures Matches("%", s, escape)
  {
    PercentMatchesAnyRun("", s, escape);
    assert "%" + "" == "%";
    assert s[|s|..] == [];
  }

  /** Escaping is exact: whatever the text and the value, the built pattern accepts the text if
      and only if the value is a prefix, suffix or infix of it. */
  lemma PatternExact(mode: TextMode, v: string, s: string, escape: char)
    requires escape != '%'
    ensures Matches(Pattern(mode, v, escape), s, escape) <==> TextMatches(mode, v, s)
  {
    match mode
    case Prefix =>
      EscapedTextIsLiteral(v, "%", s, escape);
      if HasPrefix(v, s) {
        PercentMatchesAll(s[|v|..], escape);
      }
    case Suffix =>
      var e := Escape(v, escape);
      PercentMatchesAnyRun(e, s, escape);
      assert e + "" == e;
      forall i | 0 <= i <= |s|
        ensures Matches(e, s[i..], escape) <==> s[i..] == v
      {
        EscapedTextIsLiteral(v, "", s[i..], escape);
      }
      if HasSuffix(v, s) {
        assert Matches(e, s[|s| - |v|..], escape);
      }
    case Contains =>
      var e := Escape(v, escape);
      PercentMatchesAnyRun(e + "%", s, escape);
      assert "%" + (e + "%") == "%" + e + "%";
      forall i | 0 <= i <= |s|
        ensures Matches(e + "%", s[i..], escape) <==> HasPrefix(v, s[i..])
      {
        EscapedTextIsLiteral(v, "%", s[i..], escape);
        if HasPrefix(v, s[i..]) {
          PercentMatchesAll(s[i..][|v|..], escape);
        }
      }
  }

  // ----- SQLite string functions -----

  predicate StartsAt(s: string, v: string, i: nat) {
    i <= |s| && |v| <= |s| - i && s[i..i + |v|] == v
  }

  /** `instr`: the 1-based position of the first occurrence at or after i, or 0. */
  function InstrFrom(s: string, v: string, i: nat): (r: nat)
    requires i <= |s|
    ensures r == 0 <==> forall k :: i <= k <= |s| ==> !StartsAt(s, v, k)
    ensures r > 0 ==> i < r <= |s| + 1 && StartsAt(s, v, r - 1) && forall k :: i <= k < r - 1 ==> !StartsAt(s, v, k)
    decreases |s| - i
  {
    if StartsAt(s, v, i) then i + 1
    else if i == |s| then 0
    else InstrFrom(s, v, i + 1)
  }

  function Instr(s: string, v: string): nat {
    InstrFrom(s, v, 0)
  }

  /** `substr(s, -n)`: the last n characters, or all of them when there are fewer. */
  function LastChars(s: string, n: nat): string {
    if n <= |s| then s[|s| - n..] else s
  }

  lemma StartsAtIsPrefixOfRest(s: string, v: string, i: nat)
    requires i <= |s|
    ensures StartsAt(s, v, i) <==> HasPrefix(v, s[i..])
  {
    if |v| <= |s| - i {
      assert s[i..][..|v|] == s[i..i + |v|];
    }
  }

  /** The `instr` and `substr` forms decide the same predicate as the LIKE form. */
  lemma StringFunctionsExact(v: string, s: string)
    ensures Instr(s, v) == 1 <==> TextMatches(Prefix, v, s)
    ensures Instr(s, v) > 0 <==> TextMatches(Contains, v, s)
    ensures v != [] ==> (LastChars(s, |v|) == v <==> TextMatches(Suffix, v, s))
  {
    forall i | 0 <= i <= |s|
      ensures StartsAt(s, v, i) <==> HasPrefix(v, s[i..])
    {
      StartsAtIsPrefixOfRest(s, v, i);
    }
    assert s[0..] == s;
    assert Instr(s, v) == 1 <==> StartsAt(s, v, 0);
  }
}
