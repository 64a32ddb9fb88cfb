/** Text: trimming white space, splitting at separators and joining again. */
module Texts {

  /** The white space of Unicode. */
  predicate IsSpace(c: char) {
    || '\t' <= c <= '\r' || c == ' ' || c == '\U{85}' || c == '\U{A0}' || c == '\U{1680}'
    || '\U{2000}' <= c <= '\U{200A}' || '\U{2028}' <= c <= '\U{2029}'
    || c == '\U{202F}' || c == '\U{205F}' || c == '\U{3000}'
  }

  const WHITE_SPACE := {
    '\t', '\n', '\U{B}', '\U{C}', '\r', ' ', '\U{85}', '\U{A0}', '\U{1680}',
    '\U{2000}', '\U{2001}', '\U{2002}', '\U{2003}', '\U{2004}', '\U{2005}', '\U{2006}', '\U{2007}', '\U{2008}',
    '\U{2009}', '\U{200A}', '\U{2028}', '\U{2029}', '\U{202F}', '\U{205F}', '\U{3000}'}

  /** These are the characters that Unicode lists as white space. */
  lemma WhiteSpaceExact(c: char)
    ensures IsSpace(c) <==> c in WHITE_SPACE
  {}

  function TrimLeft(s: string): string {
    if s != [] && IsSpace(s[0]) then TrimLeft(s[1..]) else s
  }

  function TrimRight(s: string, drop: char -> bool): string {
    if s != [] && drop(s[|s| - 1]) then TrimRight(s[..|s| - 1], drop) else s
  }

  function TrimSpace(s: string): string {
    TrimRight(TrimLeft(s), IsSpace)
  }

  lemma {:induction false} TrimmedEnd(s: string)
    ensures var t := TrimRight(s, IsSpace);
      && (t != [] ==> !IsSpace(t[|t| - 1]))
      && (s != [] && !IsSpace(s[0]) ==> t != [] && t[0] == s[0])
    decreases |s|
  {
    if s != [] && IsSpace(s[|s| - 1]) {
      TrimmedEnd(s[..|s| - 1]);
    }
  }

  lemma {:induction false} TrimmedStart(s: string)
    ensures TrimLeft(s) != [] ==> !IsSpace(TrimLeft(s)[0])
  {
    if s != [] && IsSpace(s[0]) {
      TrimmedStart(s[1..]);
    }
  }

  /** What trimming leaves is not blank. */
  lemma TrimmedIsNotBlank(s: string)
    requires TrimSpace(s) != []
    ensures TrimSpace(TrimSpace(s)) != []
  {
    TrimmedStart(s);
    var l := TrimLeft(s);
    if l != [] {
      TrimmedEnd(l);
      TrimmedEnd(TrimSpace(s));
    }
  }

  /** What is dropped from the end is the longest run of characters to drop. */
  lemma {:induction false} TrimRightIff(s: string, drop: char -> bool, t: string)
    ensures TrimRight(s, drop) == t <==>
      t <= s && (t == [] || !drop(t[|t| - 1])) && forall i :: |t| <= i < |s| ==> drop(s[i])
    decreases |s|
  {
    if s != [] && drop(s[|s| - 1]) {
      TrimRightIff(s[..|s| - 1], drop, t);
      assert t == s ==> t[|t| - 1] == s[|s| - 1];
    }
  }

  lemma {:induction false} TrimLeftIff(s: string, t: string)
    ensures TrimLeft(s) == t <==>
      |t| <= |s| && t == s[|s| - |t|..] && (t == [] || !IsSpace(t[0])) && forall i :: 0 <= i < |s| - |t| ==> IsSpace(s[i])
  {
    if s != [] && IsSpace(s[0]) {
      TrimLeftIff(s[1..], t);
      if |t| < |s| {
        assert s[1..][|s| - 1 - |t|..] == s[|s| - |t|..];
        assert forall i :: 0 < i < |s| - |t| ==> s[i] == s[1..][i - 1];
      }
    }
  }

  /** White space ends where the trimmed text starts, and starts where it ends. */
  predicate TrimmedTo(s: string, i: nat, j: nat) {
    && i <= j <= |s| && (forall k :: 0 <= k < |s| && !(i <= k < j) ==> IsSpace(s[k]))
    && (i < j ==> !IsSpace(s[i]) && !IsSpace(s[j - 1]))
  }

  lemma TrimmedOnce(s: string, i: nat, j: nat, a: nat, b: nat)
    requires TrimmedTo(s, i, j) && TrimmedTo(s, a, b)
    ensures s[i..j] == s[a..b]
  {
    hide IsSpace;
    if i < j {
      assert a <= i < b && a <= j - 1 < b;
      assert i == a && j == b;
    }
  }

  /** Trimming takes off the white space on both sides, and nothing else. */
  lemma TrimmedIff(s: string, t: string)
    ensures TrimSpace(s) == t <==> exists i: nat, j: nat :: TrimmedTo(s, i, j) && t == s[i..j]
  {
    hide IsSpace, TrimLeft, TrimRight;
    var l, r := TrimLeft(s), TrimSpace(s);
    TrimLeftIff(s, l);
    TrimRightIff(l, IsSpace, r);
    var a := |s| - |l|;
    assert forall k :: 0 <= k < |l| ==> l[k] == s[a + k];
    assert forall k :: a <= k < |s| ==> s[k] == l[k - a];
    assert r == s[a..a + |r|];
    assert TrimmedTo(s, a, a + |r|);
    if i: nat, j: nat :| TrimmedTo(s, i, j) && t == s[i..j] {
      TrimmedOnce(s, i, j, a, a + |r|);
    }
  }

  // ----- Splitting and joining -----

  function Join<T(==)>(sep: T, segments: seq<seq<T>>): seq<T> {
    if segments == [] then []
    else if |segments| == 1 then segments[0]
    else Join(sep, segments[..|segments| - 1]) + [sep] + segments[|segments| - 1]
  }

  /** The parts between separators; a text without one is one part. */
  function Split<T(==)>(sep: T, v: seq<T>): (parts: seq<seq<T>>)
    ensures parts != []
    ensures forall i :: 0 <= i < |parts| ==> sep !in parts[i]
  {
    if v == [] then [[]]
    else
      var parts, last := Split(sep, v[..|v| - 1]), v[|v| - 1];
      if last == sep then parts + [[]]
      else parts[..|parts| - 1] + [parts[|parts| - 1] + [last]]
  }

  lemma {:induction false} SplitAtLast<T>(sep: T, a: seq<T>, b: seq<T>)
    requires sep !in b
    ensures Split(sep, a + [sep] + b) == Split(sep, a) + [b]
    decreases |b|
  {
    var v := a + [sep] + b;
    if b == [] {
      assert v[..|v| - 1] == a;
    } else {
      var front := b[..|b| - 1];
      assert v[..|v| - 1] == a + [sep] + front;
      SplitAtLast(sep, a, front);
      assert front + [b[|b| - 1]] == b;
    }
  }

  lemma {:induction false} SplitWithout<T>(sep: T, b: seq<T>)
    requires sep !in b
    ensures Split(sep, b) == [b]
    decreases |b|
  {
    if b != [] {
      SplitWithout(sep, b[..|b| - 1]);
      assert b[..|b| - 1] + [b[|b| - 1]] == b;
    }
  }

  lemma JoinExtended<T>(sep: T, parts: seq<seq<T>>, x: seq<T>)
    requires parts != []
    ensures Join(sep, parts + [x]) == Join(sep, parts) + [sep] + x
  {
    assert (parts + [x])[..|parts|] == parts;
  }

  lemma JoinLonger<T>(sep: T, init: seq<seq<T>>, last: seq<T>, x: T)
    ensures Join(sep, init + [last + [x]]) == Join(sep, init + [last]) + [x]
  {
    if init != [] {
      JoinExtended(sep, init, last);
      JoinExtended(sep, init, last + [x]);
    }
  }

  /** Joining what was split gives the text back. */
  lemma {:induction false} JoinSplit<T>(sep: T, v: seq<T>)
    ensures Join(sep, Split(sep, v)) == v
    decreases |v|
  {
    if v != [] {
      hide Join;
      var front, last := v[..|v| - 1], v[|v| - 1];
      JoinSplit(sep, front);
      var parts := Split(sep, front);
      assert v == front + [last];
      if last == sep {
        JoinExtended(sep, parts, []);
      } else {
        assert parts == parts[..|parts| - 1] + [parts[|parts| - 1]];
        JoinLonger(sep, parts[..|parts| - 1], parts[|parts| - 1], last);
      }
    }
  }

  /** Splitting what was joined gives the parts back. */
  lemma {:induction false} SplitJoin<T>(sep: T, parts: seq<seq<T>>)
    requires parts != [] && forall i :: 0 <= i < |parts| ==> sep !in parts[i]
    ensures Split(sep, Join(sep, parts)) == parts
    decreases |parts|
  {
    var init, last := parts[..|parts| - 1], parts[|parts| - 1];
    assert parts == init + [last];
    if init == [] {
      SplitWithout(sep, last);
    } else {
      SplitJoin(sep, init);
      SplitAtLast(sep, Join(sep, init), last);
    }
  }

  // ----- The words of a text -----

  predicate Blank(s: string) {
    forall c :: c in s ==> IsSpace(c)
  }

  predicate IsWord(s: string) {
    s != [] && forall c :: c in s ==> !IsSpace(c)
  }

  /** The runs of characters between white space. */
  function Fields(s: string): (words: seq<string>)
    ensures s != [] && !IsSpace(s[|s| - 1]) ==> words != []
  {
    if s == [] then []
    else
      var k := |s| - 1;
      var front := Fields(s[..k]);
      if IsSpace(s[k]) then front
      else if k > 0 && !IsSpace(s[k - 1]) then front[..|front| - 1] + [front[|front| - 1] + [s[k]]]
      else front + [[s[k]]]
  }

  /** Words with a gap in front of each and one behind the last. */
  function Interleaved(gaps: seq<string>, words: seq<string>): string
    requires |gaps| == |words| + 1
  {
    if words == [] then gaps[0]
    else
      var n := |words|;
      Interleaved(gaps[..n], words[..n - 1]) + words[n - 1] + gaps[n]
  }

  /** Gaps are white space, and only the outer two may be empty. */
  predicate Separating(gaps: seq<string>) {
    && (forall i :: 0 <= i < |gaps| ==> Blank(gaps[i]))
    && (forall i :: 0 < i < |gaps| - 1 ==> gaps[i] != [])
  }

  /** The text consists of the words with white space around and between them. */
  ghost predicate SpacedOut(s: string, words: seq<string>) {
    && (forall i :: 0 <= i < |words| ==> IsWord(words[i]))
    && exists gaps :: |gaps| == |words| + 1 && Separating(gaps) && s == Interleaved(gaps, words)
  }

  lemma {:induction false} FieldsBeforeGap(s: string, gap: string)
    requires Blank(gap)
    ensures Fields(s + gap) == Fields(s)
    decreases |gap|
  {
    if gap == [] {
      assert s + gap == s;
    } else {
      var k := |gap| - 1;
      assert (s + gap)[..|s| + k] == s + gap[..k];
      FieldsBeforeGap(s, gap[..k]);
    }
  }

  lemma WordBegins(s: string, c: char)
    requires !IsSpace(c) && (s != [] ==> IsSpace(s[|s| - 1]))
    ensures Fields(s + [c]) == Fields(s) + [[c]]
  {
    assert (s + [c])[..|s|] == s;
  }

  lemma WordGoesOn(s: string, front: seq<string>, w: string, c: char)
    requires s != [] && !IsSpace(s[|s| - 1]) && !IsSpace(c) && Fields(s) == front + [w]
    ensures Fields(s + [c]) == front + [w + [c]]
  {
    assert (s + [c])[..|s|] == s;
  }

  lemma {:induction false} FieldsBeforeWord(s: string, w: string)
    requires IsWord(w) && (s != [] ==> IsSpace(s[|s| - 1]))
    ensures Fields(s + w) == Fields(s) + [w]
    decreases |w|
  {
    hide Fields, IsSpace;
    var k := |w| - 1;
    assert w == w[..k] + [w[k]];
    if k == 0 {
      WordBegins(s, w[0]);
    } else {
      FieldsBeforeWord(s, w[..k]);
      assert s + w == (s + w[..k]) + [w[k]];
      assert (s + w[..k])[|s| + k - 1] == w[k - 1];
      WordGoesOn(s + w[..k], Fields(s), w[..k], w[k]);
    }
  }

  lemma {:induction false} FieldsOfInterleaved(gaps: seq<string>, words: seq<string>)
    requires |gaps| == |words| + 1 && Separating(gaps) && forall i :: 0 <= i < |words| ==> IsWord(words[i])
    ensures Fields(Interleaved(gaps, words)) == words
    ensures var s := Interleaved(gaps, words); gaps[|words|] != [] ==> s != [] && IsSpace(s[|s| - 1])
    ensures words == [] ==> Blank(Interleaved(gaps, words))
    decreases |words|
  {
    hide Fields, IsSpace;
    var n := |words|;
    if n == 0 {
      FieldsBeforeGap([], gaps[0]);
      assert [] + gaps[0] == gaps[0] && Fields([]) == [] by {
        NoFields();
      }
      LastIsSpace(gaps[0]);
    } else {
      FieldsOfInterleaved(gaps[..n], words[..n - 1]);
      var front := Interleaved(gaps[..n], words[..n - 1]);
      if front != [] && n == 1 {
        LastIsSpace(front);
      }
      FieldsBeforeWord(front, words[n - 1]);
      FieldsBeforeGap(front + words[n - 1], gaps[n]);
      assert words == words[..n - 1] + [words[n - 1]];
      LastIsSpace(gaps[n]);
    }
  }

  lemma NoFields()
    ensures Fields([]) == []
  {}

  lemma LastIsSpace(s: string)
    requires Blank(s)
    ensures s != [] ==> IsSpace(s[|s| - 1])
  {}

  lemma GapLonger(gaps: seq<string>, words: seq<string>, c: char)
    requires |gaps| == |words| + 1
    ensures var n := |words|; Interleaved(gaps[..n] + [gaps[n] + [c]], words) == Interleaved(gaps, words) + [c]
  {
    var n := |words|;
    assert (gaps[..n] + [gaps[n] + [c]])[..n] == gaps[..n];
  }

  lemma WordLonger(gaps: seq<string>, words: seq<string>, c: char)
    requires |gaps| == |words| + 1 && words != [] && gaps[|words|] == []
    ensures var n := |words|;
      Interleaved(gaps, words[..n - 1] + [words[n - 1] + [c]]) == Interleaved(gaps, words) + [c]
  {
    var n := |words|;
    assert (words[..n - 1] + [words[n - 1] + [c]])[..n - 1] == words[..n - 1];
  }

  lemma WordAdded(gaps: seq<string>, words: seq<string>, w: string)
    requires |gaps| == |words| + 1
    ensures Interleaved(gaps + [[]], words + [w]) == Interleaved(gaps, words) + w
  {
    assert (gaps + [[]])[..|gaps|] == gaps && (words + [w])[..|words|] == words;
  }

  ghost predicate GapsAround(gaps: seq<string>, words: seq<string>, s: string) {
    && (forall i :: 0 <= i < |words| ==> IsWord(words[i]))
    && |gaps| == |words| + 1 && Separating(gaps) && s == Interleaved(gaps, words)
    && (s != [] ==> (IsSpace(s[|s| - 1]) <==> gaps[|words|] != []))
  }

  lemma SpaceFollows(s: string, c: char)
    requires IsSpace(c)
    ensures Fields(s + [c]) == Fields(s)
  {
    assert (s + [c])[..|s|] == s;
  }

  lemma GapsWithSpace(gaps: seq<string>, words: seq<string>, s: string, c: char) returns (longer: seq<string>)
    requires GapsAround(gaps, words, s) && IsSpace(c)
    ensures GapsAround(longer, words, s + [c])
  {
    hide IsSpace, Interleaved;
    var n := |words|;
    GapLonger(gaps, words, c);
    longer := gaps[..n] + [gaps[n] + [c]];
  }

  lemma GapsWithLetter(gaps: seq<string>, words: seq<string>, s: string, c: char)
    requires GapsAround(gaps, words, s) && s != [] && !IsSpace(s[|s| - 1]) && !IsSpace(c) && words != []
    ensures var n := |words|; GapsAround(gaps, words[..n - 1] + [words[n - 1] + [c]], s + [c])
  {
    hide IsSpace, Interleaved;
    WordLonger(gaps, words, c);
  }

  lemma GapsWithWord(gaps: seq<string>, words: seq<string>, s: string, c: char)
    requires GapsAround(gaps, words, s) && (s != [] ==> IsSpace(s[|s| - 1])) && !IsSpace(c)
    requires s == [] ==> words == []
    ensures GapsAround(gaps + [[]], words + [[c]], s + [c])
  {
    hide IsSpace, Interleaved;
    WordAdded(gaps, words, [c]);
  }

  /** The gaps around the words of a text. */
  lemma {:induction false} GapsOf(s: string) returns (gaps: seq<string>)
    ensures GapsAround(gaps, Fields(s), s)
    decreases |s|
  {
    hide IsSpace, Fields, GapsAround;
    if s == [] {
      gaps := NoGaps();
    } else {
      var front, c := s[..|s| - 1], s[|s| - 1];
      var n := |Fields(front)|;
      var inner := GapsOf(front);
      assert s == front + [c];
      if IsSpace(c) {
        SpaceFollows(front, c);
        gaps := GapsWithSpace(inner, Fields(front), front, c);
      } else if front != [] && !IsSpace(front[|front| - 1]) {
        gaps := inner;
        WordGoesOn(front, Fields(front)[..n - 1], Fields(front)[n - 1], c);
        GapsWithLetter(inner, Fields(front), front, c);
      } else {
        gaps := inner + [[]];
        NoFields();
        WordBegins(front, c);
        GapsWithWord(inner, Fields(front), front, c);
      }
    }
  }

  lemma NoGaps() returns (gaps: seq<string>)
    ensures GapsAround(gaps, Fields([]), [])
  {
    gaps := [[]];
  }

  /** The words found are the only ones the text can be spaced out from. */
  lemma FieldsIff(s: string, words: seq<string>)
    ensures Fields(s) == words <==> SpacedOut(s, words)
  {
    if SpacedOut(s, words) {
      var gaps :| |gaps| == |words| + 1 && Separating(gaps) && s == Interleaved(gaps, words);
      FieldsOfInterleaved(gaps, words);
    }
    var gaps := GapsOf(s);
  }
}
