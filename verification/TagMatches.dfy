/** Tag identifiers and the matches of a literal run: where they lie and what their values are made of. */
module TagMatches {
  import opened Outcomes
  import opened Texts
  import opened Utf8
  import opened TagTables
  import opened TagScanner

  // ----- Identifiers: segments between slashes -----

  datatype Identifier = Identifier(length: nat, segments: seq<seq<Byte>>)

  ghost function WithMore(t: Tables, s: seq<Byte>, id: Identifier): (r: Identifier)
    requires id.length <= |s|
    ensures id.length <= r.length <= |s|
    decreases |s| - id.length
  {
    if id.length == |s| || s[id.length] != SLASH then id
    else match Segment(t, s[id.length + 1..])
      case None => id
      case Some(next) =>
        WithMore(t, s, Identifier(id.length + 1 + next.length, id.segments + [next.value]))
  }

  ghost function IdentifierOf(t: Tables, s: seq<Byte>): (r: Option<Identifier>)
    ensures r.Some? ==> r.value.length <= |s|
  {
    match Segment(t, s)
    case None => None
    case Some(first) => Some(WithMore(t, s, Identifier(first.length, [first.value])))
  }

  method ScanTagIdentifier(t: Tables, source: seq<Byte>) returns (consumed: nat, value: seq<Byte>, ok: bool)
    requires Generated(t)
    ensures ok == IdentifierOf(t, source).Some?
    ensures ok ==> consumed == IdentifierOf(t, source).value.length
    ensures ok ==> value == Join(SLASH, IdentifierOf(t, source).value.segments)
  {
    hide Segment;
    consumed, value, ok := ScanTagSegment(t, source);
    if !ok {
      return 0, [], false;
    }
    ghost var segments := [value];
    while consumed < |source| && source[consumed] == SLASH
      invariant consumed <= |source| && segments != [] && value == Join(SLASH, segments)
      invariant IdentifierOf(t, source) == Some(WithMore(t, source, Identifier(consumed, segments)))
      decreases |source| - consumed
    {
      var segmentLength, segmentValue, segmentOk := ScanTagSegment(t, source[consumed + 1..]);
      if !segmentOk {
        break;
      }
      assert (segments + [segmentValue])[..|segments|] == segments;
      segments := segments + [segmentValue];
      value := value + [SLASH];
      value := value + segmentValue;
      consumed := consumed + 1 + segmentLength;
    }
  }

  // ----- Matches -----

  datatype TagMatch = TagMatch(start: nat, end: nat, value: seq<Byte>)

  /** What the finder does at a position: move on, or report a tag. */
  datatype Finding = MoveTo(pos: nat) | Report(tag: TagMatch)

  ghost function FindingAt(t: Tables, s: seq<Byte>, pos: nat): (f: Finding)
    requires pos < |s|
    ensures match f case MoveTo(next) => pos < next <= |s| case Report(m) => m.start == pos < m.end <= |s|
  {
    LongestEmojiExact(t, s[pos..], |s| - pos);
    if EmojiLength(t, s[pos..]) > 0 then MoveTo(pos + EmojiLength(t, s[pos..]))
    else if ReferenceLength(t, s[pos..]) > 0 then MoveTo(pos + ReferenceLength(t, s[pos..]))
    else if s[pos] == BACKSLASH && pos + 1 < |s| && Punctuation(s[pos + 1]) then MoveTo(pos + 2)
    else if s[pos] != HASH then MoveTo(pos + DecodeRune(s[pos..]).size)
    else match IdentifierOf(t, s[pos + 1..])
      case None => MoveTo(pos + 1)
      case Some(id) => Report(TagMatch(pos, pos + id.length + 1, Join(SLASH, id.segments)))
  }

  ghost function MatchesFrom(t: Tables, s: seq<Byte>, pos: nat): seq<TagMatch>
    requires pos <= |s|
    decreases |s| - pos
  {
    if pos == |s| then []
    else match FindingAt(t, s, pos)
      case MoveTo(next) => MatchesFrom(t, s, next)
      case Report(m) => [m] + MatchesFrom(t, s, m.end)
  }

  method FindAt(t: Tables, source: seq<Byte>, pos: nat) returns (f: Finding)
    requires Generated(t) && pos < |source|
    ensures f == FindingAt(t, source, pos)
  {
    var emojiLength := MatchFullyQualifiedEmoji(t, source[pos..]);
    if emojiLength > 0 {
      return MoveTo(pos + emojiLength);
    }
    var referenceLength := CharacterReferenceLength(t, source[pos..]);
    if referenceLength > 0 {
      return MoveTo(pos + referenceLength);
    }
    if source[pos] == BACKSLASH && pos + 1 < |source| && Punctuation(source[pos + 1]) {
      return MoveTo(pos + 2);
    }
    if source[pos] != HASH {
      return MoveTo(pos + DecodeRune(source[pos..]).size);
    }
    var consumed, value, ok := ScanTagIdentifier(t, source[pos + 1..]);
    if !ok {
      return MoveTo(pos + 1);
    }
    return Report(TagMatch(pos, pos + consumed + 1, value));
  }

  method FindTagMatches(t: Tables, source: seq<Byte>) returns (matches: seq<TagMatch>)
    requires Generated(t)
    ensures matches == MatchesFrom(t, source, 0)
  {
    matches := [];
    var pos := 0;
    while pos < |source|
      invariant pos <= |source|
      invariant matches + MatchesFrom(t, source, pos) == MatchesFrom(t, source, 0)
      decreases |source| - pos
    {
      var finding := FindAt(t, source, pos);
      match finding {
        case MoveTo(next) =>
          pos := next;
        case Report(m) =>
          assert matches + ([m] + MatchesFrom(t, source, m.end)) == (matches + [m]) + MatchesFrom(t, source, m.end);
          matches := matches + [m];
          pos := m.end;
      }
    }
  }

  // ----- What a value is made of -----

  /** `a` is read off `b` at increasing positions `at`. */
  ghost predicate ReadOff(a: seq<Byte>, b: seq<Byte>, at: seq<nat>) {
    && |at| == |a|
    && (forall i :: 0 <= i < |a| ==> at[i] < |b| && b[at[i]] == a[i])
    && (forall i, j :: 0 <= i < j < |a| ==> at[i] < at[j])
  }

  ghost predicate Subsequence(a: seq<Byte>, b: seq<Byte>) {
    exists at: seq<nat> :: ReadOff(a, b, at)
  }

  lemma SubsequenceSlice(s: seq<Byte>, p: nat, q: nat, n: nat)
    requires p <= q <= n <= |s|
    ensures Subsequence(s[p..q], s[p..n])
  {
    assert ReadOff(s[p..q], s[p..n], seq(q - p, i => i));
  }

  lemma SubsequenceEmpty(b: seq<Byte>)
    ensures Subsequence([], b)
  {
    assert ReadOff([], b, []);
  }

  lemma SubsequenceConcat(a: seq<Byte>, b: seq<Byte>, c: seq<Byte>, d: seq<Byte>)
    requires Subsequence(a, b) && Subsequence(c, d)
    ensures Subsequence(a + c, b + d)
  {
    var f: seq<nat> :| ReadOff(a, b, f);
    var g: seq<nat> :| ReadOff(c, d, g);
    var h: seq<nat> := f + seq(|g|, i requires 0 <= i < |g| => |b| + g[i]);
    assert ReadOff(a + c, b + d, h);
  }

  /** A segment of a value: some text without a slash. */
  predicate IsSegment(v: seq<Byte>) {
    v != [] && SLASH !in v
  }

  /** An accepted character spells no slash. */
  lemma CharacterHasNoSlash(s: seq<Byte>, r: Rune)
    requires s != [] && DecodeRune(s) == r != INVALID && r.code != SLASH
    ensures SLASH !in s[..r.size]
  {}

  lemma EmittedHasNoSlash(t: Tables, s: seq<Byte>, pos: nat, u: Unit)
    requires Generated(t) && pos < |s| && u == NextUnit(t, s[pos..])
    requires u.Emoji? || (u.Character? && u.code != SLASH)
    ensures var size := if u.Emoji? then u.length else u.size;
      pos + size <= |s| && SLASH !in s[pos..pos + size]
  {
    var size := if u.Emoji? then u.length else u.size;
    assert s[pos..pos + size] == s[pos..][..size];
    if u.Character? {
      CharacterHasNoSlash(s[pos..], Rune(u.code, u.size));
    }
  }

  /** A scan from `from` has emitted part of the bytes it passed, and no slash. */
  ghost predicate Emits(s: seq<Byte>, from: nat, scan: Scan) {
    && from <= scan.end <= |s|
    && SLASH !in scan.value
    && Subsequence(scan.value, s[from..scan.end])
  }

  lemma SlashContinuesNothing(t: Tables)
    requires Generated(t)
    ensures !SegmentStarter(t, SLASH) && !SegmentContinuation(t, SLASH) && !ApostropheJoiner(SLASH)
  {}

  lemma UnitEmits(t: Tables, s: seq<Byte>, pos: nat, u: Unit, joinable: bool)
    requires Generated(t) && pos < |s| && u == NextUnit(t, s[pos..])
    requires u.Emoji? || (u.Character? && u.code != SLASH)
    ensures var end := pos + (if u.Emoji? then u.length else u.size);
      end <= |s| && Emits(s, pos, Scan(end, s[pos..end], joinable))
  {
    hide NextUnit, Generated;
    EmittedHasNoSlash(t, s, pos, u);
    var end := pos + (if u.Emoji? then u.length else u.size);
    SubsequenceSlice(s, pos, end, end);
  }

  lemma OpenerEmits(t: Tables, s: seq<Byte>, pos: nat)
    requires Generated(t) && pos < |s| && OpenerAt(t, s, pos).Start?
    ensures Emits(s, pos, OpenerAt(t, s, pos).scan)
  {
    hide NextUnit, Generated, SegmentStarter, Emits, Combining, XidContinue, Ignorable;
    SlashContinuesNothing(t);
    UnitEmits(t, s, pos, NextUnit(t, s[pos..]), OpenerAt(t, s, pos).scan.joinable);
  }

  lemma ContinuationEmits(t: Tables, s: seq<Byte>, pos: nat, joinable: bool)
    requires Generated(t) && pos < |s| && Continuation(t, s, pos, joinable).Some?
    ensures Emits(s, pos, Continuation(t, s, pos, joinable).value)
  {
    hide NextUnit, Generated, SegmentContinuation, ApostropheJoiner, JoinsOn, XidContinue, Ignorable, Subsequence;
    var c := Continuation(t, s, pos, joinable).value;
    SlashContinuesNothing(t);
    if c.value == [] {
      SubsequenceEmpty(s[pos..c.end]);
    } else {
      UnitEmits(t, s, pos, NextUnit(t, s[pos..]), c.joinable);
    }
  }

  lemma EmitsMore(s: seq<Byte>, from: nat, a: Scan, b: Scan)
    requires Emits(s, from, a) && Emits(s, a.end, b)
    ensures Emits(s, from, Scan(b.end, a.value + b.value, b.joinable))
  {
    SubsequenceConcat(a.value, s[from..a.end], b.value, s[a.end..b.end]);
    assert s[from..a.end] + s[a.end..b.end] == s[from..b.end];
  }

  lemma {:induction false} OpeningEmits(t: Tables, s: seq<Byte>, pos: nat)
    requires Generated(t) && pos <= |s| && Opening(t, s, pos).Some?
    ensures Emits(s, pos, Opening(t, s, pos).value)
    decreases |s| - pos
  {
    hide OpenerAt, Subsequence;
    match OpenerAt(t, s, pos)
    case Start(scan) => OpenerEmits(t, s, pos);
    case Skip(size) =>
      OpeningEmits(t, s, pos + size);
      SubsequenceEmpty(s[pos..pos + size]);
      EmitsMore(s, pos, Scan(pos + size, [], false), Opening(t, s, pos + size).value);
      assert [] + Opening(t, s, pos).value.value == Opening(t, s, pos).value.value;
  }

  lemma {:induction false} ExtendedEmits(t: Tables, s: seq<Byte>, from: nat, scan: Scan)
    requires Generated(t) && Emits(s, from, scan)
    ensures Emits(s, from, Extended(t, s, scan))
    ensures |scan.value| <= |Extended(t, s, scan).value| && scan.end <= Extended(t, s, scan).end
    decreases |s| - scan.end
  {
    if scan.end < |s| && Continuation(t, s, scan.end, scan.joinable).Some? {
      var c := Continuation(t, s, scan.end, scan.joinable).value;
      ContinuationEmits(t, s, scan.end, scan.joinable);
      EmitsMore(s, from, scan, c);
      ExtendedEmits(t, s, from, Scan(c.end, scan.value + c.value, c.joinable));
    }
  }

  /** A scanned segment is some slash-free text read off the bytes it spans. */
  lemma SegmentSound(t: Tables, s: seq<Byte>)
    requires Generated(t) && Segment(t, s).Some?
    ensures var g := Segment(t, s).value;
      0 < g.length <= |s| && IsSegment(g.value) && Subsequence(g.value, s[..g.length])
  {
    OpeningEmits(t, s, 0);
    ExtendedEmits(t, s, 0, Opening(t, s, 0).value);
  }

  ghost predicate IdentifierSound(s: seq<Byte>, id: Identifier) {
    && 0 < id.length <= |s| && id.segments != []
    && (forall i :: 0 <= i < |id.segments| ==> IsSegment(id.segments[i]))
    && Subsequence(Join(SLASH, id.segments), s[..id.length])
  }

  lemma SegmentAppended(s: seq<Byte>, id: Identifier, next: Spelling)
    requires IdentifierSound(s, id) && id.length < |s| && s[id.length] == SLASH
    requires var rest := s[id.length + 1..];
      next.length <= |rest| && IsSegment(next.value) && Subsequence(next.value, rest[..next.length])
    ensures IdentifierSound(s, Identifier(id.length + 1 + next.length, id.segments + [next.value]))
  {
    var rest := s[id.length + 1..];
    var end := id.length + 1 + next.length;
    assert s[id.length..id.length + 1] == [SLASH];
    SubsequenceSlice(s, id.length, id.length + 1, id.length + 1);
    SubsequenceConcat([SLASH], [SLASH], next.value, rest[..next.length]);
    SubsequenceConcat(Join(SLASH, id.segments), s[..id.length], [SLASH] + next.value, [SLASH] + rest[..next.length]);
    assert s[..id.length] + ([SLASH] + rest[..next.length]) == s[..end];
    assert (id.segments + [next.value])[..|id.segments|] == id.segments;
    assert Join(SLASH, id.segments) + ([SLASH] + next.value) == Join(SLASH, id.segments + [next.value]);
  }

  lemma {:induction false} WithMoreSound(t: Tables, s: seq<Byte>, id: Identifier)
    requires Generated(t) && IdentifierSound(s, id)
    ensures IdentifierSound(s, WithMore(t, s, id))
    decreases |s| - id.length
  {
    hide Segment, Subsequence, IsSegment, Join;
    if id.length < |s| && s[id.length] == SLASH && Segment(t, s[id.length + 1..]).Some? {
      SegmentSound(t, s[id.length + 1..]);
      var next := Segment(t, s[id.length + 1..]).value;
      SegmentAppended(s, id, next);
      WithMoreSound(t, s, Identifier(id.length + 1 + next.length, id.segments + [next.value]));
    }
  }

  lemma IdentifierIsSound(t: Tables, s: seq<Byte>)
    requires Generated(t) && IdentifierOf(t, s).Some?
    ensures IdentifierSound(s, IdentifierOf(t, s).value)
  {
    SegmentSound(t, s);
    var first := Segment(t, s).value;
    WithMoreSound(t, s, Identifier(first.length, [first.value]));
  }

  /** The value consists of non-empty segments between slashes. */
  ghost predicate IsTagValue(value: seq<Byte>) {
    exists segments :: segments != [] && (forall i :: 0 <= i < |segments| ==> IsSegment(segments[i]))
      && value == Join(SLASH, segments)
  }

  ghost predicate MatchSound(s: seq<Byte>, m: TagMatch) {
    && m.start + 1 < m.end <= |s|
    && s[m.start] == HASH
    && IsTagValue(m.value)
    && Subsequence(m.value, s[m.start + 1..m.end])
  }

  lemma ReportSound(s: seq<Byte>, pos: nat, id: Identifier)
    requires pos < |s| && s[pos] == HASH && IdentifierSound(s[pos + 1..], id)
    ensures MatchSound(s, TagMatch(pos, pos + id.length + 1, Join(SLASH, id.segments)))
  {
    hide Join, IsSegment, Subsequence;
    assert s[pos + 1..][..id.length] == s[pos + 1..pos + 1 + id.length];
    assert IsTagValue(Join(SLASH, id.segments));
  }

  lemma FindingSound(t: Tables, s: seq<Byte>, pos: nat)
    requires Generated(t) && pos < |s| && FindingAt(t, s, pos).Report?
    ensures MatchSound(s, FindingAt(t, s, pos).tag)
  {
    hide IdentifierOf, IdentifierSound, MatchSound, DecodeRune, ReferenceLength, EmojiLength, Generated, Join;
    IdentifierIsSound(t, s[pos + 1..]);
    ReportSound(s, pos, IdentifierOf(t, s[pos + 1..]).value);
  }

  ghost predicate InOrder(ms: seq<TagMatch>, from: nat, to: nat) {
    && (forall i :: 0 <= i < |ms| ==> from <= ms[i].start < ms[i].end <= to)
    && (forall i, j :: 0 <= i < j < |ms| ==> ms[i].end <= ms[j].start)
  }

  lemma InOrderCons(m: TagMatch, ms: seq<TagMatch>, from: nat, to: nat)
    requires from <= m.start < m.end <= to && InOrder(ms, m.end, to)
    ensures InOrder([m] + ms, from, to)
  {}

  /** The matches are in bounds, in order and disjoint; each starts at a hash, and its value
      is a sequence of non-empty segments read off its spelling. */
  lemma {:induction false} MatchesAreSound(t: Tables, s: seq<Byte>, pos: nat)
    requires Generated(t) && pos <= |s|
    ensures InOrder(MatchesFrom(t, s, pos), pos, |s|)
    ensures forall m :: m in MatchesFrom(t, s, pos) ==> MatchSound(s, m)
    decreases |s| - pos
  {
    hide FindingAt, MatchSound;
    if pos < |s| {
      match FindingAt(t, s, pos)
      case MoveTo(next) =>
        MatchesAreSound(t, s, next);
        assert MatchesFrom(t, s, pos) == MatchesFrom(t, s, next);
      case Report(m) =>
        FindingSound(t, s, pos);
        MatchesAreSound(t, s, m.end);
        InOrderCons(m, MatchesFrom(t, s, m.end), pos, |s|);
        assert MatchesFrom(t, s, pos) == [m] + MatchesFrom(t, s, m.end);
    }
  }
}
