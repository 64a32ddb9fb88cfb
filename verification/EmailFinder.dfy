/** Finding email autolinks: a maximal local part, an at sign and a domain in the decoded text. */
module EmailFinder {
  import opened Outcomes
  import opened Utf8
  import opened TagTables
  import opened TagScanner
  import opened EmailProjection
  import opened EmailMatches
  import Texts

  const AT_SIGN: Byte := 0x40

  predicate LocalByte(b: Byte) {
    AlphaNumeric(b) || b in {0x2B, 0x2D, 0x2E, 0x5F}
  }

  // ----- The domain of an email -----

  const DOT: Byte := 0x2E

  predicate LabelByte(b: Byte) {
    AlphaNumeric(b) || b in {0x2D, 0x5F}
  }

  /** An at sign, at least one label with a dot behind it, and a last label that ends in a letter or digit. */
  predicate IsDomain(u: seq<Byte>) {
    && |u| > 1 && u[0] == AT_SIGN && AlphaNumeric(u[|u| - 1])
    && var labels := Texts.Split(DOT, u[1..]);
      |labels| > 1 && forall i :: 0 <= i < |labels| ==> labels[i] != [] && forall b :: b in labels[i] ==> LabelByte(b)
  }

  ghost predicate LongestDomain(u: seq<Byte>, n: nat, length: Option<nat>) {
    match length
    case Some(k) => 0 < k <= n <= |u| && IsDomain(u[..k]) && forall m :: k < m <= n ==> !IsDomain(u[..m])
    case None => n <= |u| && forall m :: 0 < m <= n ==> !IsDomain(u[..m])
  }

  function DomainWithin(u: seq<Byte>, n: nat): (length: Option<nat>)
    requires n <= |u|
    ensures LongestDomain(u, n, length)
  {
    if n == 0 then None else if IsDomain(u[..n]) then Some(n) else DomainWithin(u, n - 1)
  }

  /** The length of the domain that a text starts with. The pattern is greedy, and as labels hold
      no dots its match is the longest one. */
  function Domain(u: seq<Byte>): (length: Option<nat>)
    ensures LongestDomain(u, |u|, length)
  {
    DomainWithin(u, |u|)
  }

  /** A letter or digit more makes a longer domain. */
  lemma DomainExtends(u: seq<Byte>, c: Byte)
    requires IsDomain(u) && AlphaNumeric(c)
    ensures IsDomain(u + [c])
  {
    var v := u[1..];
    var labels := Texts.Split(DOT, v);
    assert (u + [c])[1..] == v + [c] && (v + [c])[..|v|] == v;
    var longer := Texts.Split(DOT, v + [c]);
    assert longer == labels[..|labels| - 1] + [labels[|labels| - 1] + [c]];
  }

  /** A domain ends in a letter or digit, and none follows it. */
  lemma DomainEnds(u: seq<Byte>)
    requires Domain(u).Some?
    ensures var n := Domain(u).value; 0 < n <= |u| && AlphaNumeric(u[n - 1]) && (n < |u| ==> !AlphaNumeric(u[n]))
  {
    var n := Domain(u).value;
    assert u[..n][n - 1] == u[n - 1];
    if n < |u| {
      assert u[..n + 1] == u[..n] + [u[n]];
      if AlphaNumeric(u[n]) {
        DomainExtends(u[..n], u[n]);
      }
    }
  }

  // ----- The email around an at sign -----

  datatype Span = Span(start: nat, end: nat)

  /** An email around the at sign: its local part is as long as possible, and its domain is not cut short. */
  ghost predicate IsEmail(v: seq<Byte>, at: nat, lower: nat, upper: nat, span: Span) {
    && lower <= span.start < at < span.end <= upper <= |v|
    && v[at] == AT_SIGN
    && (forall k :: span.start <= k < at ==> LocalByte(v[k]))
    && (span.start == lower || !LocalByte(v[span.start - 1]))
    && Domain(v[at..upper]) == Some(span.end - at)
    && (span.end == upper || v[span.end] !in {0x2D, 0x5F})
  }

  ghost function EmailAt(v: seq<Byte>, at: nat, lower: nat, upper: nat): (e: Option<Span>)
    ensures e.Some? ==> IsEmail(v, at, lower, upper, e.value)
    ensures e.None? ==> forall span :: !IsEmail(v, at, lower, upper, span)
  {
    if span :| IsEmail(v, at, lower, upper, span) then Some(span) else None
  }

  lemma LocalRunUnique(v: seq<Byte>, lower: nat, at: nat, a: nat, b: nat)
    requires lower <= a <= at <= |v| && lower <= b <= at
    requires forall k :: a <= k < at ==> LocalByte(v[k])
    requires forall k :: b <= k < at ==> LocalByte(v[k])
    requires (a == lower || !LocalByte(v[a - 1])) && (b == lower || !LocalByte(v[b - 1]))
    ensures a == b
  {}

  lemma EmailUnique(v: seq<Byte>, at: nat, lower: nat, upper: nat, span: Span)
    requires IsEmail(v, at, lower, upper, span)
    ensures EmailAt(v, at, lower, upper) == Some(span)
  {
    var other := EmailAt(v, at, lower, upper).value;
    LocalRunUnique(v, lower, at, span.start, other.start);
  }

  method MatchProjectedGFMEmailAt(source: seq<Byte>, at: int, lowerBound: int, upperBound: int)
    returns (start: nat, end: nat, ok: bool)
    ensures ok ==> 0 <= lowerBound <= start < at < end <= upperBound <= |source|
    ensures (if lowerBound < 0 || at < 0 || upperBound < 0 then None
             else EmailAt(source, at, lowerBound, upperBound))
         == (if ok then Some(Span(start, end)) else None)
  {
    if lowerBound < 0 || at < lowerBound || at >= upperBound || upperBound > |source| || source[at] != AT_SIGN {
      return 0, 0, false;
    }
    start := at;
    while start > lowerBound
      invariant lowerBound <= start <= at
      invariant forall k :: start <= k < at ==> LocalByte(source[k])
    {
      if !LocalByte(source[start - 1]) {
        break;
      }
      start := start - 1;
    }
    if start == at {
      return 0, 0, false;
    }
    var length := Domain(source[at..upperBound]);
    if length.None? {
      return 0, 0, false;
    }
    end := at + length.value;
    if end < upperBound && source[end] in {0x2D, 0x5F} {
      return 0, 0, false;
    }
    EmailUnique(source, at, lowerBound, upperBound, Span(start, end));
    return start, end, true;
  }

  // ----- The finder -----

  function FirstAt(v: seq<Byte>, cursor: nat): (at: nat)
    requires cursor <= |v|
    ensures cursor <= at <= |v| && (at < |v| ==> v[at] == AT_SIGN)
    ensures forall k :: cursor <= k < at ==> v[k] != AT_SIGN
    decreases |v| - cursor
  {
    if cursor == |v| || v[cursor] == AT_SIGN then cursor else FirstAt(v, cursor + 1)
  }

  /** The emails of a decoded text: at signs from the left, each with what lies behind the previous one. */
  ghost function Spans(v: seq<Byte>, cursor: nat): seq<Span>
    requires cursor <= |v|
    decreases |v| - cursor
  {
    var at := FirstAt(v, cursor);
    if at == |v| then []
    else match EmailAt(v, at, cursor, |v|)
      case None => Spans(v, at + 1)
      case Some(span) => [span] + Spans(v, span.end)
  }

  datatype GFMEmailMatch = GFMEmailMatch(start: nat, end: nat, address: seq<Byte>)

  ghost predicate Consistent(p: Projection) {
    |p.starts| == |p.ends| == |p.value|
  }

  function Reported(p: Projection, span: Span): GFMEmailMatch
    requires |p.starts| == |p.ends| == |p.value| && span.start < span.end <= |p.value|
  {
    GFMEmailMatch(p.starts[span.start], p.ends[span.end - 1], p.value[span.start..span.end])
  }

  ghost predicate SpansWithin(spans: seq<Span>, from: nat, to: nat) {
    && (forall i :: 0 <= i < |spans| ==> from <= spans[i].start < spans[i].end <= to)
    && (forall i, j :: 0 <= i < j < |spans| ==> spans[i].end <= spans[j].start)
  }

  lemma SpansCons(span: Span, spans: seq<Span>, from: nat, to: nat)
    requires from <= span.start < span.end <= to && SpansWithin(spans, span.end, to)
    ensures SpansWithin([span] + spans, from, to)
  {}

  lemma EmailForward(v: seq<Byte>, at: nat, cursor: nat, span: Span)
    requires IsEmail(v, at, cursor, |v|, span)
    ensures cursor <= span.start < span.end <= |v|
  {
    hide Domain;
  }

  lemma {:induction false} SpansInOrder(v: seq<Byte>, cursor: nat)
    requires cursor <= |v|
    ensures SpansWithin(Spans(v, cursor), cursor, |v|)
    decreases |v| - cursor
  {
    hide SpansWithin, IsEmail;
    var at := FirstAt(v, cursor);
    if at == |v| {
      assert SpansWithin([], cursor, |v|) by {
        NoSpans(cursor, |v|);
      }
    } else {
      match EmailAt(v, at, cursor, |v|)
      case None =>
        SpansInOrder(v, at + 1);
        SpansWiden(Spans(v, at + 1), at + 1, cursor, |v|);
      case Some(span) =>
        EmailForward(v, at, cursor, span);
        SpansInOrder(v, span.end);
        SpansCons(span, Spans(v, span.end), cursor, |v|);
    }
  }

  lemma NoSpans(from: nat, to: nat)
    ensures SpansWithin([], from, to)
  {}

  lemma SpansWiden(spans: seq<Span>, later: nat, from: nat, to: nat)
    requires from <= later && SpansWithin(spans, later, to)
    ensures SpansWithin(spans, from, to)
  {}

  /** The matches are the reported spans, one for one. */
  ghost predicate Reports(p: Projection, spans: seq<Span>, matches: seq<GFMEmailMatch>) {
    && Consistent(p)
    && |matches| == |spans|
    && forall i :: 0 <= i < |spans| ==>
      spans[i].start < spans[i].end <= |p.value| && matches[i] == Reported(p, spans[i])
  }

  lemma NextAt(v: seq<Byte>, cursor: nat, relativeAt: int)
    requires cursor <= |v| && 0 <= relativeAt < |v| - cursor
    requires v[cursor..][relativeAt] == AT_SIGN && AT_SIGN !in v[cursor..][..relativeAt]
    ensures var at := cursor + relativeAt; v[at] == AT_SIGN && AT_SIGN !in v[cursor..at]
  {
    assert v[cursor..][..relativeAt] == v[cursor..cursor + relativeAt];
  }

  lemma ProjectionConsistent(t: Tables, d: Decoder, source: seq<Byte>)
    ensures Consistent(Project(t, d, source))
  {
    ProjectionTiles(t, d, source);
  }

  method FindGFMEmailMatches(t: Tables, d: Decoder, source: seq<Byte>)
    returns (matches: seq<GFMEmailMatch>)
    ensures var p := Project(t, d, source);
      Reports(p, Spans(p.value, 0), matches)
  {
    hide Project, IsEmail, Spans, Reports, EmailAt, IsReference, FoundSoFar;
    var p := ProjectGFMEmailText(t, d, source);
    ProjectionConsistent(t, d, source);
    matches := [];
    var cursor: nat := 0;
    ghost var found: seq<Span> := [];
    NothingReported(p);
    while cursor < |p.value|
      invariant cursor <= |p.value| && Reports(p, found, matches)
      invariant FoundSoFar(p.value, found, cursor)
      decreases |p.value| - cursor
    {
      var relativeAt := IndexByte(p.value[cursor..], AT_SIGN);
      if relativeAt < 0 {
        NoneAhead(p.value, cursor);
        break;
      }
      var at := cursor + relativeAt;
      NextAt(p.value, cursor, relativeAt);
      FoundNext(p.value, found, cursor, at);
      var start, end, ok := MatchProjectedGFMEmailAt(p.value, at, cursor, |p.value|);
      if !ok {
        cursor := at + 1;
        continue;
      }
      ghost var span := Span(start, end);
      ReportsMore(p, found, matches, span);
      matches := matches + [GFMEmailMatch(p.starts[start], p.ends[end - 1], p.value[start..end])];
      found := found + [span];
      cursor := end;
    }
    if cursor == |p.value| {
      NoneAhead(p.value, cursor);
    }
    FoundAll(p.value, found, cursor);
  }

  lemma Reassociate(found: seq<Span>, span: Span, all: seq<Span>, rest: seq<Span>)
    requires all == [span] + rest
    ensures found + all == (found + [span]) + rest
  {}

  /** What was found and what lies ahead are all the emails of the text. */
  ghost predicate FoundSoFar(v: seq<Byte>, found: seq<Span>, cursor: nat) {
    cursor <= |v| && found + Spans(v, cursor) == Spans(v, 0)
  }

  lemma FoundNext(v: seq<Byte>, found: seq<Span>, cursor: nat, at: nat)
    requires FoundSoFar(v, found, cursor)
    requires cursor <= at < |v| && v[at] == AT_SIGN && AT_SIGN !in v[cursor..at]
    ensures match EmailAt(v, at, cursor, |v|)
      case None => FoundSoFar(v, found, at + 1)
      case Some(span) => FoundSoFar(v, found + [span], span.end)
  {
    SpansStep(v, cursor, at);
    match EmailAt(v, at, cursor, |v|)
    case None =>
    case Some(span) =>
      Reassociate(found, span, Spans(v, cursor), Spans(v, span.end));
  }

  lemma FoundAll(v: seq<Byte>, found: seq<Span>, cursor: nat)
    requires FoundSoFar(v, found, cursor) && Spans(v, cursor) == []
    ensures found == Spans(v, 0)
  {
    assert found + [] == found;
  }

  lemma NothingReported(p: Projection)
    requires Consistent(p)
    ensures Reports(p, [], []) && FoundSoFar(p.value, [], 0)
  {
    assert [] + Spans(p.value, 0) == Spans(p.value, 0);
  }

  lemma ReportsMore(p: Projection, spans: seq<Span>, matches: seq<GFMEmailMatch>, span: Span)
    requires Reports(p, spans, matches) && span.start < span.end <= |p.value|
    ensures Reports(p, spans + [span], matches + [Reported(p, span)])
  {}

  lemma {:induction false} FirstIs(v: seq<Byte>, cursor: nat, at: nat)
    requires cursor <= at < |v| && v[at] == AT_SIGN && AT_SIGN !in v[cursor..at]
    ensures FirstAt(v, cursor) == at
    decreases at - cursor
  {
    if cursor < at {
      assert v[cursor] == v[cursor..at][0];
      assert v[cursor + 1..at] == v[cursor..at][1..];
      FirstIs(v, cursor + 1, at);
    }
  }

  lemma {:induction false} NoneAhead(v: seq<Byte>, cursor: nat)
    requires cursor <= |v| && AT_SIGN !in v[cursor..]
    ensures FirstAt(v, cursor) == |v| && Spans(v, cursor) == []
    decreases |v| - cursor
  {
    if cursor < |v| {
      assert v[cursor] == v[cursor..][0];
      assert v[cursor + 1..] == v[cursor..][1..];
      NoneAhead(v, cursor + 1);
    }
  }

  lemma SpansStep(v: seq<Byte>, cursor: nat, at: nat)
    requires cursor <= at < |v| && v[at] == AT_SIGN && AT_SIGN !in v[cursor..at]
    ensures Spans(v, cursor) ==
      match EmailAt(v, at, cursor, |v|)
      case None => Spans(v, at + 1)
      case Some(span) => [span] + Spans(v, span.end)
  {
    FirstIs(v, cursor, at);
  }

  // ----- What a match says about the source -----

  /** Projecting the reported source range gives the address exactly when the email is cut along units. */
  lemma AddressReadBackIff(t: Tables, d: Decoder, s: seq<Byte>,
                           matches: seq<GFMEmailMatch>, i: nat)
    requires var p := Project(t, d, s);
      Reports(p, Spans(p.value, 0), matches) && i < |matches|
    ensures var p := Project(t, d, s);
      var span := Spans(p.value, 0)[i];
      && matches[i].start < matches[i].end <= |s|
      && (Project(t, d, s[matches[i].start..matches[i].end]).value == matches[i].address
          <==> Clean(p, span.start, span.end))
  {
    hide Project, Spans, Clean;
    var p := Project(t, d, s);
    var span := Spans(p.value, 0)[i];
    ReprojectedIff(t, d, s, span.start, span.end);
  }

  /** Later matches lie behind earlier ones in the source, unless one unit decodes to the end
      of the one and the start of the other. */
  lemma MatchesDisjointIff(t: Tables, d: Decoder, s: seq<Byte>,
                           matches: seq<GFMEmailMatch>, i: nat, j: nat)
    requires var p := Project(t, d, s);
      Reports(p, Spans(p.value, 0), matches) && i < j < |matches|
    ensures var p := Project(t, d, s);
      var spans := Spans(p.value, 0);
      && |p.starts| == |p.value|
      && spans[i].start < spans[i].end <= spans[j].start < |p.value|
      && (matches[i].end <= matches[j].start <==> p.starts[spans[i].end - 1] != p.starts[spans[j].start])
  {
    hide Project, Spans;
    var p := Project(t, d, s);
    var spans := Spans(p.value, 0);
    SpansInOrder(p.value, 0);
    ProjectionTiles(t, d, s);
    var a, b := spans[i].end - 1, spans[j].start;
    assert p.starts[a] < p.ends[a] && p.starts[b] < p.ends[b];
  }

  // ----- No unit is cut -----

  /** What a unit decodes to: at most one byte, or letters and digits only, or nothing that an
      email could begin or end with. */
  predicate Seamless(text: seq<Byte>) {
    || |text| <= 1
    || (forall b :: b in text ==> AlphaNumeric(b))
    || (forall b :: b in text ==> !LocalByte(b))
  }

  /** The entities of HTML and the UTF-8 bytes of numbered characters are such. */
  ghost predicate SeamlessReferences(t: Tables, d: Decoder) {
    forall u: seq<Byte> :: IsReference(t, u) ==> Seamless(d(u))
  }

  lemma {:induction false} UnitsSeamless(t: Tables, d: Decoder, s: seq<Byte>)
    requires SeamlessReferences(t, d)
    ensures forall k :: 0 <= k < |Units(t, d, s)| ==> Seamless(Units(t, d, s)[k].text)
    decreases |s|
  {
    hide IsReference;
    if s != [] {
      UnitsSeamless(t, d, s[FirstPiece(t, d, s).length..]);
    }
  }

  /** The bytes on both sides of a cut are not both letters or digits, and one of them is a local byte. */
  predicate CutAt(v: seq<Byte>, c: nat) {
    0 < c < |v| ==>
      && !(AlphaNumeric(v[c - 1]) && AlphaNumeric(v[c]))
      && (LocalByte(v[c - 1]) || LocalByte(v[c]))
  }

  lemma ByteOfUnit(us: seq<Piece>, i: nat, k: nat)
    requires k < |us| && |TextOf(us[..k])| <= i < |TextOf(us[..k])| + |us[k].text|
    ensures i < |TextOf(us)| && TextOf(us)[i] == us[k].text[i - |TextOf(us[..k])|]
  {
    var head, unit, tail := us[..k], [us[k]], us[k + 1..];
    assert us == head + (unit + tail);
    TextConcatenated(head, unit + tail);
    assert (unit + tail)[1..] == tail;
  }

  /** No unit reaches across a cut. */
  lemma CutBetweenUnits(t: Tables, d: Decoder, s: seq<Byte>, c: nat)
    requires SeamlessReferences(t, d) && 0 < c < |Project(t, d, s).value| && CutAt(Project(t, d, s).value, c)
    ensures Project(t, d, s).starts[c - 1] != Project(t, d, s).starts[c]
  {
    hide Units, TextOf, Starts, Ends, Width, IsReference, AlphaNumeric, SeamlessReferences;
    var us := Units(t, d, s);
    UnitsPositive(t, d, s);
    UnitsSeamless(t, d, s);
    var k := UnitAt(us, c);
    UnitStartsAt(us, c, k);
    assert Seamless(us[k].text);
    ByteOfUnit(us, c, k);
    if |TextOf(us[..k])| < c {
      ByteOfUnit(us, c - 1, k);
    }
  }

  /** Where the finder goes on: not between two letters or digits. */
  predicate ResumesAt(v: seq<Byte>, c: nat) {
    0 < c < |v| ==> !(AlphaNumeric(v[c - 1]) && AlphaNumeric(v[c]))
  }

  lemma EmailIsCut(v: seq<Byte>, at: nat, cursor: nat, span: Span)
    requires cursor <= |v| && ResumesAt(v, cursor) && IsEmail(v, at, cursor, |v|, span)
    ensures CutAt(v, span.start) && CutAt(v, span.end) && ResumesAt(v, span.end)
  {
    hide Domain, AlphaNumeric, Texts.Split;
    assert v[at..|v|] == v[at..];
    DomainEnds(v[at..]);
    assert v[span.end - 1] == v[at..][span.end - at - 1];
    assert span.end < |v| ==> v[span.end] == v[at..][span.end - at];
    assert LocalByte(v[span.start]);
  }

  /** Every email begins and ends at a cut. */
  lemma {:induction false} SpansAreCut(v: seq<Byte>, cursor: nat)
    requires cursor <= |v| && ResumesAt(v, cursor)
    ensures forall span :: span in Spans(v, cursor) ==> CutAt(v, span.start) && CutAt(v, span.end)
    decreases |v| - cursor
  {
    hide IsEmail, CutAt, AlphaNumeric;
    var at := FirstAt(v, cursor);
    if at < |v| {
      match EmailAt(v, at, cursor, |v|)
      case None =>
        AtSignIsNoLetter();
        SpansAreCut(v, at + 1);
      case Some(span) =>
        EmailIsCut(v, at, cursor, span);
        EmailForward(v, at, cursor, span);
        SpansAreCut(v, span.end);
    }
  }

  lemma AtSignIsNoLetter()
    ensures !AlphaNumeric(AT_SIGN)
  {}

  /** Every email of the decoded text is cut along the units of its source. */
  lemma SpansAreClean(t: Tables, d: Decoder, s: seq<Byte>, i: nat)
    requires SeamlessReferences(t, d) && i < |Spans(Project(t, d, s).value, 0)|
    ensures var p := Project(t, d, s);
      var span := Spans(p.value, 0)[i];
      && |p.starts| == |p.ends| == |p.value| && span.start < span.end <= |p.value|
      && Clean(p, span.start, span.end)
  {
    hide Project, Spans, CutAt, AlphaNumeric;
    var p := Project(t, d, s);
    var span := Spans(p.value, 0)[i];
    SpansInOrder(p.value, 0);
    SpansAreCut(p.value, 0);
    ProjectionTiles(t, d, s);
    if span.start > 0 {
      CutBetweenUnits(t, d, s, span.start);
    }
    if span.end < |p.value| {
      CutBetweenUnits(t, d, s, span.end);
    }
  }

  /** The source of every match projects to exactly its address. */
  lemma AddressReadBack(t: Tables, d: Decoder, s: seq<Byte>, matches: seq<GFMEmailMatch>, i: nat)
    requires SeamlessReferences(t, d)
    requires var p := Project(t, d, s); Reports(p, Spans(p.value, 0), matches) && i < |matches|
    ensures matches[i].start < matches[i].end <= |s|
    ensures Project(t, d, s[matches[i].start..matches[i].end]).value == matches[i].address
  {
    hide Project, Spans, Clean;
    AddressReadBackIff(t, d, s, matches, i);
    SpansAreClean(t, d, s, i);
  }

  /** Matches are disjoint and in source order. */
  lemma MatchesDisjoint(t: Tables, d: Decoder, s: seq<Byte>, matches: seq<GFMEmailMatch>, i: nat, j: nat)
    requires SeamlessReferences(t, d)
    requires var p := Project(t, d, s); Reports(p, Spans(p.value, 0), matches) && i < j < |matches|
    ensures matches[i].end <= matches[j].start
  {
    hide Project, Spans;
    var p := Project(t, d, s);
    var spans := Spans(p.value, 0);
    MatchesDisjointIff(t, d, s, matches, i, j);
    SpansAreClean(t, d, s, i);
    ProjectionTiles(t, d, s);
    TilesMonotone(p, |s|, spans[i].end - 1, spans[i].end);
    TilesMonotone(p, |s|, spans[i].end, spans[j].start);
  }
}
