/** Emails in a text node: found in its source stretch, cut out of the source. */
module EmailSplit {
  import opened Outcomes
  import opened Utf8
  import opened TagTables
  import opened TagScanner
  import opened EmailProjection
  import opened EmailMatches
  import opened EmailFinder
  import opened InlineSplit

  /** Where a match in the stretch of a text node lies in the source. */
  function InSourceAt(g: Segment, m: GFMEmailMatch): Match {
    Match(g.start + m.start, g.start + m.end, m.address)
  }

  function Shifted(g: Segment, ms: seq<GFMEmailMatch>): (r: seq<Match>)
    ensures |r| == |ms| && forall i :: 0 <= i < |r| ==> r[i] == InSourceAt(g, ms[i])
  {
    seq(|ms|, i requires 0 <= i < |ms| => InSourceAt(g, ms[i]))
  }

  /** The matches are the emails of the stretch. */
  ghost predicate EmailsOf(t: Tables, d: Decoder, s: seq<Byte>, ms: seq<GFMEmailMatch>) {
    var p := Project(t, d, s);
    Reports(p, Spans(p.value, 0), ms)
  }

  method ReplaceGFMEmailsInText(t: Tables, d: Decoder, source: seq<Byte>, p: Parent, text: Node,
                                ghost left: seq<Node>, ghost right: seq<Node>)
    returns (ghost emails: seq<GFMEmailMatch>, ghost made: seq<Node>)
    requires text.inline.Text? && InSource(source, text.inline)
    requires Underway(p, left, [], text, right)
    modifies p
    ensures var g := text.inline.segment;
      && EmailsOf(t, d, source[g.start..g.stop], emails)
      && if emails == [] then p.children == old(p.children)
         else
           && p.children == left + made + right
           && Inlines(made) == Pieces(text.inline, Shifted(g, emails), g.start, g.padding)
  {
    hide Project, Spans, Reports, Pieces, Inlines;
    var segment := text.inline.segment;
    var emailMatches := FindGFMEmailMatches(t, d, source[segment.start..segment.stop]);
    var matches: seq<Match> := [];
    for i := 0 to |emailMatches|
      invariant matches == Shifted(segment, emailMatches[..i])
    {
      matches := matches + [InSourceAt(segment, emailMatches[i])];
    }
    assert emailMatches[..|emailMatches|] == emailMatches;
    emails := emailMatches;
    made := ReplaceInlineMatches(p, text, matches, left, right);
  }

  // ----- What is kept -----

  /** Matches in order and disjoint, each within the stretch. */
  ghost predicate InOrder(ms: seq<GFMEmailMatch>, to: nat) {
    && (forall i :: 0 <= i < |ms| ==> ms[i].start < ms[i].end <= to)
    && (forall i, j :: 0 <= i < j < |ms| ==> ms[i].end <= ms[j].start)
  }

  lemma EmailsInOrder(t: Tables, d: Decoder, s: seq<Byte>, ms: seq<GFMEmailMatch>)
    requires SeamlessReferences(t, d) && EmailsOf(t, d, s, ms)
    ensures InOrder(ms, |s|)
  {
    hide Project, Spans, Reports, SeamlessReferences;
    forall i | 0 <= i < |ms| ensures ms[i].start < ms[i].end <= |s| {
      AddressReadBack(t, d, s, ms, i);
    }
    forall i, j | 0 <= i < j < |ms| ensures ms[i].end <= ms[j].start {
      MatchesDisjoint(t, d, s, ms, i, j);
    }
  }

  lemma {:induction false} ShiftedBetween(g: Segment, ms: seq<GFMEmailMatch>, cursor: nat)
    requires g.start <= cursor <= g.stop && InOrder(ms, g.stop - g.start)
    requires ms != [] ==> cursor <= g.start + ms[0].start
    ensures Between(Shifted(g, ms), cursor, g.stop)
    decreases |ms|
  {
    if ms != [] {
      assert Shifted(g, ms)[1..] == Shifted(g, ms[1..]);
      ShiftedBetween(g, ms[1..], g.start + ms[0].end);
    }
  }

  lemma StretchOf(source: seq<Byte>, g: Segment, a: nat, b: nat)
    requires g.start <= g.stop <= |source| && a <= b <= g.stop - g.start
    ensures source[g.start..g.stop][a..b] == source[g.start + a..g.start + b]
  {}

  /** A text node with emails is replaced by nodes that spell exactly what it spelled; the email nodes
      among them are exactly the emails found, and the source of each decodes to its address. */
  lemma EmailsConserve(t: Tables, d: Decoder, source: seq<Byte>, text: Inline, ms: seq<GFMEmailMatch>, i: nat)
    requires SeamlessReferences(t, d) && text.Text? && InSource(source, text) && i < |ms|
    requires EmailsOf(t, d, source[text.segment.start..text.segment.stop], ms)
    ensures var g := text.segment;
      var ps := Pieces(text, Shifted(g, ms), g.start, g.padding);
      && (forall x :: x in ps ==> InSource(source, x))
      && Values(source, ps) == ValueOf(source, text)
      && Shaped(text, ps)
      && Atoms(ps) == Shifted(g, ms)
      && var m := Shifted(g, ms)[i];
      && g.start <= m.start < m.end <= g.stop
      && Project(t, d, source[m.start..m.end]).value == m.payload
  {
    hide Project, Spans, Reports, Pieces, Values, Shaped, Atoms, Between, SeamlessReferences;
    var g := text.segment;
    var s := source[g.start..g.stop];
    EmailsInOrder(t, d, s, ms);
    ShiftedBetween(g, ms, g.start);
    PiecesConserve(source, text, Shifted(g, ms), g.start, g.padding);
    PiecesShaped(text, Shifted(g, ms), g.start, g.padding);
    PiecesHoldMatches(text, Shifted(g, ms), g.start, g.padding);
    AddressReadBack(t, d, s, ms, i);
    StretchOf(source, g, ms[i].start, ms[i].end);
  }
}
