/** Tags in a text node: found in its padded value, cut out of the source. */
module TagSplit {
  import opened Utf8
  import opened TagTables
  import opened TagScanner
  import opened TagMatches
  import opened InlineSplit

  /** Where a match in the padded value lies in the source. */
  function InSourceAt(g: Segment, m: TagMatch): Match
    requires g.start + m.start >= g.padding && g.start + m.end >= g.padding
  {
    Match(g.start + m.start - g.padding, g.start + m.end - g.padding, m.value)
  }

  ghost predicate BehindPadding(g: Segment, ms: seq<TagMatch>) {
    forall m :: m in ms ==> g.padding <= m.start < m.end
  }

  function Shifted(g: Segment, ms: seq<TagMatch>): (r: seq<Match>)
    requires forall m :: m in ms ==> g.padding <= m.start < m.end
    ensures |r| == |ms|
  {
    seq(|ms|, i requires 0 <= i < |ms| => InSourceAt(g, ms[i]))
  }

  /** The tags of a text node, as the finder reports them in its padded value. */
  ghost function TagsOf(t: Tables, source: seq<Byte>, g: Segment): seq<TagMatch>
    requires g.start <= g.stop <= |source|
  {
    MatchesFrom(t, SegmentValue(source, g), 0)
  }

  /** No tag begins in the padding, for padding is spaces. */
  lemma TagsBehindPadding(t: Tables, source: seq<Byte>, g: Segment)
    requires Generated(t) && g.start <= g.stop <= |source|
    ensures BehindPadding(g, TagsOf(t, source, g))
  {
    hide MatchesFrom, IsTagValue, Subsequence, Generated;
    var value := SegmentValue(source, g);
    var ms := TagsOf(t, source, g);
    MatchesAreSound(t, value, 0);
    forall m | m in ms ensures g.padding <= m.start < m.end {
      assert MatchSound(value, m);
      assert value[m.start] == HASH;
    }
  }

  lemma {:induction false} ShiftedBetween(g: Segment, ms: seq<TagMatch>, from: nat, to: nat)
    requires InOrder(ms, from, to) && from <= to && g.padding <= from
    requires BehindPadding(g, ms)
    ensures Between(Shifted(g, ms), g.start + from - g.padding, g.start + to - g.padding)
    decreases |ms|
  {
    var r := Shifted(g, ms);
    if ms != [] {
      var m := ms[0];
      assert InOrder(ms[1..], m.end, to);
      assert BehindPadding(g, ms[1..]);
      ShiftedBetween(g, ms[1..], m.end, to);
      assert r[1..] == Shifted(g, ms[1..]);
    }
  }

  lemma TagsBetween(t: Tables, source: seq<Byte>, g: Segment)
    requires Generated(t) && g.start <= g.stop <= |source|
    ensures BehindPadding(g, TagsOf(t, source, g))
    ensures Between(Shifted(g, TagsOf(t, source, g)), g.start, g.stop)
  {
    hide MatchesFrom, Generated, MatchSound;
    var ms := TagsOf(t, source, g);
    var value := SegmentValue(source, g);
    TagsBehindPadding(t, source, g);
    MatchesAreSound(t, value, 0);
    assert InOrder(ms, g.padding, |value|);
    ShiftedBetween(g, ms, g.padding, |value|);
  }

  method ReplaceTagsInText(t: Tables, source: seq<Byte>, p: Parent, text: Node, ghost left: seq<Node>,
                           ghost right: seq<Node>) returns (ghost made: seq<Node>)
    requires Generated(t) && text.inline.Text? && InSource(source, text.inline)
    requires Underway(p, left, [], text, right)
    modifies p
    ensures BehindPadding(text.inline.segment, TagsOf(t, source, text.inline.segment))
    ensures var g := text.inline.segment;
      var tags := TagsOf(t, source, g);
      if tags == [] then p.children == old(p.children)
      else
        && p.children == left + made + right
        && Inlines(made) == Pieces(text.inline, Shifted(g, tags), g.start, g.padding)
  {
    hide Pieces, MatchesFrom, Inlines, Generated;
    var segment := text.inline.segment;
    TagsBetween(t, source, segment);
    var matches := FindTagMatches(t, SegmentValue(source, segment));
    made := ReplaceInlineMatches(p, text, Shifted(segment, matches), left, right);
  }

  /** A text node with tags is replaced by nodes that spell exactly what it spelled, and the tag nodes
      among them are exactly the tags found, each spelled from its hash on. */
  lemma TagsConserve(t: Tables, source: seq<Byte>, text: Inline, i: nat)
    requires Generated(t) && text.Text? && InSource(source, text)
    requires i < |TagsOf(t, source, text.segment)|
    ensures var g := text.segment;
      var tags := TagsOf(t, source, g);
      && BehindPadding(g, tags)
      && var ps := Pieces(text, Shifted(g, tags), g.start, g.padding);
      && (forall x :: x in ps ==> InSource(source, x))
      && Values(source, ps) == ValueOf(source, text)
      && Shaped(text, ps)
      && Atoms(ps) == Shifted(g, tags)
      && var m := Shifted(g, tags)[i];
      && g.start <= m.start < m.end <= g.stop
      && source[m.start] == HASH && IsTagValue(m.payload)
      && Subsequence(m.payload, source[m.start + 1..m.end])
  {
    hide Pieces, MatchesFrom, Values, Shaped, Atoms, IsTagValue, Subsequence, Generated;
    var g := text.segment;
    var tags := TagsOf(t, source, g);
    TagsBetween(t, source, g);
    var ms := Shifted(g, tags);
    PiecesConserve(source, text, ms, g.start, g.padding);
    PiecesShaped(text, ms, g.start, g.padding);
    PiecesHoldMatches(text, ms, g.start, g.padding);
    TagInSource(t, source, g, i);
  }

  lemma TagInSource(t: Tables, source: seq<Byte>, g: Segment, i: nat)
    requires Generated(t) && g.start <= g.stop <= |source| && i < |TagsOf(t, source, g)|
    requires BehindPadding(g, TagsOf(t, source, g))
    ensures var m := Shifted(g, TagsOf(t, source, g))[i];
      && g.start <= m.start < m.end <= g.stop
      && source[m.start] == HASH && IsTagValue(m.payload)
      && Subsequence(m.payload, source[m.start + 1..m.end])
  {
    hide MatchesFrom, IsTagValue, Subsequence, Generated;
    var value := SegmentValue(source, g);
    var tag := TagsOf(t, source, g)[i];
    MatchesAreSound(t, value, 0);
    assert MatchSound(value, tag);
    var m := InSourceAt(g, tag);
    assert value[tag.start + 1..tag.end] == source[m.start + 1..m.end];
  }
}
