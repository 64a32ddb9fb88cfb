/** Splitting a text node around matches: surgery on the child list of its parent. */
module InlineSplit {
  import opened Utf8

  const SPACE: Byte := 0x20

  /** A stretch of source, shown with spaces of padding in front. */
  datatype Segment = Segment(start: nat, stop: nat, padding: nat)

  /** What a node of the child list holds; an atom is a tag, a mention or a link. */
  datatype Inline =
    | Text(segment: Segment, soft: bool, hard: bool, raw: bool)
    | Atom(start: nat, end: nat, payload: seq<Byte>)

  /** A match in the source, and what its node will carry. */
  datatype Match = Match(start: nat, end: nat, payload: seq<Byte>)

  class Node {
    const inline: Inline

    constructor (inline: Inline)
      ensures this.inline == inline
    {
      this.inline := inline;
    }
  }

  /** The child list with a node put before another one. */
  function Inserted(children: seq<Node>, before: Node, node: Node): seq<Node> {
    if children == [] then []
    else if children[0] == before then [node] + children
    else [children[0]] + Inserted(children[1..], before, node)
  }

  function Removed(children: seq<Node>, node: Node): seq<Node> {
    if children == [] then []
    else if children[0] == node then children[1..]
    else [children[0]] + Removed(children[1..], node)
  }

  class Parent {
    var children: seq<Node>

    method InsertBefore(before: Node, node: Node)
      requires before in children
      modifies this
      ensures children == Inserted(old(children), before, node)
    {
      var i := IndexOf(before);
      InsertedAt(children[..i], before, children[i + 1..], node);
      assert children == children[..i] + [before] + children[i + 1..];
      assert children[i..] == [before] + children[i + 1..];
      children := children[..i] + [node] + children[i..];
    }

    method RemoveChild(node: Node)
      requires node in children
      modifies this
      ensures children == Removed(old(children), node)
    {
      var i := IndexOf(node);
      RemovedAt(children[..i], node, children[i + 1..]);
      assert children == children[..i] + [node] + children[i + 1..];
      children := children[..i] + children[i + 1..];
    }

    method IndexOf(node: Node) returns (i: nat)
      requires node in children
      ensures i < |children| && children[i] == node && node !in children[..i]
    {
      i := 0;
      while children[i] != node
        invariant i < |children| && node !in children[..i]
        decreases |children| - i
      {
        assert node in children[i + 1..];
        i := i + 1;
      }
    }
  }

  lemma {:induction false} InsertedAt(left: seq<Node>, before: Node, right: seq<Node>, node: Node)
    requires before !in left
    ensures Inserted(left + [before] + right, before, node) == left + [node] + [before] + right
    decreases |left|
  {
    var all := left + [before] + right;
    if left != [] {
      assert all[1..] == left[1..] + [before] + right;
      InsertedAt(left[1..], before, right, node);
    }
  }

  lemma {:induction false} RemovedAt(left: seq<Node>, node: Node, right: seq<Node>)
    requires node !in left
    ensures Removed(left + [node] + right, node) == left + right
    decreases |left|
  {
    var all := left + [node] + right;
    if left != [] {
      assert all[1..] == left[1..] + [node] + right;
      RemovedAt(left[1..], node, right);
    }
  }

  // ----- The pieces -----

  /** Matches in order and disjoint, between two positions. */
  predicate Between(matches: seq<Match>, from: nat, to: nat)
    decreases |matches|
  {
    if matches == [] then from <= to
    else from <= matches[0].start < matches[0].end <= to && Between(matches[1..], matches[0].end, to)
  }

  /** The text before a match, if there is any. */
  function Lead(t: Inline, cursor: nat, start: nat, padding: nat): seq<Inline>
    requires t.Text?
  {
    if start > cursor || padding > 0 then [Text(Segment(cursor, start, padding), false, false, t.raw)] else []
  }

  function AtomOf(m: Match): Inline {
    Atom(m.start, m.end, m.payload)
  }

  /** The nodes that replace a text node from `cursor` on. */
  function Pieces(t: Inline, matches: seq<Match>, cursor: nat, padding: nat): seq<Inline>
    requires t.Text?
    decreases |matches|
  {
    if matches == [] then
      if cursor < t.segment.stop || t.soft || t.hard
      then [Text(Segment(cursor, t.segment.stop, 0), t.soft, t.hard, t.raw)] else []
    else
      Lead(t, cursor, matches[0].start, padding) + [AtomOf(matches[0])] + Pieces(t, matches[1..], matches[0].end, 0)
  }

  function Inlines(nodes: seq<Node>): (r: seq<Inline>)
    ensures |r| == |nodes| && forall i :: 0 <= i < |nodes| ==> r[i] == nodes[i].inline
  {
    seq(|nodes|, i requires 0 <= i < |nodes| => nodes[i].inline)
  }

  /** The child list while a text node is replaced: new nodes have come before it. */
  ghost predicate Underway(p: Parent, left: seq<Node>, made: seq<Node>, text: Node, right: seq<Node>)
    reads p
  {
    && p.children == left + made + [text] + right
    && text !in left && text !in made
  }

  method InsertNode(p: Parent, text: Node, inline: Inline, ghost left: seq<Node>, ghost made: seq<Node>,
                    ghost right: seq<Node>) returns (node: Node)
    requires Underway(p, left, made, text, right)
    modifies p
    ensures fresh(node) && node.inline == inline
    ensures Underway(p, left, made + [node], text, right)
  {
    node := new Node(inline);
    InsertedAt(left + made, text, right, node);
    p.InsertBefore(text, node);
    assert left + made + [node] == left + (made + [node]);
  }

  /** One match: the text before it and its own node go before the text node. */
  method InsertMatch(p: Parent, text: Node, m: Match, cursor: nat, padding: nat, ghost left: seq<Node>,
                     ghost made: seq<Node>, ghost right: seq<Node>) returns (ghost more: seq<Node>)
    requires text.inline.Text? && Underway(p, left, made, text, right)
    modifies p
    ensures Underway(p, left, more, text, right)
    ensures Inlines(more) == Inlines(made) + Lead(text.inline, cursor, m.start, padding) + [AtomOf(m)]
  {
    hide Underway, Inlines;
    more := made;
    if m.start > cursor || padding > 0 {
      var piece := Text(Segment(cursor, m.start, padding), false, false, text.inline.raw);
      var node := InsertNode(p, text, piece, left, more, right);
      InlinesAppend(more, node);
      more := more + [node];
    }
    var atom := InsertNode(p, text, AtomOf(m), left, more, right);
    InlinesAppend(more, atom);
    more := more + [atom];
  }

  lemma InlinesAppend(nodes: seq<Node>, node: Node)
    ensures Inlines(nodes + [node]) == Inlines(nodes) + [node.inline]
  {}

  method ReplaceInlineMatches(p: Parent, text: Node, matches: seq<Match>, ghost left: seq<Node>, ghost right: seq<Node>)
    returns (ghost made: seq<Node>)
    requires text.inline.Text? && Underway(p, left, [], text, right)
    modifies p
    ensures matches == [] ==> p.children == old(p.children)
    ensures matches != [] ==> p.children == left + made + right
    ensures matches != [] ==>
      Inlines(made) == Pieces(text.inline, matches, text.inline.segment.start, text.inline.segment.padding)
  {
    hide Lead, AtomOf;
    made := [];
    if |matches| == 0 {
      return;
    }
    var segment := text.inline.segment;
    var cursor: nat, padding: nat := segment.start, segment.padding;
    ghost var all := Pieces(text.inline, matches, cursor, padding);
    for i := 0 to |matches|
      invariant Underway(p, left, made, text, right)
      invariant Inlines(made) + Pieces(text.inline, matches[i..], cursor, padding) == all
      invariant i > 0 ==> padding == 0
    {
      assert matches[i..][1..] == matches[i + 1..];
      made := InsertMatch(p, text, matches[i], cursor, padding, left, made, right);
      cursor := matches[i].end;
      padding := 0;
    }
    if cursor < segment.stop || text.inline.soft || text.inline.hard {
      var piece := Text(Segment(cursor, segment.stop, 0), text.inline.soft, text.inline.hard, text.inline.raw);
      var last := InsertNode(p, text, piece, left, made, right);
      InlinesAppend(made, last);
      made := made + [last];
    }
    assert Inlines(made) == all;
    RemoveText(p, left, made, text, right);
  }

  method RemoveText(p: Parent, ghost left: seq<Node>, ghost made: seq<Node>, text: Node, ghost right: seq<Node>)
    requires Underway(p, left, made, text, right)
    modifies p
    ensures p.children == left + made + right
  {
    RemovedAt(left + made, text, right);
    p.RemoveChild(text);
  }

  // ----- Nothing is lost -----

  function Spaces(n: nat): seq<Byte> {
    seq(n, _ => SPACE)
  }

  function SegmentValue(source: seq<Byte>, g: Segment): seq<Byte>
    requires g.start <= g.stop <= |source|
  {
    Spaces(g.padding) + source[g.start..g.stop]
  }

  /** The padding of a segment reads as spaces in front of its source bytes. */
  lemma PaddingIsBlank(source: seq<Byte>, g: Segment, k: nat)
    requires g.start <= g.stop <= |source| && k < g.padding + (g.stop - g.start)
    ensures |SegmentValue(source, g)| == g.padding + (g.stop - g.start)
    ensures SegmentValue(source, g)[k] == if k < g.padding then 0x20 else source[g.start + k - g.padding]
  {}

  predicate InSource(source: seq<Byte>, x: Inline) {
    match x
    case Text(g, _, _, _) => g.start <= g.stop <= |source|
    case Atom(start, end, _) => start <= end <= |source|
  }

  /** The bytes a node stands for. */
  function ValueOf(source: seq<Byte>, x: Inline): seq<Byte>
    requires InSource(source, x)
  {
    match x
    case Text(g, _, _, _) => SegmentValue(source, g)
    case Atom(start, end, _) => source[start..end]
  }

  function Values(source: seq<Byte>, xs: seq<Inline>): seq<Byte>
    requires forall x :: x in xs ==> InSource(source, x)
  {
    if xs == [] then [] else ValueOf(source, xs[0]) + Values(source, xs[1..])
  }

  lemma {:induction false} ValuesConcat(source: seq<Byte>, xs: seq<Inline>, ys: seq<Inline>)
    requires forall x :: x in xs + ys ==> InSource(source, x)
    ensures forall x :: x in xs ==> InSource(source, x)
    ensures forall x :: x in ys ==> InSource(source, x)
    ensures Values(source, xs + ys) == Values(source, xs) + Values(source, ys)
    decreases |xs|
  {
    hide ValueOf, InSource;
    assert forall x :: x in xs ==> x in xs + ys;
    assert forall x :: x in ys ==> x in xs + ys;
    if xs == [] {
      assert xs + ys == ys;
    } else {
      var all := xs + ys;
      assert all[0] == xs[0] && all[1..] == xs[1..] + ys;
      ValuesConcat(source, xs[1..], ys);
      assert Values(source, all) == ValueOf(source, xs[0]) + Values(source, all[1..]);
    }
  }

  lemma ValuesOfOne(source: seq<Byte>, x: Inline)
    requires InSource(source, x)
    ensures Values(source, [x]) == ValueOf(source, x)
  {
    assert [x][1..] == [];
  }

  lemma LeadConserves(source: seq<Byte>, t: Inline, cursor: nat, start: nat, padding: nat)
    requires t.Text? && cursor <= start <= |source|
    ensures var lead := Lead(t, cursor, start, padding);
      && (forall x :: x in lead ==> InSource(source, x))
      && Values(source, lead) == Spaces(padding) + source[cursor..start]
  {
    if start > cursor || padding > 0 {
      ValuesOfOne(source, Text(Segment(cursor, start, padding), false, false, t.raw));
    }
  }

  lemma ValuesConcat3(source: seq<Byte>, xs: seq<Inline>, y: Inline, zs: seq<Inline>)
    requires InSource(source, y)
    requires forall x :: x in xs ==> InSource(source, x)
    requires forall x :: x in zs ==> InSource(source, x)
    ensures forall x :: x in xs + [y] + zs ==> InSource(source, x)
    ensures Values(source, xs + [y] + zs) == Values(source, xs) + ValueOf(source, y) + Values(source, zs)
  {
    ValuesConcat(source, xs, [y]);
    ValuesConcat(source, xs + [y], zs);
    ValuesOfOne(source, y);
  }

  /** The values of the pieces, in order, make up the value of the original, padding included. */
  lemma {:induction false} PiecesConserve(source: seq<Byte>, t: Inline, matches: seq<Match>, cursor: nat, padding: nat)
    requires t.Text? && InSource(source, t) && Between(matches, cursor, t.segment.stop)
    requires matches == [] ==> padding == 0
    ensures var ps := Pieces(t, matches, cursor, padding);
      && cursor <= t.segment.stop
      && (forall x :: x in ps ==> InSource(source, x))
      && Values(source, ps) == Spaces(padding) + source[cursor..t.segment.stop]
    decreases |matches|
  {
    hide Values, Lead, ValueOf;
    if matches == [] {
      LastConserves(source, t, cursor);
    } else {
      var m := matches[0];
      PiecesConserve(source, t, matches[1..], m.end, 0);
      LeadConserves(source, t, cursor, m.start, padding);
      var rest := Pieces(t, matches[1..], m.end, 0);
      ValuesConcat3(source, Lead(t, cursor, m.start, padding), AtomOf(m), rest);
      AtomValue(source, m);
      assert Spaces(padding) + source[cursor..m.start] + source[m.start..m.end] + (Spaces(0) + source[m.end..t.segment.stop])
          == Spaces(padding) + source[cursor..t.segment.stop];
    }
  }

  lemma AtomValue(source: seq<Byte>, m: Match)
    requires m.start <= m.end <= |source|
    ensures InSource(source, AtomOf(m)) && ValueOf(source, AtomOf(m)) == source[m.start..m.end]
  {}

  lemma LastConserves(source: seq<Byte>, t: Inline, cursor: nat)
    requires t.Text? && InSource(source, t) && cursor <= t.segment.stop
    ensures var ps := Pieces(t, [], cursor, 0);
      (forall x :: x in ps ==> InSource(source, x)) && Values(source, ps) == Spaces(0) + source[cursor..t.segment.stop]
  {
    var ps := Pieces(t, [], cursor, 0);
    if ps != [] {
      ValuesOfOne(source, ps[0]);
    }
  }

  // ----- Matches that overlap -----

  /** Matches whose ends do not decrease; a later one may start inside an earlier one. */
  predicate Rising(matches: seq<Match>, cursor: nat, to: nat)
    decreases |matches|
  {
    if matches == [] then cursor <= to
    else
      && matches[0].start < matches[0].end <= to && cursor <= matches[0].end
      && Rising(matches[1..], matches[0].end, to)
  }

  /** How many bytes are cut out twice. */
  function Overlap(matches: seq<Match>, cursor: nat): nat
    decreases |matches|
  {
    if matches == [] then 0
    else (if matches[0].start < cursor then cursor - matches[0].start else 0) + Overlap(matches[1..], matches[0].end)
  }

  lemma {:induction false} NoOverlapIff(matches: seq<Match>, cursor: nat, to: nat)
    requires Rising(matches, cursor, to)
    ensures Overlap(matches, cursor) == 0 <==> Between(matches, cursor, to)
    decreases |matches|
  {
    if matches != [] {
      NoOverlapIff(matches[1..], matches[0].end, to);
    }
  }

  lemma LeadLength(source: seq<Byte>, t: Inline, cursor: nat, start: nat, padding: nat)
    requires t.Text? && start <= |source| && (padding > 0 ==> cursor <= start)
    ensures var lead := Lead(t, cursor, start, padding);
      && (forall x :: x in lead ==> InSource(source, x))
      && |Values(source, lead)| == padding + if cursor <= start then start - cursor else 0
  {
    if start > cursor || padding > 0 {
      ValuesOfOne(source, Text(Segment(cursor, start, padding), false, false, t.raw));
    }
  }

  /** The pieces are as long as what they replace and what they repeat. */
  lemma {:induction false} PiecesLength(source: seq<Byte>, t: Inline, matches: seq<Match>, cursor: nat, padding: nat)
    requires t.Text? && InSource(source, t) && Rising(matches, cursor, t.segment.stop)
    requires if matches == [] then padding == 0 else padding > 0 ==> cursor <= matches[0].start
    ensures var ps := Pieces(t, matches, cursor, padding);
      && cursor <= t.segment.stop
      && (forall x :: x in ps ==> InSource(source, x))
      && |Values(source, ps)| == padding + (t.segment.stop - cursor) + Overlap(matches, cursor)
    decreases |matches|
  {
    hide Values, Lead, ValueOf, InSource;
    StopInSource(source, t);
    if matches == [] {
      LastConserves(source, t, cursor);
    } else {
      var m := matches[0];
      PiecesLength(source, t, matches[1..], m.end, 0);
      LeadLength(source, t, cursor, m.start, padding);
      var rest := Pieces(t, matches[1..], m.end, 0);
      ValuesConcat3(source, Lead(t, cursor, m.start, padding), AtomOf(m), rest);
      AtomValue(source, m);
    }
  }

  lemma StopInSource(source: seq<Byte>, t: Inline)
    requires t.Text? && InSource(source, t)
    ensures t.segment.stop <= |source|
  {}

  /** The pieces spell the original exactly when no byte is cut out twice. */
  lemma ConservedIff(source: seq<Byte>, t: Inline, matches: seq<Match>, cursor: nat, padding: nat)
    requires t.Text? && InSource(source, t) && Rising(matches, cursor, t.segment.stop)
    requires if matches == [] then padding == 0 else padding > 0 ==> cursor <= matches[0].start
    ensures var ps := Pieces(t, matches, cursor, padding);
      && cursor <= t.segment.stop
      && (forall x :: x in ps ==> InSource(source, x))
      && (Values(source, ps) == Spaces(padding) + source[cursor..t.segment.stop] <==> Between(matches, cursor, t.segment.stop))
  {
    hide Pieces, Values;
    PiecesLength(source, t, matches, cursor, padding);
    NoOverlapIff(matches, cursor, t.segment.stop);
    if Between(matches, cursor, t.segment.stop) {
      PiecesConserve(source, t, matches, cursor, padding);
    }
  }

  predicate Breaks(x: Inline) {
    x.Text? && (x.soft || x.hard)
  }

  function Atoms(xs: seq<Inline>): seq<Match> {
    if xs == [] then []
    else (if xs[0].Atom? then [Match(xs[0].start, xs[0].end, xs[0].payload)] else []) + Atoms(xs[1..])
  }

  /** Line breaks are carried by a final text piece only, no other piece is empty,
      and the pieces keep the raw mark. */
  ghost predicate Shaped(t: Inline, ps: seq<Inline>)
    requires t.Text?
  {
    && (forall i :: 0 <= i < |ps| - 1 ==> !Breaks(ps[i]))
    && (forall i :: 0 <= i < |ps| && ps[i].Text? ==> ps[i].raw == t.raw)
    && (forall i :: 0 <= i < |ps| && ps[i].Text? && !Breaks(ps[i]) ==>
      ps[i].segment.start < ps[i].segment.stop || ps[i].segment.padding > 0)
    && (t.soft || t.hard ==>
      ps != [] && ps[|ps| - 1].Text? && ps[|ps| - 1].soft == t.soft && ps[|ps| - 1].hard == t.hard)
    && (!t.soft && !t.hard ==> ps == [] || !Breaks(ps[|ps| - 1]))
  }

  lemma ShapedCons(t: Inline, x: Inline, ps: seq<Inline>)
    requires t.Text? && Shaped(t, ps) && !Breaks(x)
    requires x.Text? ==> x.raw == t.raw && (x.segment.start < x.segment.stop || x.segment.padding > 0)
    ensures Shaped(t, [x] + ps)
  {}

  lemma LastShaped(t: Inline, cursor: nat)
    requires t.Text?
    ensures Shaped(t, Pieces(t, [], cursor, 0))
  {}

  lemma ShapedMatch(t: Inline, m: Match, cursor: nat, padding: nat, rest: seq<Inline>)
    requires t.Text? && cursor <= m.start && Shaped(t, rest)
    ensures Shaped(t, Lead(t, cursor, m.start, padding) + [AtomOf(m)] + rest)
  {
    hide Shaped;
    ShapedCons(t, AtomOf(m), rest);
    var lead := Lead(t, cursor, m.start, padding);
    if lead == [] {
      assert lead + [AtomOf(m)] + rest == [AtomOf(m)] + rest;
    } else {
      ShapedCons(t, lead[0], [AtomOf(m)] + rest);
      assert lead + [AtomOf(m)] + rest == [lead[0]] + ([AtomOf(m)] + rest);
    }
  }

  lemma {:induction false} PiecesShaped(t: Inline, matches: seq<Match>, cursor: nat, padding: nat)
    requires t.Text? && Between(matches, cursor, t.segment.stop)
    requires matches == [] ==> padding == 0
    ensures Shaped(t, Pieces(t, matches, cursor, padding))
    decreases |matches|
  {
    hide Shaped, Lead, AtomOf;
    if matches == [] {
      LastShaped(t, cursor);
    } else {
      var m := matches[0];
      PiecesShaped(t, matches[1..], m.end, 0);
      ShapedMatch(t, m, cursor, padding, Pieces(t, matches[1..], m.end, 0));
    }
  }

  /** The atoms among the pieces are exactly the matches. */
  lemma {:induction false} PiecesHoldMatches(t: Inline, matches: seq<Match>, cursor: nat, padding: nat)
    requires t.Text?
    ensures Atoms(Pieces(t, matches, cursor, padding)) == matches
    decreases |matches|
  {
    if matches == [] {
      var ps := Pieces(t, [], cursor, padding);
      if ps != [] {
        assert ps[1..] == [];
      }
    } else {
      var m := matches[0];
      PiecesHoldMatches(t, matches[1..], m.end, 0);
      AtomsAfterLead(Lead(t, cursor, m.start, padding), AtomOf(m), Pieces(t, matches[1..], m.end, 0));
    }
  }

  lemma AtomsAfterLead(lead: seq<Inline>, atom: Inline, rest: seq<Inline>)
    requires atom.Atom? && (lead == [] || (|lead| == 1 && lead[0].Text?))
    ensures Atoms(lead + [atom] + rest) == [Match(atom.start, atom.end, atom.payload)] + Atoms(rest)
  {
    assert ([atom] + rest)[1..] == rest;
    if lead == [] {
      assert lead + [atom] + rest == [atom] + rest;
    } else {
      assert (lead + [atom] + rest)[1..] == [atom] + rest;
    }
  }

  /** A final text piece is there exactly when text or a line break is left. */
  lemma {:induction false} LastIsAtomOrText(t: Inline, matches: seq<Match>, cursor: nat, padding: nat)
    requires t.Text? && Between(matches, cursor, t.segment.stop)
    ensures var ps := Pieces(t, matches, cursor, padding);
      var end := if matches == [] then cursor else matches[|matches| - 1].end;
      (ps != [] && ps[|ps| - 1].Text? <==> end < t.segment.stop || t.soft || t.hard)
    decreases |matches|
  {
    if matches != [] {
      LastIsAtomOrText(t, matches[1..], matches[0].end, 0);
    }
  }
}
