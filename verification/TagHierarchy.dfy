/** Tag hierarchies: a tag stands for itself and for every ancestor path. */
module TagHierarchy {
  import opened Texts
  import opened Utf8
  import opened TagTables
  import opened TagMatches

  // ----- The hierarchy of a tag -----

  /** The paths made of the first parts, shortest first. */
  function Hierarchy(v: seq<Byte>): (paths: seq<seq<Byte>>) {
    var parts := Split(SLASH, v);
    seq(|parts|, i requires 0 <= i < |parts| => Join(SLASH, parts[..i + 1]))
  }

  lemma HierarchyAtSlash(a: seq<Byte>, b: seq<Byte>)
    requires SLASH !in b
    ensures Hierarchy(a + [SLASH] + b) == Hierarchy(a) + [a + [SLASH] + b]
  {
    var v := a + [SLASH] + b;
    SplitAtLast(SLASH, a, b);
    JoinSplit(SLASH, v);
    var parts := Split(SLASH, a);
    assert forall j :: 0 <= j <= |parts| ==> (parts + [b])[..j] == parts[..j];
    assert (parts + [b])[..|parts| + 1] == parts + [b];
  }

  lemma HierarchyWithoutSlash(b: seq<Byte>)
    requires SLASH !in b
    ensures Hierarchy(b) == [b]
  {
    SplitWithout(SLASH, b);
    assert [b][..1] == [b];
    assert Hierarchy(b)[0] == Join(SLASH, [b]) == b;
  }

  method AppendTagHierarchy(tags: seq<seq<Byte>>, value: seq<Byte>) returns (all: seq<seq<Byte>>)
    ensures all == tags + Hierarchy(value)
  {
    all := tags;
    var offset := 0;
    while true
      invariant offset <= |value|
      invariant offset == 0 ==> all == tags
      invariant offset > 0 ==> value[offset - 1] == SLASH && all == tags + Hierarchy(value[..offset - 1])
      decreases |value| - offset
    {
      var separator := IndexByte(value[offset..], SLASH);
      ghost var end := if separator < 0 then |value| else offset + separator;
      assert value[offset..][..end - offset] == value[offset..end];
      if offset > 0 {
        assert value[..end] == value[..offset - 1] + [SLASH] + value[offset..end];
        HierarchyAtSlash(value[..offset - 1], value[offset..end]);
      } else {
        HierarchyWithoutSlash(value[..end]);
      }
      if separator < 0 {
        assert value[..end] == value;
        return all + [value];
      }
      offset := offset + separator + 1;
      all := all + [value[..offset - 1]];
    }
  }

  /** The hierarchy lists exactly the whole value and its prefixes that end before a slash. */
  lemma {:induction false} HierarchyExact(v: seq<Byte>, x: seq<Byte>)
    ensures x in Hierarchy(v) <==> x <= v && (|x| == |v| || v[|x|] == SLASH)
    decreases |v|
  {
    if SLASH in v {
      var k := LastSlash(v);
      var a, b := v[..k], v[k + 1..];
      assert v == a + [SLASH] + b;
      HierarchyAtSlash(a, b);
      HierarchyExact(a, x);
      assert x in Hierarchy(v) <==> x in Hierarchy(a) || x == v;
      assert x <= v && |x| == |v| ==> x == v;
      if |x| <= k {
        assert v[..|x|] == a[..|x|];
        assert |x| < k ==> v[|x|] == a[|x|];
      } else if |x| < |v| {
        assert v[|x|] == b[|x| - k - 1];
      }
    } else {
      HierarchyWithoutSlash(v);
      assert x <= v && |x| == |v| ==> x == v;
    }
  }

  ghost function LastSlash(v: seq<Byte>): (k: nat)
    requires SLASH in v
    ensures k < |v| && v[k] == SLASH && forall i :: k < i < |v| ==> v[i] != SLASH
  {
    if v[|v| - 1] == SLASH then |v| - 1
    else
      assert v == v[..|v| - 1] + [v[|v| - 1]];
      LastSlash(v[..|v| - 1])
  }

  lemma HeadIsTagValue(segments: seq<seq<Byte>>, n: nat)
    requires 0 < n <= |segments| && forall k :: 0 <= k < |segments| ==> IsSegment(segments[k])
    ensures IsTagValue(Join(SLASH, segments[..n]))
  {
    hide IsSegment, Join;
    var head := segments[..n];
    assert forall k :: 0 <= k < |head| ==> IsSegment(head[k]);
  }

  lemma HierarchyAt(v: seq<Byte>, i: nat)
    requires i < |Split(SLASH, v)|
    ensures |Hierarchy(v)| == |Split(SLASH, v)| && Hierarchy(v)[i] == Join(SLASH, Split(SLASH, v)[..i + 1])
  {}

  lemma SegmentsSplit(segments: seq<seq<Byte>>)
    requires segments != [] && forall k :: 0 <= k < |segments| ==> IsSegment(segments[k])
    ensures Split(SLASH, Join(SLASH, segments)) == segments
  {
    hide Join, Split;
    SplitJoin(SLASH, segments);
  }

  /** For a value of tag segments every path is again one, each a proper prefix of the next. */
  lemma HierarchyOfTag(segments: seq<seq<Byte>>, i: nat)
    requires i < |segments| && forall k :: 0 <= k < |segments| ==> IsSegment(segments[k])
    ensures var paths := Hierarchy(Join(SLASH, segments));
      && |paths| == |segments|
      && IsTagValue(paths[i])
      && (i + 1 < |segments| ==> paths[i] + [SLASH] + segments[i + 1] == paths[i + 1])
      && paths[|segments| - 1] == Join(SLASH, segments)
  {
    hide Join, Split, IsTagValue, Hierarchy, IsSegment;
    var v := Join(SLASH, segments);
    SegmentsSplit(segments);
    HeadIsTagValue(segments, i + 1);
    HierarchyAt(v, i);
    HierarchyAt(v, |segments| - 1);
    if i + 1 < |segments| {
      HierarchyAt(v, i + 1);
      assert segments[..i + 2] == segments[..i + 1] + [segments[i + 1]];
      JoinExtended(SLASH, segments[..i + 1], segments[i + 1]);
    }
    assert segments[..|segments|] == segments;
  }
}
