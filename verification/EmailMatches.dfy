/** Email matches in projected text, and the source ranges they are reported with. */
module EmailMatches {
  import opened Utf8
  import opened TagTables
  import opened TagScanner
  import opened EmailProjection

  // ----- The projection tiles the source -----

  /** The units together span the text, and each range of units can be read back from its own source. */
  lemma {:induction false} UnitsSpan(t: Tables, d: Decoder, s: seq<Byte>)
    ensures Width(Units(t, d, s)) == |s|
    decreases |s|
  {
    hide FirstPiece;
    if s != [] {
      var u := FirstPiece(t, d, s);
      UnitsSpan(t, d, s[u.length..]);
    }
  }

  /** Source cut at the end of a unit still starts with that unit. */
  lemma FirstUnitOfPrefix(t: Tables, d: Decoder, s: seq<Byte>, n: nat)
    requires s != [] && FirstPiece(t, d, s).length <= n <= |s|
    ensures FirstPiece(t, d, s[..n]) == FirstPiece(t, d, s)
  {
    var cut := s[..n];
    var k := ReferenceLength(t, s);
    if 0 < k <= n {
      assert cut[..k] == s[..k];
      ReferenceUnique(t, cut, k);
    }
    var j := ReferenceLength(t, cut);
    if j > 0 {
      assert cut[..j] == s[..j];
      ReferenceUnique(t, s, j);
    }
  }

  lemma {:induction false} UnitsOfPrefix(t: Tables, d: Decoder, s: seq<Byte>, us: seq<Piece>, vs: seq<Piece>)
    requires Units(t, d, s) == us + vs
    ensures Width(us) <= |s| && Units(t, d, s[..Width(us)]) == us
    decreases |us|
  {
    hide FirstPiece;
    if us == [] {
      assert s[..0] == [];
    } else {
      var u := FirstPiece(t, d, s);
      var rest := s[u.length..];
      assert Units(t, d, s) == [u] + Units(t, d, rest);
      assert (us + vs)[0] == us[0] && (us + vs)[1..] == us[1..] + vs;
      UnitsOfPrefix(t, d, rest, us[1..], vs);
      var n := Width(us);
      FirstUnitOfPrefix(t, d, s, n);
      assert s[..n][u.length..] == rest[..n - u.length];
      assert us == [u] + us[1..];
    }
  }

  lemma {:induction false} UnitsOfSuffix(t: Tables, d: Decoder, s: seq<Byte>, us: seq<Piece>, vs: seq<Piece>)
    requires Units(t, d, s) == us + vs
    ensures Width(us) <= |s| && Units(t, d, s[Width(us)..]) == vs
    decreases |us|
  {
    hide FirstPiece;
    if us == [] {
      assert s[0..] == s && us + vs == vs;
    } else {
      var u := FirstPiece(t, d, s);
      var rest := s[u.length..];
      assert Units(t, d, s) == [u] + Units(t, d, rest);
      assert (us + vs)[0] == us[0] && (us + vs)[1..] == us[1..] + vs;
      UnitsOfSuffix(t, d, rest, us[1..], vs);
      assert s[Width(us)..] == rest[Width(us[1..])..];
    }
  }

  /** Any run of units is what its own stretch of source projects to. */
  lemma UnitsOfStretch(t: Tables, d: Decoder, s: seq<Byte>, us: seq<Piece>, vs: seq<Piece>, ws: seq<Piece>)
    requires Units(t, d, s) == us + vs + ws
    ensures Width(us) + Width(vs) <= |s|
    ensures Project(t, d, s[Width(us)..Width(us) + Width(vs)]).value == TextOf(vs)
  {
    hide FirstPiece, Units, Starts, Ends, TextOf, Width;
    assert us + vs + ws == us + (vs + ws);
    UnitsOfSuffix(t, d, s, us, vs + ws);
    var rest := s[Width(us)..];
    UnitsOfPrefix(t, d, rest, vs, ws);
    assert s[Width(us)..Width(us) + Width(vs)] == rest[..Width(vs)];
  }

  ghost predicate Positive(us: seq<Piece>) {
    forall i :: 0 <= i < |us| ==> us[i].length > 0
  }

  lemma {:induction false} UnitsPositive(t: Tables, d: Decoder, s: seq<Byte>)
    ensures Positive(Units(t, d, s))
    decreases |s|
  {
    hide FirstPiece;
    if s != [] {
      UnitsPositive(t, d, s[FirstPiece(t, d, s).length..]);
    }
  }

  /** The unit that a decoded byte belongs to. */
  lemma {:induction false} UnitAt(us: seq<Piece>, i: nat) returns (k: nat)
    requires i < |TextOf(us)|
    ensures k < |us| && |TextOf(us[..k])| <= i < |TextOf(us[..k])| + |us[k].text|
    decreases |us|
  {
    if i < |us[0].text| {
      k := 0;
      assert us[..0] == [];
    } else {
      var j := UnitAt(us[1..], i - |us[0].text|);
      k := j + 1;
      assert us[..k] == [us[0]] + us[1..][..j];
    }
  }

  /** The arrays lead each decoded byte back to its unit. */
  lemma ArraysLeadBack(us: seq<Piece>, i: nat, k: nat)
    requires k < |us| && |TextOf(us[..k])| <= i < |TextOf(us[..k])| + |us[k].text|
    ensures i < |TextOf(us)|
    ensures Starts(us, 0)[i] == Width(us[..k])
    ensures Ends(us, 0)[i] == Width(us[..k]) + us[k].length
  {
    var head, unit, tail := us[..k], [us[k]], us[k + 1..];
    assert us == head + (unit + tail);
    TextConcatenated(head, unit + tail);
    ArraysConcatenated(head, unit + tail, 0);
    assert (unit + tail)[1..] == tail;
  }

  lemma {:induction false} WidthMonotone(us: seq<Piece>, j: nat, k: nat)
    requires Positive(us) && j < k <= |us|
    ensures Width(us[..j]) + us[j].length <= Width(us[..k])
    decreases k
  {
    var last := us[..k - 1];
    assert us[..k] == last + [us[k - 1]];
    TextConcatenated(last, [us[k - 1]]);
    assert [us[k - 1]][1..] == [];
    if j < k - 1 {
      WidthMonotone(us, j, k - 1);
    }
  }

  lemma {:induction false} TextMonotone(us: seq<Piece>, j: nat, k: nat)
    requires j < k <= |us|
    ensures |TextOf(us[..j])| + |us[j].text| <= |TextOf(us[..k])|
    decreases k
  {
    var last := us[..k - 1];
    assert us[..k] == last + [us[k - 1]];
    TextConcatenated(last, [us[k - 1]]);
    assert [us[k - 1]][1..] == [];
    if j < k - 1 {
      TextMonotone(us, j, k - 1);
    }
  }

  /** Two decoded bytes come from one unit or from units in order; neighbours from one unit or adjacent ones. */
  ghost predicate Tiles(p: Projection, size: nat) {
    && |p.starts| == |p.ends| == |p.value|
    && (forall i :: 0 <= i < |p.value| ==> p.starts[i] < p.ends[i] <= size)
    && (forall i, j :: 0 <= i < j < |p.value| ==>
      (p.starts[i] == p.starts[j] && p.ends[i] == p.ends[j]) || p.ends[i] <= p.starts[j])
  }

  lemma TilesMonotone(p: Projection, size: nat, i: nat, j: nat)
    requires Tiles(p, size) && i <= j < |p.value|
    ensures p.starts[i] <= p.starts[j] < p.ends[j] <= size && p.ends[i] <= p.ends[j]
  {}

  lemma ProjectionTiles(t: Tables, d: Decoder, s: seq<Byte>)
    ensures Tiles(Project(t, d, s), |s|)
  {
    hide FirstPiece;
    var us := Units(t, d, s);
    var p := Project(t, d, s);
    UnitsPositive(t, d, s);
    UnitsSpan(t, d, s);
    assert us[..|us|] == us;
    forall i | 0 <= i < |p.value| ensures p.starts[i] < p.ends[i] <= |s| {
      var k := UnitAt(us, i);
      ArraysLeadBack(us, i, k);
      WidthMonotone(us, k, |us|);
    }
    forall i, j | 0 <= i < j < |p.value|
      ensures (p.starts[i] == p.starts[j] && p.ends[i] == p.ends[j]) || p.ends[i] <= p.starts[j]
    {
      InOneOrOrdered(us, i, j);
    }
  }

  lemma InOneOrOrdered(us: seq<Piece>, i: nat, j: nat)
    requires Positive(us) && i < j < |TextOf(us)|
    ensures var p := Projected(us);
      (p.starts[i] == p.starts[j] && p.ends[i] == p.ends[j]) || p.ends[i] <= p.starts[j]
  {
    var k := UnitAt(us, i);
    var m := UnitAt(us, j);
    ArraysLeadBack(us, i, k);
    ArraysLeadBack(us, j, m);
    if k < m {
      WidthMonotone(us, k, m);
    } else if m < k {
      TextMonotone(us, m, k);
    }
  }

  /** Where no unit decodes to nothing, neighbouring units meet and the arrays span the whole source. */
  lemma NeighboursMeet(t: Tables, d: Decoder, s: seq<Byte>, i: nat)
    requires Decodes(t, d) && i < |Project(t, d, s).value|
    ensures var p := Project(t, d, s);
      && (i == 0 ==> p.starts[0] == 0)
      && (i + 1 == |p.value| ==> p.ends[i] == |s|)
      && (i + 1 < |p.value| ==> p.starts[i] == p.starts[i + 1] || p.ends[i] == p.starts[i + 1])
  {
    var us := Units(t, d, s);
    var k := UnitAt(us, i);
    ArraysLeadBack(us, i, k);
    UnitsDecode(t, d, s);
    UnitsSpan(t, d, s);
    UnitEdges(us, i, k);
  }

  ghost predicate Filled(us: seq<Piece>) {
    forall i :: 0 <= i < |us| ==> us[i].text != []
  }

  lemma {:induction false} UnitsDecode(t: Tables, d: Decoder, s: seq<Byte>)
    requires Decodes(t, d)
    ensures Filled(Units(t, d, s))
    decreases |s|
  {
    if s != [] {
      UnitsDecode(t, d, s[FirstPiece(t, d, s).length..]);
    }
  }

  lemma UnitEdges(us: seq<Piece>, i: nat, k: nat)
    requires Filled(us)
    requires k < |us| && |TextOf(us[..k])| <= i < |TextOf(us[..k])| + |us[k].text|
    ensures i == 0 ==> Width(us[..k]) == 0
    ensures i < |TextOf(us)|
    ensures i + 1 == |TextOf(us)| ==> Width(us[..k]) + us[k].length == Width(us)
    ensures i + 1 < |TextOf(us)| ==>
      Starts(us, 0)[i + 1] == Width(us[..k]) || Starts(us, 0)[i + 1] == Width(us[..k]) + us[k].length
  {
    ArraysLeadBack(us, i, k);
    assert us[..k + 1] == us[..k] + [us[k]];
    assert us[..|us|] == us;
    Appended(us[..k], us[k], 0);
    if k > 0 {
      TextMonotone(us, 0, k);
    }
    if i + 1 < |TextOf(us[..k + 1])| {
      ArraysLeadBack(us, i + 1, k);
    } else if k + 1 < |us| {
      TextMonotone(us, k + 1, |us|);
      ArraysLeadBack(us, i + 1, k + 1);
    }
  }

  // ----- Reading a stretch of source back -----

  /** The decoded bytes from `a` to `b` neither start nor end inside a unit. */
  ghost predicate Clean(p: Projection, a: nat, b: nat)
    requires |p.starts| == |p.ends| == |p.value| && a < b <= |p.value|
  {
    && (a == 0 || p.starts[a - 1] != p.starts[a])
    && (b == |p.value| || p.ends[b] != p.ends[b - 1])
  }

  lemma UnitStartsAt(us: seq<Piece>, a: nat, k: nat)
    requires Positive(us)
    requires k < |us| && |TextOf(us[..k])| <= a < |TextOf(us[..k])| + |us[k].text|
    ensures a < |TextOf(us)|
    ensures |TextOf(us[..k])| == a <==> a == 0 || Starts(us, 0)[a - 1] != Starts(us, 0)[a]
  {
    ArraysLeadBack(us, a, k);
    if a > 0 {
      var j := UnitAt(us, a - 1);
      ArraysLeadBack(us, a - 1, j);
      if j < k {
        WidthMonotone(us, j, k);
        TextMonotone(us, j, k);
      } else if k < j {
        TextMonotone(us, k, j);
      }
    }
  }

  lemma UnitEndsAt(us: seq<Piece>, b: nat, m: nat)
    requires Positive(us) && 0 < b
    requires m < |us| && |TextOf(us[..m])| <= b - 1 < |TextOf(us[..m])| + |us[m].text|
    ensures b <= |TextOf(us)|
    ensures |TextOf(us[..m])| + |us[m].text| == b <==> b == |TextOf(us)| || Ends(us, 0)[b] != Ends(us, 0)[b - 1]
  {
    ArraysLeadBack(us, b - 1, m);
    assert us[..|us|] == us;
    if m < |us| {
      TextMonotone(us, m, |us|);
    }
    if b < |TextOf(us)| {
      var j := UnitAt(us, b);
      ArraysLeadBack(us, b, j);
      if m < j {
        WidthMonotone(us, m, j);
        TextMonotone(us, m, j);
      } else if j < m {
        TextMonotone(us, j, m);
      }
    }
  }

  /** The source range of the decoded bytes from `a` to `b` is a run of whole units. */
  lemma RunOfUnits(us: seq<Piece>, a: nat, b: nat) returns (k: nat, m: nat)
    requires Positive(us) && a < b <= |TextOf(us)|
    ensures k <= m < |us|
    ensures |TextOf(us[..k])| <= a < |TextOf(us[..k])| + |us[k].text|
    ensures |TextOf(us[..m])| <= b - 1 < |TextOf(us[..m])| + |us[m].text|
    ensures Starts(us, 0)[a] == Width(us[..k])
    ensures Ends(us, 0)[b - 1] == Width(us[..k]) + Width(us[k..m + 1])
    ensures TextOf(us) == TextOf(us[..k]) + TextOf(us[k..m + 1]) + TextOf(us[m + 1..])
    ensures |TextOf(us[..m])| + |us[m].text| == |TextOf(us[..k])| + |TextOf(us[k..m + 1])|
  {
    hide TextOf, Starts, Ends, Width, Positive;
    k := UnitAt(us, a);
    m := UnitAt(us, b - 1);
    if m < k {
      TextMonotone(us, m, k);
    }
    ArraysLeadBack(us, a, k);
    ArraysLeadBack(us, b - 1, m);
    assert us[..m + 1] == us[..k] + us[k..m + 1] == us[..m] + [us[m]];
    TextConcatenated(us[..k], us[k..m + 1]);
    Appended(us[..m], us[m], 0);
    assert us == us[..m + 1] + us[m + 1..];
    TextConcatenated(us[..m + 1], us[m + 1..]);
  }

  lemma MiddleIs(before: seq<Byte>, middle: seq<Byte>, after: seq<Byte>, a: nat, b: nat)
    requires |before| <= a < b <= |before| + |middle|
    ensures middle == (before + middle + after)[a..b] <==> |before| == a && |before| + |middle| == b
  {
    var all := before + middle + after;
    assert all[|before|..|before| + |middle|] == middle;
  }

  /** Projecting the source range of a decoded stretch gives exactly that stretch
      if and only if it is cut along units. */
  lemma ReprojectedIff(t: Tables, d: Decoder, s: seq<Byte>, a: nat, b: nat)
    requires a < b <= |Project(t, d, s).value|
    ensures var p := Project(t, d, s);
      && p.starts[a] < p.ends[b - 1] <= |s|
      && (Project(t, d, s[p.starts[a]..p.ends[b - 1]]).value == p.value[a..b] <==> Clean(p, a, b))
  {
    hide FirstPiece, Units, TextOf, Starts, Ends, Width, Positive;
    var us := Units(t, d, s);
    var p := Project(t, d, s);
    UnitsPositive(t, d, s);
    var k, m := RunOfUnits(us, a, b);
    var run := us[k..m + 1];
    assert us == us[..k] + run + us[m + 1..];
    UnitsOfStretch(t, d, s, us[..k], run, us[m + 1..]);
    WidthMonotone(us, k, m + 1);
    assert us[..m + 1] == us[..k] + run;
    TextConcatenated(us[..k], run);
    MiddleIs(TextOf(us[..k]), TextOf(run), TextOf(us[m + 1..]), a, b);
    UnitStartsAt(us, a, k);
    UnitEndsAt(us, b, m);
    PositivePiece(us, k);
  }

  lemma PositivePiece(us: seq<Piece>, k: nat)
    requires Positive(us) && k < |us|
    ensures us[k].length > 0
  {}
}
