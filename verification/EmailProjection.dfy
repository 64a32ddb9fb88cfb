/** Email autolinks: the text is matched after decoding, and arrays lead back to its spelling. */
module EmailProjection {
  import opened Utf8
  import opened TagTables
  import opened TagScanner

  /** What a character reference stands for. */
  type Decoder = seq<Byte> -> seq<Byte>

  ghost predicate Decodes(t: Tables, d: Decoder) {
    forall u: seq<Byte> :: IsReference(t, u) ==> d(u) != []
  }

  // ----- The units of a text -----

  /** A stretch of source and what it decodes to. */
  datatype Piece = Piece(length: nat, text: seq<Byte>)

  ghost function FirstPiece(t: Tables, d: Decoder, s: seq<Byte>): (u: Piece)
    requires s != []
    ensures 0 < u.length <= |s|
  {
    if s[0] == BACKSLASH && |s| > 1 && Punctuation(s[1]) then Piece(2, [s[1]])
    else if ReferenceLength(t, s) > 0 then Piece(ReferenceLength(t, s), d(s[..ReferenceLength(t, s)]))
    else Piece(1, [s[0]])
  }

  ghost function Units(t: Tables, d: Decoder, s: seq<Byte>): seq<Piece>
    decreases |s|
  {
    if s == [] then []
    else [FirstPiece(t, d, s)] + Units(t, d, s[FirstPiece(t, d, s).length..])
  }

  function Width(us: seq<Piece>): nat {
    if us == [] then 0 else us[0].length + Width(us[1..])
  }

  function TextOf(us: seq<Piece>): seq<Byte> {
    if us == [] then [] else us[0].text + TextOf(us[1..])
  }

  function Copies(x: nat, n: nat): seq<nat> {
    seq(n, _ => x)
  }

  /** For every decoded byte, where its unit starts. */
  function Starts(us: seq<Piece>, base: nat): (r: seq<nat>)
    ensures |r| == |TextOf(us)|
    decreases us
  {
    if us == [] then [] else Copies(base, |us[0].text|) + Starts(us[1..], base + us[0].length)
  }

  /** For every decoded byte, where its unit ends. */
  function Ends(us: seq<Piece>, base: nat): (r: seq<nat>)
    ensures |r| == |TextOf(us)|
    decreases us
  {
    if us == [] then [] else
      Copies(base + us[0].length, |us[0].text|) + Ends(us[1..], base + us[0].length)
  }

  datatype Projection = Projection(value: seq<Byte>, starts: seq<nat>, ends: seq<nat>)

  function Projected(us: seq<Piece>): Projection {
    Projection(TextOf(us), Starts(us, 0), Ends(us, 0))
  }

  ghost function Project(t: Tables, d: Decoder, s: seq<Byte>): Projection {
    Projected(Units(t, d, s))
  }

  // ----- Appending units -----

  lemma {:induction false} TextConcatenated(us: seq<Piece>, vs: seq<Piece>)
    ensures Width(us + vs) == Width(us) + Width(vs)
    ensures TextOf(us + vs) == TextOf(us) + TextOf(vs)
    decreases |us|
  {
    if us == [] {
      assert us + vs == vs;
    } else {
      assert (us + vs)[1..] == us[1..] + vs;
      TextConcatenated(us[1..], vs);
    }
  }

  lemma {:induction false} ArraysConcatenated(us: seq<Piece>, vs: seq<Piece>, base: nat)
    ensures Starts(us + vs, base) == Starts(us, base) + Starts(vs, base + Width(us))
    ensures Ends(us + vs, base) == Ends(us, base) + Ends(vs, base + Width(us))
    decreases |us|
  {
    hide Copies, TextOf;
    if us == [] {
      assert us + vs == vs;
    } else {
      var next := base + us[0].length;
      assert (us + vs)[0] == us[0] && (us + vs)[1..] == us[1..] + vs;
      ArraysConcatenated(us[1..], vs, next);
      assert next + Width(us[1..]) == base + Width(us);
    }
  }

  lemma Appended(us: seq<Piece>, u: Piece, base: nat)
    ensures Width(us + [u]) == Width(us) + u.length
    ensures TextOf(us + [u]) == TextOf(us) + u.text
    ensures Starts(us + [u], base) == Starts(us, base) + Copies(base + Width(us), |u.text|)
    ensures Ends(us + [u], base) == Ends(us, base) + Copies(base + Width(us) + u.length, |u.text|)
  {
    hide Width, TextOf, Starts, Ends, Copies;
    TextConcatenated(us, [u]);
    ArraysConcatenated(us, [u], base);
    OnePiece(u, base + Width(us));
  }

  lemma OnePiece(u: Piece, base: nat)
    ensures Width([u]) == u.length && TextOf([u]) == u.text
    ensures Starts([u], base) == Copies(base, |u.text|)
    ensures Ends([u], base) == Copies(base + u.length, |u.text|)
  {
    assert [u][1..] == [];
  }

  /** `us` are the units of the source up to `cursor`, and `p` is their projection. */
  ghost predicate ProjectedTo(t: Tables, d: Decoder, source: seq<Byte>, us: seq<Piece>, p: Projection, cursor: nat) {
    && cursor == Width(us) && cursor <= |source|
    && us + Units(t, d, source[cursor..]) == Units(t, d, source)
    && p == Projected(us)
  }

  /** The projection with one more unit at `cursor`. */
  function WithPiece(p: Projection, u: Piece, cursor: nat): Projection {
    Projection(p.value + u.text, p.starts + Copies(cursor, |u.text|), p.ends + Copies(cursor + u.length, |u.text|))
  }

  lemma ProjectedNext(t: Tables, d: Decoder, source: seq<Byte>, us: seq<Piece>, p: Projection, cursor: nat)
    requires ProjectedTo(t, d, source, us, p, cursor) && cursor < |source|
    ensures var u := FirstPiece(t, d, source[cursor..]);
      ProjectedTo(t, d, source, us + [u], WithPiece(p, u, cursor), cursor + u.length)
  {
    hide FirstPiece, Starts, Ends, TextOf;
    var rest := source[cursor..];
    var u := FirstPiece(t, d, rest);
    Appended(us, u, 0);
    assert rest[u.length..] == source[cursor + u.length..];
    assert us + ([u] + Units(t, d, rest[u.length..])) == (us + [u]) + Units(t, d, rest[u.length..]);
  }

  method ProjectGFMEmailText(t: Tables, d: Decoder, source: seq<Byte>) returns (p: Projection)
    ensures p == Project(t, d, source)
  {
    hide IsReference, Units, Projected, Width;
    p := Projection([], [], []);
    var cursor: nat := 0;
    ghost var us: seq<Piece> := [];
    assert ProjectedTo(t, d, source, us, p, cursor) by {
      ProjectedFromStart(t, d, source);
    }
    while cursor < |source|
      invariant ProjectedTo(t, d, source, us, p, cursor)
      decreases |source| - cursor
    {
      var rest := source[cursor..];
      ghost var u := FirstPiece(t, d, rest);
      ghost var before := p;
      ProjectedNext(t, d, source, us, p, cursor);
      us := us + [u];
      if source[cursor] == BACKSLASH && cursor + 1 < |source| && Punctuation(source[cursor + 1]) {
        p := Projection(p.value + [source[cursor + 1]], p.starts + [cursor], p.ends + [cursor + 2]);
        assert p == WithPiece(before, u, cursor);
        cursor := cursor + 2;
        continue;
      }
      var referenceLength := CharacterReferenceLength(t, rest);
      if referenceLength > 0 {
        var end := cursor + referenceLength;
        var decoded := d(source[cursor..end]);
        assert source[cursor..end] == rest[..referenceLength];
        p := Projection(p.value + decoded, p.starts + Copies(cursor, |decoded|), p.ends + Copies(end, |decoded|));
        assert p == WithPiece(before, u, cursor);
        cursor := end;
        continue;
      }
      p := Projection(p.value + [source[cursor]], p.starts + [cursor], p.ends + [cursor + 1]);
      assert p == WithPiece(before, u, cursor);
      cursor := cursor + 1;
    }
    ProjectedToEnd(t, d, source, us, p, cursor);
  }

  lemma ProjectedFromStart(t: Tables, d: Decoder, source: seq<Byte>)
    ensures ProjectedTo(t, d, source, [], Projection([], [], []), 0)
  {
    assert source[0..] == source;
    assert [] + Units(t, d, source) == Units(t, d, source);
  }

  lemma ProjectedToEnd(t: Tables, d: Decoder, source: seq<Byte>, us: seq<Piece>, p: Projection, cursor: nat)
    requires ProjectedTo(t, d, source, us, p, cursor) && cursor == |source|
    ensures p == Project(t, d, source)
  {
    assert us + [] == us;
  }
}
