/** The spelling of a tag, cut out of its text, is the same tag on its own. */
module TagStability {
  import opened Outcomes
  import opened Utf8
  import opened TagTables
  import opened TagScanner
  import opened TagMatches

  // ----- One unit -----

  lemma DecodeOfPrefix(s: seq<Byte>, n: nat)
    requires n <= |s| && 0 < n && DecodeRune(s) != INVALID && DecodeRune(s).size <= n
    ensures DecodeRune(s[..n]) == DecodeRune(s)
  {}

  lemma SliceOfPrefix(s: seq<Byte>, n: nat, p: nat, q: nat)
    requires p <= q <= n <= |s|
    ensures s[..n][p..q] == s[p..q]
  {}

  lemma NoReferenceInPrefix(t: Tables, s: seq<Byte>, n: nat)
    requires n <= |s| && ReferenceLength(t, s) == 0
    ensures ReferenceLength(t, s[..n]) == 0
  {
    hide IsReference;
    var k := ReferenceLength(t, s[..n]);
    assert s[..n][..k] == s[..k];
    assert k > 0 ==> ReferenceAt(t, s, k);
  }

  lemma EmojiOfPrefix(t: Tables, s: seq<Byte>, n: nat)
    requires n <= |s| && EmojiLength(t, s) <= n
    ensures EmojiLength(t, s[..n]) == EmojiLength(t, s)
  {
    hide LongestEmoji;
    var m, k := EmojiLength(t, s), EmojiLength(t, s[..n]);
    LongestEmojiExact(t, s, |s|);
    LongestEmojiExact(t, s[..n], n);
    assert s[..n][..m] == s[..m] && s[..n][..k] == s[..k];
  }

  /** A unit is seen the same as long as it is not cut itself. */
  lemma UnitOfPrefix(t: Tables, s: seq<Byte>, n: nat)
    requires s != [] && n <= |s|
    requires match NextUnit(t, s) case Emoji(k) => k <= n case Character(_, k) => k <= n case _ => false
    ensures n > 0 && NextUnit(t, s[..n]) == NextUnit(t, s)
  {
    hide DecodeRune, LongestEmoji, IsReference;
    NoReferenceInPrefix(t, s, n);
    LongestEmojiExact(t, s, |s|);
    EmojiOfPrefix(t, s, n);
    if NextUnit(t, s).Character? {
      DecodeOfPrefix(s, n);
    }
  }

  lemma SlashUnit(t: Tables, s: seq<Byte>)
    requires Generated(t) && s != [] && s[0] == SLASH
    ensures NextUnit(t, s) == Character(SLASH, 1)
  {
    LongestEmojiExact(t, s, |s|);
    assert forall k :: 0 < k <= |s| ==> s[..k][0] == s[0];
  }

  // ----- The lookahead of an apostrophe -----

  lemma ReferenceStartsPlain(t: Tables, s: seq<Byte>)
    requires s != [] && NextUnit(t, s).Reference?
    ensures s[0] == AMPERSAND && DecodeRune(s) == Rune(AMPERSAND, 1)
  {
    var r := ReferenceLength(t, s);
    assert s[..r][0] == AMPERSAND;
  }

  lemma NothingJoinsReference(t: Tables, s: seq<Byte>)
    requires Generated(t) && JoinsOn(t, s)
    ensures NextUnit(t, s) == Character(DecodeRune(s).code, DecodeRune(s).size)
  {
    if NextUnit(t, s).Reference? {
      ReferenceStartsPlain(t, s);
    }
  }

  /** If scanning the whole text goes on over what follows an apostrophe, the cut text shows it the same. */
  lemma JoinsOnOfPrefix(t: Tables, s: seq<Byte>, n: nat)
    requires Generated(t) && n <= |s|
    requires JoinsOn(t, s) ==> DecodeRune(s).size <= n
    requires s != [] && NextUnit(t, s).Emoji? ==> NextUnit(t, s).length <= n
    ensures JoinsOn(t, s[..n]) == JoinsOn(t, s)
  {
    hide IsReference, LongestEmoji, XidContinue, Combining, Ignorable;
    if n > 0 {
      LongestEmojiExact(t, s, |s|);
      if JoinsOn(t, s) {
        EmojiOfPrefix(t, s, n);
        DecodeOfPrefix(s, n);
      } else if JoinsOn(t, s[..n]) {
        DecodeStable(s[..n], s);
        if EmojiLength(t, s) > 0 {
          JoinedIsNoReference(t, s);
          EmojiOfPrefix(t, s, n);
        }
      }
    }
  }

  /** Before an identifier character there is no reference, so an emoji there is seen as one. */
  lemma JoinedIsNoReference(t: Tables, s: seq<Byte>)
    requires Generated(t) && s != [] && EmojiLength(t, s) > 0 && XidContinue(t, DecodeRune(s).code)
    ensures NextUnit(t, s) == Emoji(EmojiLength(t, s))
  {
    if NextUnit(t, s).Reference? {
      ReferenceStartsPlain(t, s);
    }
  }

  // ----- Segments -----

  /** Scanning goes on at `q`, if it does, no further than `n`. */
  ghost predicate GoesOnWithin(t: Tables, s: seq<Byte>, q: nat, joinable: bool, n: nat) {
    q < |s| && Continuation(t, s, q, joinable).Some? ==> Continuation(t, s, q, joinable).value.end <= n
  }

  lemma EmojiGoesOn(t: Tables, s: seq<Byte>, q: nat, joinable: bool, n: nat)
    requires q <= n <= |s| && GoesOnWithin(t, s, q, joinable, n)
    ensures q < |s| && NextUnit(t, s[q..]).Emoji? ==> NextUnit(t, s[q..]).length <= n - q
  {
    hide NextUnit;
  }

  lemma JoinedGoesOn(t: Tables, s: seq<Byte>, q: nat, n: nat)
    requires Generated(t) && q <= n <= |s| && GoesOnWithin(t, s, q, false, n)
    ensures JoinsOn(t, s[q..]) ==> DecodeRune(s[q..]).size <= n - q
  {
    hide NextUnit, XidContinue, Ignorable, Combining, DecodeRune;
    if JoinsOn(t, s[q..]) {
      NothingJoinsReference(t, s[q..]);
    }
  }

  /** One more unit of a segment is seen the same in the cut text, if scanning the whole stays within the cut. */
  lemma ContinuationOfPrefix(t: Tables, s: seq<Byte>, p: nat, joinable: bool, n: nat)
    requires Generated(t) && p < n <= |s|
    requires Continuation(t, s, p, joinable).Some?
    requires var c := Continuation(t, s, p, joinable).value;
      c.end <= n && GoesOnWithin(t, s, c.end, c.joinable, n)
    ensures Continuation(t, s[..n], p, joinable) == Continuation(t, s, p, joinable)
  {
    hide NextUnit, XidContinue, Ignorable, Combining, DecodeRune, JoinsOn, GoesOnWithin, Generated,
      SegmentContinuation, ApostropheJoiner;
    var cut, tail := s[..n], s[p..];
    assert cut[p..] == tail[..n - p];
    UnitOfPrefix(t, tail, n - p);
    var u := NextUnit(t, tail);
    if u.Emoji? {
      SliceOfPrefix(s, n, p, p + u.length);
    } else {
      var q := p + u.size;
      SliceOfPrefix(s, n, p, q);
      assert cut[q..] == s[q..][..n - q];
      ApostropheOfPrefix(t, s, p, joinable, n, q);
    }
  }

  lemma ApostropheOfPrefix(t: Tables, s: seq<Byte>, p: nat, joinable: bool, n: nat, q: nat)
    requires Generated(t) && p < q <= n <= |s| && NextUnit(t, s[p..]).Character? && q == p + NextUnit(t, s[p..]).size
    requires Continuation(t, s, p, joinable).Some?
    requires GoesOnWithin(t, s, q, Continuation(t, s, p, joinable).value.joinable, n)
    ensures var r := NextUnit(t, s[p..]).code;
      !Ignorable(t, r) && ApostropheJoiner(r) && joinable ==> JoinsOn(t, s[q..][..n - q]) == JoinsOn(t, s[q..])
  {
    hide NextUnit, XidContinue, Ignorable, Combining, DecodeRune, JoinsOn, GoesOnWithin;
    var r := NextUnit(t, s[p..]).code;
    if !Ignorable(t, r) && ApostropheJoiner(r) && joinable {
      EmojiGoesOn(t, s, q, Continuation(t, s, p, joinable).value.joinable, n);
      if JoinsOn(t, s[q..]) {
        JoinedGoesOn(t, s, q, n);
      }
      JoinsOnTail(t, s, q, n);
    }
  }

  lemma JoinsOnTail(t: Tables, s: seq<Byte>, q: nat, n: nat)
    requires Generated(t) && q <= n <= |s|
    requires JoinsOn(t, s[q..]) ==> DecodeRune(s[q..]).size <= n - q
    requires q < |s| && NextUnit(t, s[q..]).Emoji? ==> NextUnit(t, s[q..]).length <= n - q
    ensures JoinsOn(t, s[q..][..n - q]) == JoinsOn(t, s[q..])
  {
    hide NextUnit, JoinsOn, DecodeRune, Generated;
    JoinsOnOfPrefix(t, s[q..], n - q);
  }

  /** A slash ends a segment. */
  lemma SlashEnds(t: Tables, s: seq<Byte>, p: nat, joinable: bool)
    requires Generated(t) && p < |s| && s[p] == SLASH && !Ignorable(t, SLASH)
    ensures Continuation(t, s, p, joinable).None?
  {
    hide NextUnit, JoinsOn;
    SlashUnit(t, s[p..]);
    SlashContinuesNothing(t);
  }

  lemma SlashNotIgnored(t: Tables, s: seq<Byte>, p: nat, joinable: bool)
    requires Generated(t) && p < |s| && s[p] == SLASH && Continuation(t, s, p, joinable).None?
    ensures !Ignorable(t, SLASH)
  {
    hide NextUnit, JoinsOn;
    SlashUnit(t, s[p..]);
  }

  /** A scan that stays within the cut ends the same way there. */
  lemma {:induction false} ExtendedOfPrefix(t: Tables, s: seq<Byte>, scan: Scan, n: nat)
    requires Generated(t) && scan.end <= |s|
    requires var e := Extended(t, s, scan).end; e <= n <= |s| && (n == e || s[e] == SLASH)
    ensures Extended(t, s[..n], scan) == Extended(t, s, scan)
    decreases |s| - scan.end
  {
    hide Continuation, Ignorable;
    var p := scan.end;
    if p < |s| {
      match Continuation(t, s, p, scan.joinable)
      case None =>
        if p < n {
          SlashNotIgnored(t, s, p, scan.joinable);
          SlashEnds(t, s[..n], p, scan.joinable);
        }
      case Some(c) =>
        var next := Scan(c.end, scan.value + c.value, c.joinable);
        assert Extended(t, s, scan) == Extended(t, s, next);
        ExtendedOfPrefix(t, s, next, n);
        ExtendedGoesOn(t, s, next, n);
        ContinuationOfPrefix(t, s, p, scan.joinable, n);
    }
  }

  lemma ExtendedGoesOn(t: Tables, s: seq<Byte>, scan: Scan, n: nat)
    requires scan.end <= |s| && Extended(t, s, scan).end <= n
    ensures GoesOnWithin(t, s, scan.end, scan.joinable, n)
  {
    hide Continuation;
  }

  lemma {:induction false} OpeningOfPrefix(t: Tables, s: seq<Byte>, p: nat, n: nat)
    requires p <= |s| && Opening(t, s, p).Some? && Opening(t, s, p).value.end <= n <= |s|
    ensures Opening(t, s[..n], p) == Opening(t, s, p)
    decreases |s| - p
  {
    hide OpenerAt;
    OpenerOfPrefix(t, s, p, n);
    match OpenerAt(t, s, p)
    case Start(_) =>
    case Skip(size) => OpeningOfPrefix(t, s, p + size, n);
  }

  lemma OpenerOfPrefix(t: Tables, s: seq<Byte>, p: nat, n: nat)
    requires p < n <= |s|
    requires match OpenerAt(t, s, p) case Start(scan) => scan.end <= n case Skip(size) => p + size <= n case Stop => false
    ensures OpenerAt(t, s[..n], p) == OpenerAt(t, s, p)
  {
    hide NextUnit, XidContinue, Ignorable, Combining, SegmentStarter;
    var cut, tail := s[..n], s[p..];
    assert cut[p..] == tail[..n - p];
    UnitOfPrefix(t, tail, n - p);
    var u := NextUnit(t, tail);
    if u.Emoji? {
      SliceOfPrefix(s, n, p, p + u.length);
    } else {
      SliceOfPrefix(s, n, p, p + u.size);
    }
  }

  lemma SegmentOfPrefix(t: Tables, s: seq<Byte>, n: nat)
    requires Generated(t) && Segment(t, s).Some?
    requires var e := Segment(t, s).value.length; e <= n <= |s| && (n == e || s[e] == SLASH)
    ensures Segment(t, s[..n]) == Segment(t, s)
  {
    hide Opening, Extended;
    var o := Opening(t, s, 0).value;
    OpeningOfPrefix(t, s, 0, n);
    ExtendedOfPrefix(t, s, o, n);
  }

  // ----- Identifiers -----

  lemma {:induction false} WithMoreOfPrefix(t: Tables, s: seq<Byte>, id: Identifier)
    requires Generated(t) && id.length <= |s|
    ensures var r := WithMore(t, s, id); WithMore(t, s[..r.length], id) == r
    decreases |s| - id.length
  {
    hide Segment, Generated;
    var r := WithMore(t, s, id);
    var cut := s[..r.length];
    if id.length < |s| && s[id.length] == SLASH && Segment(t, s[id.length + 1..]).Some? {
      var rest := s[id.length + 1..];
      var next := Segment(t, rest).value;
      var id2 := Identifier(id.length + 1 + next.length, id.segments + [next.value]);
      assert r == WithMore(t, s, id2);
      WithMoreOfPrefix(t, s, id2);
      var n := r.length - (id.length + 1);
      assert cut[id.length + 1..] == rest[..n];
      assert n == next.length || rest[next.length] == SLASH;
      SegmentOfPrefix(t, rest, n);
    }
  }

  lemma IdentifierOfPrefix(t: Tables, s: seq<Byte>)
    requires Generated(t) && IdentifierOf(t, s).Some?
    ensures IdentifierOf(t, s[..IdentifierOf(t, s).value.length]) == IdentifierOf(t, s)
  {
    hide Segment;
    var first := Segment(t, s).value;
    var id := Identifier(first.length, [first.value]);
    var r := WithMore(t, s, id);
    assert r.length == first.length || s[first.length] == SLASH;
    SegmentOfPrefix(t, s, r.length);
    WithMoreOfPrefix(t, s, id);
  }

  // ----- Matches -----

  lemma SpellingFound(t: Tables, s: seq<Byte>, pos: nat)
    requires Generated(t) && pos < |s| && FindingAt(t, s, pos).Report?
    ensures var m := FindingAt(t, s, pos).tag;
      FindingAt(t, s[pos..m.end], 0) == Report(TagMatch(0, m.end - pos, m.value))
  {
    hide IdentifierOf, DecodeRune, LongestEmoji, IsReference;
    var m := FindingAt(t, s, pos).tag;
    var tail, w := s[pos..], s[pos..m.end];
    var after := s[pos + 1..];
    IdentifierOfPrefix(t, after);
    assert w == tail[..m.end - pos] && w[0..] == w;
    NoReferenceInPrefix(t, tail, m.end - pos);
    EmojiOfPrefix(t, tail, m.end - pos);
    assert w[1..] == after[..m.end - pos - 1];
  }

  /** The spelling of a match, on its own, is exactly one tag: itself. */
  lemma {:induction false} SpellingIsTag(t: Tables, s: seq<Byte>, pos: nat, m: TagMatch)
    requires Generated(t) && pos <= |s| && m in MatchesFrom(t, s, pos)
    ensures m.start < m.end <= |s|
    ensures MatchesFrom(t, s[m.start..m.end], 0) == [TagMatch(0, m.end - m.start, m.value)]
    decreases |s| - pos
  {
    hide FindingAt;
    match FindingAt(t, s, pos)
    case MoveTo(next) =>
      assert MatchesFrom(t, s, pos) == MatchesFrom(t, s, next);
      SpellingIsTag(t, s, next, m);
    case Report(found) =>
      assert MatchesFrom(t, s, pos) == [found] + MatchesFrom(t, s, found.end);
      if m == found {
        SpellingFound(t, s, pos);
        var w := s[m.start..m.end];
        assert MatchesFrom(t, w, |w|) == [];
      } else {
        SpellingIsTag(t, s, found.end, m);
      }
  }
}
