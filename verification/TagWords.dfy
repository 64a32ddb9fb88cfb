/** Which texts are tags: a hash and words of identifier characters, joined by slashes. */
module TagWords {
  import opened Outcomes
  import opened Texts
  import opened Utf8
  import opened TagTables
  import opened TagScanner
  import opened TagMatches

  // ----- Words -----

  /** A character that can stand anywhere in a tag. */
  predicate WordCharacter(t: Tables, c: int) {
    ScalarValue(c) && XidContinue(t, c) && !Combining(t, c) && !Ignorable(t, c)
  }

  predicate WordCharacters(t: Tables, word: seq<int>)
    ensures WordCharacters(t, word) ==> ScalarValues(word)
  {
    forall i :: 0 <= i < |word| ==> WordCharacter(t, word[i])
  }

  predicate ScalarValues(word: seq<int>) {
    forall i :: 0 <= i < |word| ==> ScalarValue(word[i])
  }

  /** The characters in UTF-8. */
  function Spelled(word: seq<int>): seq<Byte>
    requires ScalarValues(word)
  {
    if word == [] then [] else Encode(word[0]) + Spelled(word[1..])
  }

  ghost predicate NoEmoji(t: Tables, s: seq<Byte>) {
    forall a, b :: 0 <= a <= b <= |s| ==> s[a..b] !in t.emoji
  }

  lemma NoEmojiBehind(t: Tables, s: seq<Byte>, n: nat)
    requires NoEmoji(t, s) && n <= |s|
    ensures NoEmoji(t, s[n..])
  {
    var rest := s[n..];
    forall a, b | 0 <= a <= b <= |rest| ensures rest[a..b] !in t.emoji {
      assert rest[a..b] == s[n + a..n + b];
    }
  }

  lemma NoEmojiInFront(t: Tables, s: seq<Byte>)
    requires NoEmoji(t, s)
    ensures EmojiLength(t, s) == 0
  {
    LongestEmojiExact(t, s, |s|);
    assert s[0..EmojiLength(t, s)] == s[..EmojiLength(t, s)];
  }

  lemma ReferenceStarts(t: Tables, s: seq<Byte>, n: nat)
    requires ReferenceAt(t, s, n)
    ensures s != [] && s[0] == AMPERSAND
  {
    assert s[..n][0] == s[0];
  }

  lemma ReferenceNeedsAmpersand(t: Tables, s: seq<Byte>)
    requires s != [] && s[0] != AMPERSAND
    ensures ReferenceLength(t, s) == 0
  {
    hide IsReference;
    var n := ReferenceLength(t, s);
    if n > 0 {
      ReferenceStarts(t, s, n);
    }
  }

  lemma NextOfWord(t: Tables, c: int, rest: seq<Byte>)
    requires Generated(t) && WordCharacter(t, c) && NoEmoji(t, Encode(c) + rest)
    ensures NextUnit(t, Encode(c) + rest) == Character(c, |Encode(c)|)
  {
    hide Encode, Contains;
    DecodesEncoded(c, rest);
    EncodedLength(c);
    NoEmojiInFront(t, Encode(c) + rest);
    ReferenceNeedsAmpersand(t, Encode(c) + rest);
  }

  /** Where a word may end: at the end of the text or at a slash. */
  predicate EndsWord(rest: seq<Byte>) {
    rest == [] || rest[0] == SLASH
  }

  lemma StopsAtSlash(t: Tables, s: seq<Byte>, pos: nat, joinable: bool)
    requires Generated(t) && !Ignorable(t, SLASH) && NoEmoji(t, s) && pos < |s| && s[pos] == SLASH
    ensures Continuation(t, s, pos, joinable) == None
  {
    hide Contains, Generated;
    NoEmojiBehind(t, s, pos);
    NoEmojiInFront(t, s[pos..]);
    ReferenceNeedsAmpersand(t, s[pos..]);
    SlashIsNoIdentifier(t);
  }

  lemma SlashIsNoIdentifier(t: Tables)
    requires Generated(t)
    ensures !XidContinue(t, SLASH) && !XidContinue(t, AMPERSAND)
  {}

  lemma ExtendedBy(t: Tables, s: seq<Byte>, scan: Scan, next: Scan)
    requires scan.end < |s| && Continuation(t, s, scan.end, scan.joinable) == Some(next)
    ensures next.end <= |s| && Extended(t, s, scan) == Extended(t, s, Scan(next.end, scan.value + next.value, next.joinable))
  {
    hide Continuation;
  }

  lemma SpelledFirst(word: seq<int>, rest: seq<Byte>)
    requires word != [] && ScalarValues(word)
    ensures ScalarValues(word[1..]) && Spelled(word) == Encode(word[0]) + Spelled(word[1..])
    ensures Spelled(word) + rest == Encode(word[0]) + (Spelled(word[1..]) + rest)
  {
    hide Encode;
  }

  lemma WordEnds(t: Tables, s: seq<Byte>, scan: Scan, rest: seq<Byte>)
    requires Generated(t) && !Ignorable(t, SLASH) && NoEmoji(t, s) && EndsWord(rest)
    requires scan.end <= |s| && s[scan.end..] == rest
    ensures Extended(t, s, scan) == scan
  {
    hide Continuation, Contains, Generated, NoEmoji;
    if scan.end < |s| {
      assert s[scan.end] == s[scan.end..][0];
      StopsAtSlash(t, s, scan.end, scan.joinable);
    }
  }

  /** A segment goes on to the end of its word. */
  lemma {:induction false} ExtendedWord(t: Tables, s: seq<Byte>, scan: Scan, word: seq<int>, rest: seq<Byte>)
    requires Generated(t) && !Ignorable(t, SLASH) && NoEmoji(t, s) && EndsWord(rest)
    requires WordCharacters(t, word)
    requires scan.end <= |s| && s[scan.end..] == Spelled(word) + rest
    ensures Extended(t, s, scan).end == scan.end + |Spelled(word)|
    ensures Extended(t, s, scan).value == scan.value + Spelled(word)
    decreases |word|
  {
    hide Encode, Contains, Generated, NextUnit, Continuation, Extended, Spelled, NoEmoji, WordCharacter;
    if word == [] {
      assert Spelled(word) == [] by {
        NothingSpelled();
      }
      assert s[scan.end..] == rest;
      WordEnds(t, s, scan, rest);
    } else {
      SpelledFirst(word, rest);
      var next := NextScan(t, s, scan, word[0], Spelled(word[1..]) + rest);
      ExtendedBy(t, s, scan, next);
      ExtendedWord(t, s, Scan(next.end, scan.value + next.value, next.joinable), word[1..], rest);
    }
  }

  lemma NothingSpelled()
    ensures Spelled([]) == []
  {}

  lemma NextScan(t: Tables, s: seq<Byte>, scan: Scan, c: int, behind: seq<Byte>) returns (next: Scan)
    requires Generated(t) && WordCharacter(t, c) && NoEmoji(t, s) && scan.end <= |s| && s[scan.end..] == Encode(c) + behind
    ensures scan.end < |s| && Continuation(t, s, scan.end, scan.joinable) == Some(next)
    ensures next.value == Encode(c) && next.end == scan.end + |Encode(c)| <= |s| && s[next.end..] == behind
  {
    hide Encode, Contains, Generated, NextUnit;
    EncodedLength(c);
    assert |s[scan.end..]| == |Encode(c)| + |behind|;
    NoEmojiBehind(t, s, scan.end);
    NextOfWord(t, c, behind);
    next := Continuation(t, s, scan.end, scan.joinable).value;
    assert s[scan.end..next.end] == s[scan.end..][..|Encode(c)|];
    assert s[next.end..] == s[scan.end..][|Encode(c)|..];
  }

  lemma OpeningOfWord(t: Tables, c: int, behind: seq<Byte>) returns (opening: Scan)
    requires Generated(t) && WordCharacter(t, c) && NoEmoji(t, Encode(c) + behind)
    ensures Opening(t, Encode(c) + behind, 0) == Some(opening)
    ensures opening.value == Encode(c) && opening.end == |Encode(c)| && (Encode(c) + behind)[opening.end..] == behind
  {
    hide Encode, Contains, Generated, NextUnit, NoEmoji;
    var s := Encode(c) + behind;
    EncodedLength(c);
    NextOfWord(t, c, behind);
    assert s[0..] == s && s[0..|Encode(c)|] == Encode(c);
    opening := Scan(|Encode(c)|, Encode(c), XidContinue(t, c));
  }

  /** A word is a segment. */
  lemma SegmentOfWord(t: Tables, word: seq<int>, rest: seq<Byte>)
    requires Generated(t) && !Ignorable(t, SLASH) && word != [] && WordCharacters(t, word) && EndsWord(rest)
    requires NoEmoji(t, Spelled(word) + rest)
    ensures Segment(t, Spelled(word) + rest) == Some(Spelling(|Spelled(word)|, Spelled(word)))
  {
    hide Encode, Contains, Generated, NextUnit, Extended, Opening, Spelled, NoEmoji, WordCharacter, EndsWord;
    SpelledFirst(word, rest);
    var opening := OpeningOfWord(t, word[0], Spelled(word[1..]) + rest);
    ExtendedWord(t, Spelled(word) + rest, opening, word[1..], rest);
  }

  // ----- Paths -----

  function Tail(words: seq<seq<int>>): seq<Byte>
    requires forall i :: 0 <= i < |words| ==> ScalarValues(words[i])
  {
    if words == [] then [] else [SLASH] + (Spelled(words[0]) + Tail(words[1..]))
  }

  ghost predicate TagWordList(t: Tables, words: seq<seq<int>>)
    ensures TagWordList(t, words) ==> forall i :: 0 <= i < |words| ==> ScalarValues(words[i])
  {
    forall i :: 0 <= i < |words| ==> words[i] != [] && WordCharacters(t, words[i])
  }

  lemma OneMoreWord(t: Tables, s: seq<Byte>, id: Identifier, word: seq<int>, rest: seq<Byte>) returns (next: Identifier)
    requires Generated(t) && !Ignorable(t, SLASH) && NoEmoji(t, s) && word != [] && WordCharacters(t, word) && EndsWord(rest)
    requires id.length <= |s| && s[id.length..] == [SLASH] + (Spelled(word) + rest)
    ensures next.length <= |s| && next.segments == id.segments + [Spelled(word)] && s[next.length..] == rest
    ensures WithMore(t, s, id) == WithMore(t, s, next)
  {
    hide Contains, Generated, Segment, Spelled, WordCharacters, NoEmoji;
    assert |s[id.length..]| == 1 + |Spelled(word)| + |rest|;
    assert s[id.length] == s[id.length..][0];
    var behind := s[id.length + 1..];
    assert behind == s[id.length..][1..];
    NoEmojiBehind(t, s, id.length + 1);
    SegmentOfWord(t, word, rest);
    next := Identifier(id.length + 1 + |Spelled(word)|, id.segments + [Spelled(word)]);
    assert s[next.length..] == behind[|Spelled(word)|..];
  }

  lemma TailStarts(words: seq<seq<int>>)
    requires forall i :: 0 <= i < |words| ==> ScalarValues(words[i])
    ensures EndsWord(Tail(words))
    ensures words != [] ==> Tail(words) == [SLASH] + (Spelled(words[0]) + Tail(words[1..]))
    ensures words == [] ==> Tail(words) == []
  {}

  /** Further words are further segments. */
  lemma {:induction false} MoreWords(t: Tables, s: seq<Byte>, id: Identifier, words: seq<seq<int>>)
    requires Generated(t) && !Ignorable(t, SLASH) && NoEmoji(t, s) && TagWordList(t, words)
    requires id.segments != [] && id.length <= |s| && s[id.length..] == Tail(words)
    ensures var r := WithMore(t, s, id);
      && r.length == |s| && Join(SLASH, r.segments) == Join(SLASH, id.segments) + Tail(words)
    decreases |words|
  {
    hide Contains, Generated, Segment, Spelled, WordCharacters, NoEmoji, Join, WithMore, Tail, EndsWord;
    TailStarts(words);
    if words == [] {
      assert WithMore(t, s, id) == id by {
        AtTheEnd(t, s, id);
      }
    } else {
      TailStarts(words[1..]);
      var next := OneMoreWord(t, s, id, words[0], Tail(words[1..]));
      MoreWords(t, s, next, words[1..]);
      JoinExtended(SLASH, id.segments, Spelled(words[0]));
      Regrouped(Join(SLASH, id.segments), Spelled(words[0]), Tail(words[1..]));
    }
  }

  lemma AtTheEnd(t: Tables, s: seq<Byte>, id: Identifier)
    requires id.length == |s|
    ensures WithMore(t, s, id) == id
  {}

  lemma Regrouped(a: seq<Byte>, b: seq<Byte>, c: seq<Byte>)
    ensures a + [SLASH] + b + c == a + ([SLASH] + (b + c))
  {}

  /** A hash and words with slashes between them are one tag, whose value is everything behind the hash. */
  lemma PathIsTag(t: Tables, first: seq<int>, more: seq<seq<int>>)
    requires Generated(t) && !Ignorable(t, SLASH) && TagWordList(t, [first] + more)
    requires ScalarValues(first) && forall i :: 0 <= i < |more| ==> ScalarValues(more[i])
    requires NoEmoji(t, [HASH] + (Spelled(first) + Tail(more)))
    ensures var v := Spelled(first) + Tail(more);
      MatchesFrom(t, [HASH] + v, 0) == [TagMatch(0, |v| + 1, v)]
  {
    hide Contains, Generated, Segment, Spelled, WordCharacters, NoEmoji, WithMore;
    var v := Spelled(first) + Tail(more);
    var s := [HASH] + v;
    assert ([first] + more)[0] == first && ([first] + more)[1..] == more;
    NoEmojiBehind(t, s, 1);
    assert s[1..] == v && s[0..] == s;
    SegmentOfWord(t, first, Tail(more));
    MoreWords(t, v, Identifier(|Spelled(first)|, [Spelled(first)]), more);
    NoEmojiInFront(t, s);
    ReferenceNeedsAmpersand(t, s);
    assert MatchesFrom(t, s, |s|) == [];
  }

  /** For instance `#voilà`, whose last character takes two bytes. */
  lemma VoilaIsTag(t: Tables)
    requires Generated(t) && !Ignorable(t, SLASH) && NoEmoji(t, [0x23, 0x76, 0x6F, 0x69, 0x6C, 0xC3, 0xA0])
    requires forall c :: c in {0x76, 0x6F, 0x69, 0x6C, 0xE0} ==> XidContinue(t, c) && !Combining(t, c) && !Ignorable(t, c)
    ensures MatchesFrom(t, [0x23, 0x76, 0x6F, 0x69, 0x6C, 0xC3, 0xA0], 0) ==
            [TagMatch(0, 7, [0x76, 0x6F, 0x69, 0x6C, 0xC3, 0xA0])]
  {
    hide Contains, Generated, MatchesFrom, NoEmoji;
    var word := [0x76, 0x6F, 0x69, 0x6C, 0xE0];
    assert word[1..] == [0x6F, 0x69, 0x6C, 0xE0] && [0x6F, 0x69, 0x6C, 0xE0][1..] == [0x69, 0x6C, 0xE0];
    assert [0x69, 0x6C, 0xE0][1..] == [0x6C, 0xE0] && [0x6C, 0xE0][1..] == [0xE0] && [0xE0][1..] == [];
    assert Spelled([]) == [] && Spelled([0xE0]) == [0xC3, 0xA0];
    assert Spelled([0x6C, 0xE0]) == [0x6C, 0xC3, 0xA0];
    assert Spelled([0x69, 0x6C, 0xE0]) == [0x69, 0x6C, 0xC3, 0xA0];
    assert Spelled([0x6F, 0x69, 0x6C, 0xE0]) == [0x6F, 0x69, 0x6C, 0xC3, 0xA0];
    assert Spelled(word) + Tail([]) == [0x76, 0x6F, 0x69, 0x6C, 0xC3, 0xA0];
    assert [HASH] + (Spelled(word) + Tail([])) == [0x23, 0x76, 0x6F, 0x69, 0x6C, 0xC3, 0xA0];
    assert WordCharacters(t, word);
    PathIsTag(t, word, []);
  }
}
