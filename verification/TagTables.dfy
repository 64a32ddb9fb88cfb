/** The character tables of tags: ranges found by binary search, and emoji found by longest match. */
module TagTables {
  import opened Utf8

  datatype CodePointRange = CodePointRange(lo: int, hi: int)

  /** The generated tables list disjoint ranges in increasing order. */
  ghost predicate Ordered(ranges: seq<CodePointRange>) {
    && (forall i :: 0 <= i < |ranges| ==> ranges[i].lo <= ranges[i].hi)
    && (forall i, j :: 0 <= i < j < |ranges| ==> ranges[i].hi < ranges[j].lo)
  }

  predicate Contains(ranges: seq<CodePointRange>, r: int) {
    exists i :: 0 <= i < |ranges| && ranges[i].lo <= r <= ranges[i].hi
  }

  method ContainsCodePoint(ranges: array<CodePointRange>, r: int) returns (found: bool)
    requires Ordered(ranges[..])
    ensures found == Contains(ranges[..], r)
  {
    var low, high := 0, ranges.Length;
    while low < high
      invariant 0 <= low <= high <= ranges.Length
      invariant forall i :: 0 <= i < low ==> ranges[i].hi < r
      invariant forall i :: high <= i < ranges.Length ==> r < ranges[i].lo
    {
      var middle := low + (high - low) / 2;
      var current := ranges[middle];
      if r < current.lo {
        high := middle;
      } else if r > current.hi {
        low := middle + 1;
      } else {
        assert ranges[..][middle] == current;
        return true;
      }
    }
    return false;
  }

  // ----- The tables -----

  const MAX_EMOJI_BYTES := 35

  datatype Tables = Tables(xidContinue: seq<CodePointRange>, ignorable: seq<CodePointRange>,
                           combining: seq<CodePointRange>, emoji: set<seq<Byte>>, entities: set<seq<Byte>>)

  const SLASH: Byte := 0x2F
  const AMPERSAND: Byte := 0x26

  /** What the generated tables satisfy: the emoji are encoded text of at most 35 bytes, and
      neither they nor the identifier characters contain a slash; an ampersand is no identifier character. */
  ghost predicate Generated(t: Tables) {
    && (forall e :: e in t.emoji ==> e != [] && |e| <= MAX_EMOJI_BYTES && ValidUtf8(e) && SLASH !in e)
    && !Contains(t.xidContinue, SLASH) && !Contains(t.xidContinue, AMPERSAND)
  }

  predicate XidContinue(t: Tables, r: int) { Contains(t.xidContinue, r) }

  predicate Ignorable(t: Tables, r: int) { Contains(t.ignorable, r) }

  predicate Combining(t: Tables, r: int) { Contains(t.combining, r) }

  // ----- Emoji -----

  /** The longest emoji of the table that the text starts with, of at most `n` bytes; 0 if none. */
  function LongestEmoji(t: Tables, s: seq<Byte>, n: nat): (length: nat)
    requires n <= |s|
  {
    if n == 0 then 0
    else if s[..n] in t.emoji then n
    else LongestEmoji(t, s, n - 1)
  }

  function EmojiLength(t: Tables, s: seq<Byte>): nat {
    LongestEmoji(t, s, |s|)
  }

  lemma {:induction false} LongestEmojiExact(t: Tables, s: seq<Byte>, n: nat)
    requires n <= |s|
    ensures var m := LongestEmoji(t, s, n);
      && m <= n && (m > 0 ==> s[..m] in t.emoji)
      && forall k :: m < k <= n ==> s[..k] !in t.emoji
  {
    if n > 0 && s[..n] !in t.emoji {
      LongestEmojiExact(t, s, n - 1);
    }
  }

  /** The rune boundaries of a text: where decoding, rune after rune, can stop. */
  ghost predicate Boundary(s: seq<Byte>, n: nat)
    requires n <= |s|
  {
    ValidUtf8(s[..n])
  }

  /** A longer encoded prefix contains the rune that starts at any earlier boundary. */
  lemma NextBoundary(s: seq<Byte>, p: nat, n: nat)
    requires p < n <= |s| && Boundary(s, p) && Boundary(s, n)
    ensures DecodeRune(s[p..]) != INVALID && p + DecodeRune(s[p..]).size <= n
  {
    var part := s[p..n];
    assert s[..n] == s[..p] + part;
    ValidSuffix(s[..p], part);
    DecodeStable(part, s[p..]);
  }

  lemma ExtendBoundary(s: seq<Byte>, p: nat)
    requires p < |s| && Boundary(s, p) && DecodeRune(s[p..]) != INVALID
    ensures Boundary(s, p + DecodeRune(s[p..]).size)
  {
    var q := p + DecodeRune(s[p..]).size;
    SingleRune(s[p..]);
    ValidConcat(s[..p], s[p..][..q - p]);
    assert s[..q] == s[..p] + s[p..][..q - p];
  }

  method MatchFullyQualifiedEmoji(t: Tables, source: seq<Byte>) returns (match_: nat)
    requires Generated(t)
    ensures match_ == EmojiLength(t, source)
  {
    var limit := if |source| < MAX_EMOJI_BYTES then |source| else MAX_EMOJI_BYTES;
    match_ := 0;
    var pos := 0;
    var done := false;
    while pos < limit && !done
      invariant pos <= |source| && match_ <= pos
      invariant pos <= limit || done
      invariant match_ > 0 ==> source[..match_] in t.emoji
      invariant !done ==> Boundary(source, pos)
      invariant forall k :: match_ < k <= pos && k <= limit ==> source[..k] !in t.emoji
      invariant done ==> forall k :: match_ < k <= limit ==> source[..k] !in t.emoji
      decreases limit - pos, !done
    {
      var r := DecodeRune(source[pos..]);
      forall k | pos < k <= limit && source[..k] in t.emoji
        ensures r != INVALID && pos + r.size <= k
      {
        NextBoundary(source, pos, k);
      }
      if r == INVALID {
        done := true;
      } else {
        ExtendBoundary(source, pos);
        pos := pos + r.size;
        if pos > limit {
          done := true;
        } else if source[..pos] in t.emoji {
          match_ := pos;
        }
      }
    }
    LongestIs(t, source, match_);
  }

  lemma LongestIs(t: Tables, s: seq<Byte>, m: nat)
    requires Generated(t) && m <= |s| && (m > 0 ==> s[..m] in t.emoji)
    requires forall k :: m < k <= |s| && k <= MAX_EMOJI_BYTES ==> s[..k] !in t.emoji
    ensures EmojiLength(t, s) == m
  {
    LongestEmojiExact(t, s, |s|);
    var longest := EmojiLength(t, s);
    assert longest > 0 ==> |s[..longest]| == longest;
  }
}
