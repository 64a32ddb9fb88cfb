/** Scanning tags: character references, segments, identifiers, and the matches of a literal run. */
module TagScanner {
  import opened Outcomes
  import opened Utf8
  import opened TagTables

  const HASH: Byte := 0x23
  const APOSTROPHE: Byte := 0x27
  const SEMICOLON: Byte := 0x3B
  const BACKSLASH: Byte := 0x5C

  predicate Digit(b: Byte) { 0x30 <= b <= 0x39 }

  predicate HexDigit(b: Byte) { Digit(b) || 0x41 <= b <= 0x46 || 0x61 <= b <= 0x66 }

  predicate AlphaNumeric(b: Byte) { Digit(b) || 0x41 <= b <= 0x5A || 0x61 <= b <= 0x7A }

  /** ASCII punctuation, which a backslash escapes. */
  predicate Punctuation(b: Byte) { 0x21 <= b <= 0x7E && !AlphaNumeric(b) }

  // ----- Character references -----

  predicate DecimalReference(u: seq<Byte>) {
    && 4 <= |u| <= 10 && u[0] == AMPERSAND && u[1] == HASH && u[|u| - 1] == SEMICOLON
    && forall i :: 2 <= i < |u| - 1 ==> Digit(u[i])
  }

  predicate HexReference(u: seq<Byte>) {
    && 5 <= |u| <= 10 && u[0] == AMPERSAND && u[1] == HASH && u[2] in {0x58, 0x78} && u[|u| - 1] == SEMICOLON
    && forall i :: 3 <= i < |u| - 1 ==> HexDigit(u[i])
  }

  predicate NamedReference(t: Tables, u: seq<Byte>) {
    && 3 <= |u| <= 34 && u[0] == AMPERSAND && u[|u| - 1] == SEMICOLON
    && (forall i :: 1 <= i < |u| - 1 ==> AlphaNumeric(u[i]))
    && u[1..|u| - 1] in t.entities
  }

  predicate IsReference(t: Tables, u: seq<Byte>) {
    DecimalReference(u) || HexReference(u) || NamedReference(t, u)
  }

  ghost predicate ReferenceAt(t: Tables, s: seq<Byte>, n: nat) {
    n <= |s| && IsReference(t, s[..n])
  }

  /** The length of the character reference the text starts with; 0 if there is none. */
  ghost function ReferenceLength(t: Tables, s: seq<Byte>): (n: nat)
    ensures n <= |s|
    ensures n > 0 ==> ReferenceAt(t, s, n)
    ensures n == 0 ==> forall k: nat :: !ReferenceAt(t, s, k)
  {
    if k: nat :| ReferenceAt(t, s, k) then k else 0
  }

  lemma SemicolonLast(t: Tables, u: seq<Byte>, i: nat)
    requires IsReference(t, u) && i < |u| && u[i] == SEMICOLON
    ensures i == |u| - 1
  {}

  /** A text starts with at most one reference. */
  lemma ReferenceUnique(t: Tables, s: seq<Byte>, n: nat)
    requires ReferenceAt(t, s, n)
    ensures ReferenceLength(t, s) == n
  {
    var k := ReferenceLength(t, s);
    if k < n {
      assert s[..n][k - 1] == s[..k][k - 1];
      SemicolonLast(t, s[..n], k - 1);
    } else if n < k {
      assert s[..k][n - 1] == s[..n][n - 1];
      SemicolonLast(t, s[..k], n - 1);
    }
  }

  method NumericReferenceLength(t: Tables, source: seq<Byte>) returns (n: nat)
    requires |source| >= 3 && source[0] == AMPERSAND && source[1] == HASH
    ensures n == ReferenceLength(t, source)
  {
    var pos, maxDigits, hex := 2, 7, false;
    if source[pos] == 0x78 || source[pos] == 0x58 {
      pos := 3;
      maxDigits := 6;
      hex := true;
    }
    var start := pos;
    while pos < |source| && pos - start < maxDigits && (if hex then HexDigit(source[pos]) else Digit(source[pos]))
      invariant start <= pos <= |source| && pos - start <= maxDigits
      invariant forall i :: start <= i < pos ==> if hex then HexDigit(source[i]) else Digit(source[i])
    {
      pos := pos + 1;
    }
    if pos > start && pos < |source| && source[pos] == SEMICOLON {
      assert if hex then HexReference(source[..pos + 1]) else DecimalReference(source[..pos + 1]);
      ReferenceUnique(t, source, pos + 1);
      return pos + 1;
    }
    forall k: nat | k <= |source| ensures !ReferenceAt(t, source, k) {
      var u := source[..k];
      assert k >= 3 ==> u[1] == HASH;
      assert pos < k ==> u[pos] == source[pos];
    }
    return 0;
  }

  method CharacterReferenceLength(t: Tables, source: seq<Byte>) returns (n: nat)
    ensures n == ReferenceLength(t, source)
  {
    if |source| < 3 || source[0] != AMPERSAND {
      return 0;
    }
    if source[1] == HASH {
      n := NumericReferenceLength(t, source);
      return;
    }
    var pos := 1;
    while pos < |source| && pos <= 32 && AlphaNumeric(source[pos])
      invariant 1 <= pos <= |source| && pos <= 33
      invariant forall i :: 1 <= i < pos ==> AlphaNumeric(source[i])
    {
      pos := pos + 1;
    }
    if pos == 1 || pos >= |source| || source[pos] != SEMICOLON || source[1..pos] !in t.entities {
      forall k: nat | k <= |source| ensures !ReferenceAt(t, source, k) {
        var u := source[..k];
        assert k >= 3 ==> u[1] == source[1];
        assert pos < k ==> u[pos] == source[pos];
        assert k == pos + 1 ==> u[1..pos] == source[1..pos];
      }
      return 0;
    }
    assert NamedReference(t, source[..pos + 1]) by {
      assert source[..pos + 1][1..pos] == source[1..pos];
    }
    ReferenceUnique(t, source, pos + 1);
    return pos + 1;
  }

  // ----- Segments -----

  predicate SegmentSign(r: int) { r in {0x26, 0x2B, 0x2D} }

  predicate SegmentStarter(t: Tables, r: int) {
    SegmentSign(r) || (XidContinue(t, r) && !Combining(t, r) && !Ignorable(t, r))
  }

  predicate SegmentContinuation(t: Tables, r: int) {
    SegmentSign(r) || (XidContinue(t, r) && !Ignorable(t, r))
  }

  predicate ApostropheJoiner(r: int) { r == APOSTROPHE || r == 0x2019 }

  /** What the scanner sees next. */
  datatype Unit = Reference | Emoji(length: nat) | Malformed | Character(code: int, size: nat)

  ghost predicate EmojiAt(t: Tables, s: seq<Byte>, n: nat) {
    0 < n <= |s| && s[..n] in t.emoji
  }

  ghost function NextUnit(t: Tables, s: seq<Byte>): (u: Unit)
    requires s != []
    ensures u.Emoji? ==> EmojiAt(t, s, u.length)
    ensures u.Character? ==> Rune(u.code, u.size) == DecodeRune(s) != INVALID
  {
    LongestEmojiExact(t, s, |s|);
    if ReferenceLength(t, s) > 0 then Reference
    else if EmojiLength(t, s) > 0 then Emoji(EmojiLength(t, s))
    else if DecodeRune(s) == INVALID then Malformed
    else Character(DecodeRune(s).code, DecodeRune(s).size)
  }

  predicate JoinsOn(t: Tables, s: seq<Byte>) {
    && s != [] && EmojiLength(t, s) == 0 && DecodeRune(s) != INVALID
    && XidContinue(t, DecodeRune(s).code) && !Combining(t, DecodeRune(s).code) && !Ignorable(t, DecodeRune(s).code)
  }

  /** Where scanning has come to, what it emitted on the way, and whether an apostrophe may follow. */
  datatype Scan = Scan(end: nat, value: seq<Byte>, joinable: bool)

  /** What a unit means before a segment has started. */
  datatype Opener = Skip(size: nat) | Start(scan: Scan) | Stop

  ghost function OpenerAt(t: Tables, s: seq<Byte>, pos: nat): (o: Opener)
    requires pos < |s|
    ensures o.Skip? ==> 0 < o.size <= |s| - pos
    ensures o.Start? ==> pos < o.scan.end <= |s| && o.scan.value != []
  {
    match NextUnit(t, s[pos..])
    case Emoji(n) => Start(Scan(pos + n, s[pos..pos + n], false))
    case Character(r, size) =>
      if Ignorable(t, r) || (XidContinue(t, r) && Combining(t, r)) then Skip(size)
      else if SegmentStarter(t, r) then Start(Scan(pos + size, s[pos..pos + size], XidContinue(t, r)))
      else Stop
    case _ => Stop
  }

  /** Leading marks are skipped, and one emoji or starter is emitted. */
  ghost function Opening(t: Tables, s: seq<Byte>, pos: nat): (o: Option<Scan>)
    requires pos <= |s|
    ensures o.Some? ==> pos < o.value.end <= |s| && o.value.value != []
    decreases |s| - pos
  {
    if pos == |s| then None
    else match OpenerAt(t, s, pos)
      case Skip(size) => Opening(t, s, pos + size)
      case Start(scan) => Some(scan)
      case Stop => None
  }

  /** One more unit of a segment: the end of it, what it emits, and whether an apostrophe may follow. */
  ghost function Continuation(t: Tables, s: seq<Byte>, pos: nat, joinable: bool): (c: Option<Scan>)
    requires pos < |s|
    ensures c.Some? ==> pos < c.value.end <= |s|
  {
    match NextUnit(t, s[pos..])
    case Emoji(n) => Some(Scan(pos + n, s[pos..pos + n], false))
    case Character(r, size) =>
      if Ignorable(t, r) then Some(Scan(pos + size, [], false))
      else if ApostropheJoiner(r) && joinable && JoinsOn(t, s[pos + size..]) then
        Some(Scan(pos + size, s[pos..pos + size], false))
      else if SegmentContinuation(t, r) then Some(Scan(pos + size, s[pos..pos + size], XidContinue(t, r)))
      else None
    case _ => None
  }

  /** Extend a scan unit by unit for as long as a segment can go on. */
  ghost function Extended(t: Tables, s: seq<Byte>, scan: Scan): (r: Scan)
    requires scan.end <= |s|
    ensures scan.end <= r.end <= |s|
    decreases |s| - scan.end
  {
    if scan.end == |s| then scan
    else match Continuation(t, s, scan.end, scan.joinable)
      case None => scan
      case Some(c) => Extended(t, s, Scan(c.end, scan.value + c.value, c.joinable))
  }

  /** The segment a text starts with: its length and its value. */
  datatype Spelling = Spelling(length: nat, value: seq<Byte>)

  ghost function Segment(t: Tables, s: seq<Byte>): (r: Option<Spelling>)
    ensures r.Some? ==> 0 < r.value.length <= |s|
  {
    match Opening(t, s, 0)
    case None => None
    case Some(o) => Some(Spelling(Extended(t, s, o).end, Extended(t, s, o).value))
  }

  method StartsNonCombining(t: Tables, source: seq<Byte>) returns (b: bool)
    requires Generated(t)
    ensures b == JoinsOn(t, source)
  {
    var emojiLength := MatchFullyQualifiedEmoji(t, source);
    if |source| == 0 || emojiLength > 0 {
      return false;
    }
    var r := DecodeRune(source);
    if r == INVALID {
      return false;
    }
    return XidContinue(t, r.code) && !Combining(t, r.code) && !Ignorable(t, r.code);
  }

  /** The scanner's own classification of what comes next. */
  method Classify(t: Tables, source: seq<Byte>) returns (u: Unit)
    requires Generated(t) && source != []
    ensures u == NextUnit(t, source)
  {
    var referenceLength := CharacterReferenceLength(t, source);
    if referenceLength > 0 {
      return Reference;
    }
    var emojiLength := MatchFullyQualifiedEmoji(t, source);
    if emojiLength > 0 {
      return Emoji(emojiLength);
    }
    var r := DecodeRune(source);
    return if r == INVALID then Malformed else Character(r.code, r.size);
  }

  method ScanOpener(t: Tables, source: seq<Byte>, pos: nat) returns (o: Opener)
    requires Generated(t) && pos < |source|
    ensures o == OpenerAt(t, source, pos)
  {
    var unit := Classify(t, source[pos..]);
    match unit {
      case Emoji(n) =>
        return Start(Scan(pos + n, source[pos..pos + n], false));
      case Character(r, size) =>
        if Ignorable(t, r) || (XidContinue(t, r) && Combining(t, r)) {
          return Skip(size);
        }
        return if SegmentStarter(t, r)
          then Start(Scan(pos + size, source[pos..pos + size], XidContinue(t, r))) else Stop;
      case _ =>
        return Stop;
    }
  }

  /** What one more unit adds to a segment. */
  method ScanContinuation(t: Tables, source: seq<Byte>, pos: nat, joinable: bool) returns (c: Option<Scan>)
    requires Generated(t) && pos < |source|
    ensures c == Continuation(t, source, pos, joinable)
  {
    var unit := Classify(t, source[pos..]);
    match unit {
      case Emoji(n) =>
        return Some(Scan(pos + n, source[pos..pos + n], false));
      case Character(r, size) =>
        if Ignorable(t, r) {
          return Some(Scan(pos + size, [], false));
        }
        var joins := StartsNonCombining(t, source[pos + size..]);
        if ApostropheJoiner(r) && joinable && joins {
          return Some(Scan(pos + size, source[pos..pos + size], false));
        }
        if SegmentContinuation(t, r) {
          return Some(Scan(pos + size, source[pos..pos + size], XidContinue(t, r)));
        }
        return None;
      case _ =>
        return None;
    }
  }

  method ScanTagSegment(t: Tables, source: seq<Byte>) returns (pos: nat, value: seq<Byte>, ok: bool)
    requires Generated(t)
    ensures (if ok then Some(Spelling(pos, value)) else None) == Segment(t, source)
  {
    hide OpenerAt, Continuation, Generated;
    pos := 0;
    value := [];
    var joinable := false;
    while pos < |source|
      invariant pos <= |source| && value == []
      invariant Opening(t, source, pos) == Opening(t, source, 0)
      decreases |source| - pos
    {
      var opener := ScanOpener(t, source, pos);
      match opener {
        case Skip(size) =>
          pos := pos + size;
        case Start(scan) =>
          pos, value, joinable := scan.end, scan.value, scan.joinable;
          break;
        case Stop =>
          return 0, [], false;
      }
    }
    if |value| == 0 {
      return 0, [], false;
    }
    ghost var opening := Scan(pos, value, joinable);
    while pos < |source|
      invariant pos <= |source|
      invariant Extended(t, source, Scan(pos, value, joinable)) == Extended(t, source, opening)
      decreases |source| - pos
    {
      var next := ScanContinuation(t, source, pos, joinable);
      if next.None? {
        break;
      }
      value := value + next.value.value;
      pos, joinable := next.value.end, next.value.joinable;
    }
    return pos, value, true;
  }
}
