/** What an email is, spelled in characters: the finder recognises exactly the written addresses. */
module EmailGrammar {
  import opened Outcomes
  import opened Utf8
  import opened TagTables
  import opened TagScanner
  import opened Characters
  import opened EmailProjection
  import opened EmailMatches
  import opened EmailFinder
  import opened Texts

  // ----- The characters of an address -----

  predicate LocalCharacter(b: Byte) {
    LetterOrDigit(b) || b as char in {'.', '_', '+', '-'}
  }

  predicate LabelCharacter(b: Byte) {
    LetterOrDigit(b) || b as char in {'_', '-'}
  }

  lemma CharactersExact(b: Byte)
    ensures AlphaNumeric(b) <==> LetterOrDigit(b)
    ensures LocalByte(b) <==> LocalCharacter(b)
    ensures LabelByte(b) <==> LabelCharacter(b)
    ensures b == AT_SIGN <==> b as char == '@'
    ensures b == DOT <==> b as char == '.'
  {
    ClassesExact(b);
    assert {'.', '_', '+', '-'} == {0x2E as char, 0x5F as char, 0x2B as char, 0x2D as char};
  }

  // ----- Written addresses -----

  /** A local part and the labels of a domain. */
  datatype Address = Address(local: seq<Byte>, labels: seq<seq<Byte>>)

  /** The local part is not empty, there are two labels or more, none is empty, and the last
      one ends in a letter or digit. */
  ghost predicate Proper(a: Address) {
    && a.local != [] && (forall b :: b in a.local ==> LocalCharacter(b))
    && |a.labels| >= 2
    && (forall i :: 0 <= i < |a.labels| ==> a.labels[i] != [] && forall b :: b in a.labels[i] ==> LabelCharacter(b))
    && LetterOrDigit(Last(a.labels[|a.labels| - 1]))
  }

  function Last(s: seq<Byte>): Byte
    requires s != []
  {
    s[|s| - 1]
  }

  function Written(a: Address): seq<Byte> {
    a.local + Ascii("@") + Join(Ascii(".")[0], a.labels)
  }

  lemma LastOfJoin(labels: seq<seq<Byte>>)
    requires labels != [] && labels[|labels| - 1] != []
    ensures Join(DOT, labels) != [] && Last(Join(DOT, labels)) == Last(labels[|labels| - 1])
  {}

  /** Labels in characters are labels to the finder. */
  lemma LabelsAreLabels(labels: seq<seq<Byte>>)
    requires forall i :: 0 <= i < |labels| ==> labels[i] != [] && forall b :: b in labels[i] ==> LabelCharacter(b)
    ensures forall i :: 0 <= i < |labels| ==> labels[i] != [] && DOT !in labels[i] && forall b :: b in labels[i] ==> LabelByte(b)
  {
    forall i, b | 0 <= i < |labels| && b in labels[i] ensures LabelByte(b) && b != DOT {
      CharactersExact(b);
    }
  }

  /** The domain of an address is a domain to the finder, and the other way round. */
  lemma DomainWritten(labels: seq<seq<Byte>>)
    requires |labels| >= 2
    requires forall i :: 0 <= i < |labels| ==> labels[i] != [] && forall b :: b in labels[i] ==> LabelCharacter(b)
    requires LetterOrDigit(Last(labels[|labels| - 1]))
    ensures IsDomain([AT_SIGN] + Join(DOT, labels))
  {
    hide LabelByte, LabelCharacter, AlphaNumeric, LetterOrDigit, Join, Texts.Split;
    LabelsAreLabels(labels);
    CharactersExact(Last(labels[|labels| - 1]));
    LastOfJoin(labels);
    SplitJoin(DOT, labels);
    DomainOf(Join(DOT, labels), labels);
  }

  lemma DomainOf(v: seq<Byte>, labels: seq<seq<Byte>>)
    requires v != [] && AlphaNumeric(Last(v)) && Texts.Split(DOT, v) == labels && |labels| >= 2
    requires forall i :: 0 <= i < |labels| ==> labels[i] != [] && forall b :: b in labels[i] ==> LabelByte(b)
    ensures IsDomain([AT_SIGN] + v)
  {
    hide LabelByte, AlphaNumeric, Texts.Split;
    assert ([AT_SIGN] + v)[1..] == v;
  }

  lemma DomainLabels(u: seq<Byte>) returns (labels: seq<seq<Byte>>)
    requires IsDomain(u)
    ensures u == [AT_SIGN] + Join(DOT, labels) && |labels| >= 2
    ensures forall i :: 0 <= i < |labels| ==> labels[i] != [] && forall b :: b in labels[i] ==> LabelCharacter(b)
    ensures LetterOrDigit(Last(labels[|labels| - 1]))
  {
    labels := Split(DOT, u[1..]);
    JoinSplit(DOT, u[1..]);
    assert u == [AT_SIGN] + u[1..];
    forall i, b | 0 <= i < |labels| && b in labels[i] ensures LabelCharacter(b) {
      CharactersExact(b);
    }
    LastOfJoin(labels);
    CharactersExact(u[|u| - 1]);
  }

  // ----- Addresses are found -----

  lemma AddressIsEmail(a: Address, local: seq<Byte>, domain: seq<Byte>)
    requires Proper(a) && local == a.local && domain == [AT_SIGN] + Join(DOT, a.labels)
    ensures var v := local + domain; IsEmail(v, |local|, 0, |v|, Span(0, |v|)) && forall i :: 0 <= i < |local| ==> v[i] != AT_SIGN
  {
    hide IsDomain;
    var v := local + domain;
    DomainWritten(a.labels);
    assert v[|local|..|v|] == domain && domain[..|domain|] == domain;
    assert Domain(domain) == Some(|domain|);
    forall i | 0 <= i < |local| ensures LocalByte(v[i]) && v[i] != AT_SIGN {
      assert v[i] in a.local;
      CharactersExact(v[i]);
    }
  }

  /** An address on its own is one email, from its first character to its last. */
  lemma AddressAlone(a: Address)
    requires Proper(a)
    ensures Spans(Written(a), 0) == [Span(0, |Written(a)|)]
  {
    hide IsEmail, Proper, Join;
    var local, domain := a.local, [AT_SIGN] + Join(DOT, a.labels);
    var v := local + domain;
    assert Written(a) == v;
    AddressIsEmail(a, local, domain);
    assert v[|local|] == AT_SIGN;
    assert AT_SIGN !in v[0..|local|];
    SpansStep(v, 0, |local|);
    EmailUnique(v, |local|, 0, |v|, Span(0, |v|));
    NoneAhead(v, |v|);
  }

  /** Whatever the finder reports is a written address. */
  lemma {:induction false} SpansAreWritten(v: seq<Byte>, cursor: nat, i: nat)
    requires cursor <= |v| && i < |Spans(v, cursor)|
    ensures var span := Spans(v, cursor)[i];
      span.start <= span.end <= |v| && exists a :: Proper(a) && v[span.start..span.end] == Written(a)
    decreases |v| - cursor
  {
    hide IsEmail, Proper, Written;
    var at := FirstAt(v, cursor);
    match EmailAt(v, at, cursor, |v|)
    case None => SpansAreWritten(v, at + 1, i);
    case Some(span) =>
      EmailForward(v, at, cursor, span);
      if i == 0 {
        EmailIsWritten(v, at, cursor, span);
      } else {
        SpansAreWritten(v, span.end, i - 1);
      }
  }

  lemma EmailIsWritten(v: seq<Byte>, at: nat, cursor: nat, span: Span)
    requires IsEmail(v, at, cursor, |v|, span)
    ensures exists a :: Proper(a) && v[span.start..span.end] == Written(a)
  {
    hide IsDomain, Join;
    var domain := v[at..|v|][..span.end - at];
    assert domain == v[at..span.end];
    var labels := DomainLabels(domain);
    var a := Address(v[span.start..at], labels);
    forall b | b in a.local ensures LocalCharacter(b) {
      var k :| span.start <= k < at && v[k] == b;
      CharactersExact(b);
    }
    assert v[span.start..span.end] == a.local + domain;
    assert Written(a) == a.local + domain;
  }

  // ----- Plain sources -----

  /** No backslash and no ampersand: the source is its own decoded text. */
  predicate Plain(s: seq<Byte>) {
    forall i :: 0 <= i < |s| ==> s[i] as char != '\\' && s[i] as char != '&'
  }

  lemma {:induction false} PlainUnits(t: Tables, d: Decoder, s: seq<Byte>)
    requires Plain(s)
    ensures |Units(t, d, s)| == |s| && forall i :: 0 <= i < |s| ==> Units(t, d, s)[i] == Piece(1, [s[i]])
    decreases |s|
  {
    if s != [] {
      assert FirstPiece(t, d, s) == Piece(1, [s[0]]);
      PlainUnits(t, d, s[1..]);
    }
  }

  /** The numbers from the base on. */
  function Counting(base: nat, n: nat): (r: seq<nat>)
    ensures |r| == n
    decreases n
  {
    if n == 0 then [] else [base] + Counting(base + 1, n - 1)
  }

  lemma {:induction false} SingleUnits(us: seq<Piece>, s: seq<Byte>, base: nat)
    requires |us| == |s| && forall i :: 0 <= i < |s| ==> us[i] == Piece(1, [s[i]])
    ensures TextOf(us) == s
    ensures Starts(us, base) == Counting(base, |s|) && Ends(us, base) == Counting(base + 1, |s|)
    decreases |us|
  {
    hide Copies;
    if us != [] {
      SingleUnits(us[1..], s[1..], base + 1);
      OneCopy(base);
      OneCopy(base + 1);
      assert s == [s[0]] + s[1..];
    }
  }

  lemma OneCopy(x: nat)
    ensures Copies(x, 1) == [x]
  {}

  lemma {:induction false} CountingEnds(base: nat, n: nat)
    requires n > 0
    ensures Counting(base, n)[0] == base && Counting(base, n)[n - 1] == base + n - 1
    decreases n
  {
    if n > 1 {
      CountingEnds(base + 1, n - 1);
    }
  }

  lemma WrittenIsPlain(a: Address)
    requires Proper(a)
    ensures Plain(Written(a)) && Written(a) != []
  {
    forall i | 0 <= i < |a.labels| ensures Plain(a.labels[i]) {
      assert forall k :: 0 <= k < |a.labels[i]| ==> LabelCharacter(a.labels[i][k]);
    }
    JoinedPlain(a.labels);
    assert forall k :: 0 <= k < |a.local| ==> LocalCharacter(a.local[k]);
  }

  lemma {:induction false} JoinedPlain(labels: seq<seq<Byte>>)
    requires forall i :: 0 <= i < |labels| ==> Plain(labels[i])
    ensures Plain(Join(DOT, labels))
    decreases |labels|
  {
    if labels != [] {
      JoinedPlain(labels[..|labels| - 1]);
    }
  }

  lemma PlainProjection(t: Tables, d: Decoder, s: seq<Byte>)
    requires Plain(s)
    ensures Project(t, d, s) == Projection(s, Counting(0, |s|), Counting(1, |s|))
  {
    hide Units, TextOf, Starts, Ends, Counting, Plain;
    PlainUnits(t, d, s);
    SingleUnits(Units(t, d, s), s, 0);
  }

  lemma OnlyMatch(w: seq<Byte>, matches: seq<GFMEmailMatch>)
    requires w != [] && Reports(Projection(w, Counting(0, |w|), Counting(1, |w|)), [Span(0, |w|)], matches)
    ensures matches == [GFMEmailMatch(0, |w|, w)]
  {
    hide Counting;
    CountingEnds(0, |w|);
    CountingEnds(1, |w|);
    assert w[0..|w|] == w;
  }

  /** In a source that consists of an address the finder reports just that address. */
  lemma AddressMatched(t: Tables, d: Decoder, a: Address, matches: seq<GFMEmailMatch>)
    requires Proper(a)
    requires var p := Project(t, d, Written(a)); Reports(p, Spans(p.value, 0), matches)
    ensures matches == [GFMEmailMatch(0, |Written(a)|, Written(a))]
  {
    hide Proper, Written, Spans, Reports, Project, Counting;
    WrittenIsPlain(a);
    PlainProjection(t, d, Written(a));
    AddressAlone(a);
    OnlyMatch(Written(a), matches);
  }

  lemma JohnDoeProper()
    ensures Proper(Address(Ascii("john.doe"), [Ascii("example"), Ascii("com")]))
  {}

  lemma JohnDoeWritten()
    ensures Written(Address(Ascii("john.doe"), [Ascii("example"), Ascii("com")])) == Ascii("john.doe@example.com")
  {
    var labels := [Ascii("example"), Ascii("com")];
    assert labels[..1] == [Ascii("example")];
    assert Join(DOT, labels) == Ascii("example") + [DOT] + Ascii("com");
    assert Ascii("john.doe@example.com") == Ascii("john.doe") + Ascii("@") + (Ascii("example") + Ascii(".") + Ascii("com"));
  }

  /** For instance `john.doe@example.com`. */
  lemma JohnDoeMatched(t: Tables, d: Decoder, matches: seq<GFMEmailMatch>)
    requires var p := Project(t, d, Ascii("john.doe@example.com")); Reports(p, Spans(p.value, 0), matches)
    ensures matches == [GFMEmailMatch(0, 20, Ascii("john.doe@example.com"))]
  {
    hide Reports, Project, Spans, Proper, Written;
    JohnDoeProper();
    JohnDoeWritten();
    AddressMatched(t, d, Address(Ascii("john.doe"), [Ascii("example"), Ascii("com")]), matches);
  }
}
