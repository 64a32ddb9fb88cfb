/** What the text of a cron field means: the fields it can spell, and their values. */
module CronFields {
  import opened Outcomes
  import opened Texts
  import opened Cron
  import opened CronText

  /** A field as its writer means it. */
  datatype Field =
    | Every
    | EveryNth(step: int)
    | OneOf(values: seq<int>)
    | Between(from: int, to: int)
    | Just(value: int)

  // ----- How a field is spelled -----

  /** A number with white space around it. */
  predicate Spaced(p: string, v: int) {
    Atoi(TrimSpace(p)) == Some(v)
  }

  /** A list of at least two numbers between commas. */
  predicate Listed(s: string, parts: seq<string>, values: seq<int>) {
    && |parts| == |values| >= 2 && s == Join(',', parts)
    && forall i :: 0 <= i < |parts| ==> ',' !in parts[i] && Spaced(parts[i], values[i])
  }

  /** Two numbers with the only hyphen between them. */
  predicate Spanned(s: string, p: string, q: string, from: int, to: int) {
    s == p + "-" + q && '-' !in p && '-' !in q && Spaced(p, from) && Spaced(q, to)
  }

  /** The text spells the field. */
  ghost predicate Spells(s: string, f: Field) {
    match f
    case Every => s == "*"
    case EveryNth(step) => "*/" <= s && Atoi(s[2..]) == Some(step)
    case OneOf(values) => exists parts :: Listed(s, parts, values)
    case Between(from, to) => exists p, q :: Spanned(s, p, q, from, to)
    case Just(value) => '-' !in s && Atoi(s) == Some(value)
  }

  // ----- What a field stands for -----

  function Rung(min: int, step: int, k: nat): int {
    min + k * step
  }

  /** The values of the range that a field stands for. */
  ghost predicate Denotes(f: Field, min: int, max: int, v: int) {
    match f
    case Every => true
    case EveryNth(step) => v <= max && exists k: nat :: v == Rung(min, step, k)
    case OneOf(values) => v in values
    case Between(from, to) => from <= v <= to
    case Just(value) => v == value
  }

  predicate Within(values: seq<int>, min: int, max: int) {
    forall n :: n in values ==> min <= n <= max
  }

  /** The fields that a range of values admits. */
  predicate Legal(f: Field, min: int, max: int) {
    match f
    case Every => true
    case EveryNth(step) => 1 <= step <= max
    case OneOf(values) => Within(values, min, max)
    case Between(from, to) => min <= from <= to <= max
    case Just(value) => min <= value <= max
  }

  // ----- Reading a text as a field -----

  function AllNumbers(parts: seq<string>): Option<seq<int>> {
    if parts == [] then Some([])
    else
      var k := |parts| - 1;
      match (AllNumbers(parts[..k]), Atoi(TrimSpace(parts[k])))
      case (Some(values), Some(v)) => Some(values + [v])
      case _ => None
  }

  function RangeRead(s: string): Option<Field> {
    var parts := Split('-', s);
    if |parts| != 2 then None
    else match (Atoi(TrimSpace(parts[0])), Atoi(TrimSpace(parts[1])))
      case (Some(from), Some(to)) => Some(Between(from, to))
      case _ => None
  }

  function ListRead(s: string): Option<Field> {
    match AllNumbers(Split(',', s))
    case Some(values) => Some(OneOf(values))
    case None => None
  }

  /** The field a text spells. */
  function FieldOf(s: string): Option<Field> {
    if s == "*" then Some(Every)
    else if "*/" <= s then
      match Atoi(s[2..])
      case Some(step) => Some(EveryNth(step))
      case None => None
    else if ',' in s then ListRead(s)
    else if '-' in s then RangeRead(s)
    else match Atoi(s)
      case Some(v) => Some(Just(v))
      case None => None
  }

  function MatcherOf(f: Field, min: int, max: int): Matcher {
    match f
    case Every => Wildcard
    case EveryNth(step) => Step(step, min, max)
    case OneOf(values) => List(values)
    case Between(from, to) => Range(from, to)
    case Just(value) => Exact(value)
  }

  // ----- The parser accepts what it can read, within the range -----

  lemma WithinAppended(values: seq<int>, v: int, min: int, max: int)
    ensures Within(values + [v], min, max) <==> Within(values, min, max) && min <= v <= max
  {
    assert v in values + [v];
    assert forall n :: n in values ==> n in values + [v];
  }

  lemma {:induction false} NumbersWithin(parts: seq<string>, min: int, max: int)
    ensures var read := AllNumbers(parts);
      Numbers(parts, min, max) == if read.Some? && Within(read.value, min, max) then read else None
    decreases |parts|
  {
    hide Atoi, TrimSpace, Within;
    if parts == [] {
      NoneWithin(min, max);
    } else {
      var k := |parts| - 1;
      NumbersWithin(parts[..k], min, max);
      var read, v := AllNumbers(parts[..k]), Atoi(TrimSpace(parts[k]));
      if read.Some? && v.Some? {
        WithinAppended(read.value, v.value, min, max);
      }
    }
  }

  lemma NoneWithin(min: int, max: int)
    ensures Within([], min, max)
  {}

  lemma ParsedAsField(s: string, min: int, max: int)
    ensures var f := FieldOf(s);
      Parsed(s, min, max) == if f.Some? && Legal(f.value, min, max) then Some(MatcherOf(f.value, min, max)) else None
  {
    hide Atoi, TrimSpace, Split, Within, AllNumbers, Numbers;
    NumbersWithin(Split(',', s), min, max);
  }

  // ----- A text is read as the field it spells, and no other -----

  predicate NumberChar(c: char) {
    IsDigit(c) || c == '+' || c == '-'
  }

  lemma AtoiChars(s: string)
    requires Atoi(s).Some?
    ensures s != [] && forall c :: c in s ==> NumberChar(c)
  {
    var digits := if s[0] in "+-" then s[1..] else s;
    assert digits == s || s == [s[0]] + digits;
  }

  lemma {:induction false} TrimLeftChars(s: string, c: char)
    requires c in s && !IsSpace(c)
    ensures c in TrimLeft(s)
    ensures s != [] && !IsSpace(s[0]) ==> TrimLeft(s) == s
  {
    if IsSpace(s[0]) {
      assert s == [s[0]] + s[1..];
      TrimLeftChars(s[1..], c);
    }
  }

  lemma {:induction false} TrimRightChars(s: string, c: char)
    requires c in s && !IsSpace(c)
    ensures c in TrimRight(s, IsSpace)
    decreases |s|
  {
    var k := |s| - 1;
    if IsSpace(s[k]) {
      assert s == s[..k] + [s[k]];
      TrimRightChars(s[..k], c);
    }
  }

  /** A spaced number holds nothing but digits, signs and white space. */
  lemma SpacedChars(p: string, v: int, c: char)
    requires Spaced(p, v) && c in p
    ensures IsSpace(c) || NumberChar(c)
  {
    hide TrimLeft, TrimRight, Atoi, IsSpace, NumberChar;
    if !IsSpace(c) {
      TrimLeftChars(p, c);
      TrimRightChars(TrimLeft(p), c);
      AtoiChars(TrimSpace(p));
    }
  }

  /** Neither stars nor commas occur in a spaced number. */
  lemma SpacedPlain(p: string, v: int)
    requires Spaced(p, v)
    ensures p != [] && '*' !in p && ',' !in p
  {
    hide Spaced;
    if '*' in p {
      SpacedChars(p, v, '*');
    }
    if ',' in p {
      SpacedChars(p, v, ',');
    }
    SpacedNotEmpty(p, v);
  }

  lemma SpacedNotEmpty(p: string, v: int)
    requires Spaced(p, v)
    ensures p != []
  {
    hide Atoi;
    AtoiChars(TrimSpace(p));
  }

  lemma {:induction false} AllNumbersIff(parts: seq<string>, values: seq<int>)
    ensures AllNumbers(parts) == Some(values)
      <==> |parts| == |values| && forall i :: 0 <= i < |parts| ==> Spaced(parts[i], values[i])
    decreases |parts|
  {
    hide Atoi, TrimSpace;
    if parts != [] {
      var k := |parts| - 1;
      if |values| == |parts| {
        AllNumbersIff(parts[..k], values[..k]);
        assert values == values[..k] + [values[k]];
      }
      if AllNumbers(parts).Some? {
        var read := AllNumbers(parts[..k]).value;
        AllNumbersIff(parts[..k], read);
        assert |AllNumbers(parts).value| == |parts|;
        assert AllNumbers(parts).value[..k] == read;
      }
    }
  }

  lemma {:induction false} JoinStarts<T>(sep: T, parts: seq<seq<T>>)
    requires parts != []
    ensures parts[0] <= Join(sep, parts)
    ensures |parts| > 1 ==> sep in Join(sep, parts)
    decreases |parts|
  {
    if |parts| > 1 {
      JoinStarts(sep, parts[..|parts| - 1]);
    }
  }

  /** A text that begins with a plain part is no star and no step. */
  lemma NotStarred(s: string, p: string)
    requires p != [] && p <= s && '*' !in p
    ensures s != "*" && !("*/" <= s)
  {
    assert s[0] == p[0] && p[0] in p;
  }

  lemma ListIsRead(s: string, parts: seq<string>, values: seq<int>)
    requires Listed(s, parts, values)
    ensures FieldOf(s) == Some(OneOf(values))
  {
    hide Atoi, TrimSpace, Join, Split, AllNumbers, Spaced, RangeRead;
    SpacedPlain(parts[0], values[0]);
    JoinStarts(',', parts);
    NotStarred(s, parts[0]);
    SplitJoin(',', parts);
    AllNumbersIff(parts, values);
  }

  lemma {:induction false} SplitParts<T>(sep: T, v: seq<T>)
    ensures sep in v <==> |Split(sep, v)| >= 2
    decreases |v|
  {
    if v != [] {
      SplitParts(sep, v[..|v| - 1]);
      assert v == v[..|v| - 1] + [v[|v| - 1]];
    }
  }

  lemma ListIsSpelled(s: string, values: seq<int>)
    requires ',' in s && ListRead(s) == Some(OneOf(values))
    ensures Spells(s, OneOf(values))
  {
    hide Atoi, TrimSpace, Join, Split, AllNumbers, Spaced;
    AllNumbersIff(Split(',', s), values);
    SplitParts(',', s);
    JoinSplit(',', s);
    assert Listed(s, Split(',', s), values);
  }

  lemma HyphenSplits(a: string, b: string)
    requires '-' !in a && '-' !in b
    ensures Split('-', a + "-" + b) == [a, b]
  {
    hide Split;
    SplitWithout('-', a);
    SplitAtLast('-', a, b);
    assert a + "-" + b == a + ['-'] + b;
  }

  lemma HyphenInside(p: string, q: string)
    requires ',' !in p && ',' !in q
    ensures var s := p + "-" + q; ',' !in s && '-' in s && p <= s
  {
    var s := p + "-" + q;
    assert s[|p|] == '-';
  }

  lemma RangeIsRead(s: string, p: string, q: string, from: int, to: int)
    requires Spanned(s, p, q, from, to)
    ensures FieldOf(s) == Some(Between(from, to))
  {
    hide Atoi, TrimSpace, Split, ListRead;
    SpacedPlain(p, from);
    SpacedPlain(q, to);
    HyphenInside(p, q);
    NotStarred(s, p);
    HyphenSplits(p, q);
  }

  lemma RangeIsSpelled(s: string, from: int, to: int)
    requires RangeRead(s) == Some(Between(from, to))
    ensures Spells(s, Between(from, to))
  {
    hide Atoi, TrimSpace, Split;
    var parts := Split('-', s);
    JoinSplit('-', s);
    assert parts == [parts[0]] + [parts[1]];
    JoinExtended('-', [parts[0]], parts[1]);
    assert s == parts[0] + "-" + parts[1];
    assert Spanned(s, parts[0], parts[1], from, to);
  }

  lemma NumberIsRead(s: string, v: int)
    requires Spells(s, Just(v))
    ensures FieldOf(s) == Some(Just(v))
  {
    hide ListRead, RangeRead;
    AtoiChars(s);
    NotStarred(s, s);
  }

  /** Reading a text finds the field it spells, so that no text spells two. */
  lemma SpellsIff(s: string, f: Field)
    ensures Spells(s, f) <==> FieldOf(s) == Some(f)
  {
    hide Atoi, Listed, Spanned, ListRead, RangeRead;
    if Spells(s, f) {
      match f
      case Every =>
      case EveryNth(_) =>
      case OneOf(values) =>
        var parts :| Listed(s, parts, values);
        ListIsRead(s, parts, values);
      case Between(from, to) =>
        var p, q :| Spanned(s, p, q, from, to);
        RangeIsRead(s, p, q, from, to);
      case Just(v) => NumberIsRead(s, v);
    }
    if FieldOf(s) == Some(f) {
      ReadIsSpelled(s, f);
    }
  }

  lemma ReadIsSpelled(s: string, f: Field)
    requires FieldOf(s) == Some(f)
    ensures Spells(s, f)
  {
    hide Atoi, Listed, Spanned, TrimSpace, Split, AllNumbers;
    match f
    case Every =>
    case EveryNth(_) =>
    case OneOf(values) => ListIsSpelled(s, values);
    case Between(from, to) => RangeIsSpelled(s, from, to);
    case Just(_) =>
  }

  // ----- What the matcher accepts -----

  lemma RungIff(min: int, step: int, v: int)
    requires step >= 1 && v >= min
    ensures (v - min) % step == 0 <==> exists k: nat :: v == Rung(min, step, k)
  {
    if (v - min) % step == 0 {
      assert v == Rung(min, step, (v - min) / step);
    }
    if exists k: nat :: v == Rung(min, step, k) {
      var k: nat :| v == Rung(min, step, k);
      MultipleDivides(k, step);
    }
  }

  /** Multiples are zero or at least a step away from it. */
  lemma MultiplesApart(a: int, step: int)
    requires step >= 1
    ensures a == 0 || a * step >= step || a * step <= -step
  {
    if a >= 1 {
      assert (a - 1) * step >= 0;
    } else if a <= -1 {
      assert (-a - 1) * step >= 0;
    }
  }

  lemma MultipleDivides(k: nat, step: int)
    requires step >= 1
    ensures (k * step) % step == 0
  {
    var x := k * step;
    var q, r := x / step, x % step;
    assert x == step * q + r;
    assert r == (k - q) * step;
    MultiplesApart(k - q, step);
  }

  lemma MatcherDenotes(f: Field, min: int, max: int, v: int)
    requires Legal(f, min, max) && min <= v <= max
    ensures Matches(MatcherOf(f, min, max), v) <==> Denotes(f, min, max, v)
  {
    if f.EveryNth? {
      RungIff(min, f.step, v);
    }
  }

  /** For every text: it is accepted exactly when it spells a field that the range admits,
      and its matcher then accepts exactly the values of the range that the field stands for. */
  lemma FieldReads(s: string, min: int, max: int)
    ensures Parsed(s, min, max).Some? <==> exists f :: Spells(s, f) && Legal(f, min, max)
    ensures forall f :: Spells(s, f) && Legal(f, min, max) ==>
      forall v :: min <= v <= max ==> (Matches(Parsed(s, min, max).value, v) <==> Denotes(f, min, max, v))
  {
    hide Parsed, FieldOf, Spells, Legal, Matches, Denotes, MatcherOf;
    ParsedAsField(s, min, max);
    if FieldOf(s).Some? {
      SpellsIff(s, FieldOf(s).value);
    }
    forall f | Spells(s, f) && Legal(f, min, max) ensures Parsed(s, min, max) == Some(MatcherOf(f, min, max)) {
      SpellsIff(s, f);
    }
    forall f, v | Spells(s, f) && Legal(f, min, max) && min <= v <= max
      ensures Matches(Parsed(s, min, max).value, v) <==> Denotes(f, min, max, v)
    {
      MatcherDenotes(f, min, max, v);
    }
  }

  // ----- Fields written in plain decimals -----

  function Decimals(values: seq<int>): seq<string> {
    seq(|values|, i requires 0 <= i < |values| => Decimal(Magnitude(values[i])))
  }

  function Written(f: Field): string {
    match f
    case Every => "*"
    case EveryNth(step) => "*/" + Decimal(Magnitude(step))
    case OneOf(values) => Join(',', Decimals(values))
    case Between(from, to) => Decimal(Magnitude(from)) + "-" + Decimal(Magnitude(to))
    case Just(value) => Decimal(Magnitude(value))
  }

  /** Fields whose numbers are natural and fit 64 bits, and whose lists are no single number. */
  predicate Plain(f: Field) {
    match f
    case Every => true
    case EveryNth(step) => 0 <= step <= MAX_INT
    case OneOf(values) => |values| >= 2 && Within(values, 0, MAX_INT)
    case Between(from, to) => 0 <= from <= MAX_INT && 0 <= to <= MAX_INT
    case Just(value) => 0 <= value <= MAX_INT
  }

  lemma DecimalPlain(n: nat)
    ensures var s := Decimal(n); '-' !in s && ',' !in s && TrimSpace(s) == s
    ensures Atoi(Decimal(n)) == if n <= MAX_INT then Some(n) else None
  {
    DecimalReads(n);
    var s := Decimal(n);
    assert IsDigit(s[0]) && IsDigit(s[|s| - 1]);
  }

  /** What is written in plain decimals spells the field it was written for. */
  lemma WrittenSpells(f: Field)
    requires Plain(f)
    ensures Spells(Written(f), f)
  {
    hide Decimal, Atoi, TrimSpace, Join;
    match f
    case Every =>
    case EveryNth(step) =>
      DecimalPlain(step);
      assert Written(f)[2..] == Decimal(step);
    case OneOf(values) =>
      forall i | 0 <= i < |values| ensures ',' !in Decimals(values)[i] && Spaced(Decimals(values)[i], values[i]) {
        assert values[i] in values;
        DecimalPlain(values[i]);
      }
      assert Listed(Written(f), Decimals(values), values);
    case Between(from, to) =>
      DecimalPlain(from);
      DecimalPlain(to);
      assert Spanned(Written(f), Decimal(from), Decimal(to), from, to);
    case Just(value) => DecimalPlain(value);
  }
}
