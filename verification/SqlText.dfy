/** SQL condition text as tokens, its grammar (NOT binds tighter than AND, AND tighter than OR),
    and the round trip between the two. */
module SqlText {
  import opened Outcomes
  import opened Schema

  datatype Connective = AndOp | OrOp

  datatype CountTest = Positive | Zero | One

  /** A fixed piece of condition text with holes for its placeholders. */
  datatype Template =
    | Falsehood                                  // 1 = 0
    | Tautology                                  // 1 = 1
    | ColumnCompare(f: string, op: CompareOp)    // <column> op ?
    | ColumnIsNull(f: string)                    // <column> IS NULL
    | ColumnNotNull(f: string)                   // <column> IS NOT NULL
    | ColumnIn(f: string, n: nat)                // <column> IN (?,...,?)
    | ColumnLike(f: string)                      // case-folded LIKE ? with backslash as escape
    | ColumnRegex(f: string)                     // ~ ? or REGEXP ?
    | FlagIsTrue(f: string)                      // <column> IS TRUE
    | FlagCompare(f: string, op: CompareOp)      // <column> op ?
    | JsonIsTrue(f: string)                      // <path> IS TRUE
    | JsonCoalesceTrue(f: string)                // COALESCE(<path>, false) = true
    | JsonDigit(f: string, op: CompareOp, target: bool)    // <path> = 1, <path> != 0, ...
    | JsonLiteral(f: string, op: CompareOp, target: bool)  // <path> op CAST('true' AS JSON)
    | JsonCast(f: string, op: CompareOp)         // (<path>)::boolean op ?
    | JsonNotNull(f: string)                     // <path> IS NOT NULL
    | JsonTypeNotNull(f: string)                 // COALESCE(JSON_TYPE(<path>), 'NULL') != 'NULL'
    | ListSize(f: string, op: CompareOp)         // length of the JSON list op ?
    | TextLength(f: string, op: CompareOp)       // LENGTH(<column>) op ?
    | DatePart(f: string, accessor: string, op: CompareOp) // date part op ?
    | ListNotEmpty(f: string)                    // length of the JSON list > 0
    | ElementEquals                              // binary equality with ?
    | ElementLike                                // binary LIKE ? ESCAPE '!'
    | ElementStarts                              // instr(element, ?) = 1
    | ElementHolds                               // instr(element, ?) > 0
    | ElementEnds                                // substr(element, -length(?)) = ?

  function Arity(t: Template): nat {
    match t
    case ColumnCompare(_, _) => 1
    case ColumnIn(_, n) => n
    case ColumnLike(_) => 1
    case ColumnRegex(_) => 1
    case FlagCompare(_, _) => 1
    case JsonCast(_, _) => 1
    case ListSize(_, _) => 1
    case TextLength(_, _) => 1
    case DatePart(_, _, _) => 1
    case ElementEquals => 1
    case ElementLike => 1
    case ElementStarts => 1
    case ElementHolds => 1
    case ElementEnds => 2
    case _ => 0
  }

  datatype Token<P> =
    | Open | Close | AndWord | OrWord | NotWord
    | Text(t: Template)
    | Hole(p: P)
    | ExistsOpen(list: string)     // EXISTS (SELECT 1 FROM <elements> WHERE
    | CountOpen(list: string)      // (SELECT COUNT(*) FROM <elements> WHERE
    | CountTail(test: CountTest)   // > 0, = 0, = 1 after the closing parenthesis

  /** A parsed condition. Parentheses are kept as `Group` nodes. */
  datatype Sql<P> =
    | Leaf(t: Template, ps: seq<P>)
    | Negate(e: Sql<P>)
    | Binary(op: Connective, l: Sql<P>, r: Sql<P>)
    | Group(e: Sql<P>)
    | Exists(list: string, e: Sql<P>)
    | Count(list: string, e: Sql<P>, test: CountTest)

  function Word<P>(op: Connective): Token<P> {
    if op == AndOp then AndWord else OrWord
  }

  function Holes<P>(ps: seq<P>): (ts: seq<Token<P>>)
    ensures |ts| == |ps| && forall i :: 0 <= i < |ps| ==> ts[i] == Hole(ps[i])
  {
    seq(|ps|, i requires 0 <= i < |ps| => Hole(ps[i]))
  }

  function Print<P>(e: Sql<P>): (ts: seq<Token<P>>)
    ensures ts != []
  {
    match e
    case Leaf(t, ps) => [Text(t)] + Holes(ps)
    case Negate(x) => [NotWord] + Print(x)
    case Binary(op, l, r) => Print(l) + [Word(op)] + Print(r)
    case Group(x) => [Open] + Print(x) + [Close]
    case Exists(list, x) => [ExistsOpen(list)] + Print(x) + [Close]
    case Count(list, x, test) => [CountOpen(list)] + Print(x) + [Close, CountTail(test)]
  }

  /** Binding strength of the outermost operator. */
  function Level<P>(e: Sql<P>): int {
    match e
    case Binary(OrOp, _, _) => 0
    case Binary(AndOp, _, _) => 1
    case _ => 2
  }

  /** Every operand binds at least as tightly as its place in the text needs, so no parenthesis
      is missing; both connectives associate to the left. */
  predicate WellFormed<P>(e: Sql<P>) {
    match e
    case Leaf(t, ps) => |ps| == Arity(t)
    case Negate(x) => Level(x) == 2 && WellFormed(x)
    case Binary(op, l, r) =>
      && WellFormed(l) && WellFormed(r)
      && (op == AndOp ==> Level(l) >= 1 && Level(r) == 2)
      && (op == OrOp ==> Level(r) >= 1)
    case Group(x) => WellFormed(x)
    case Exists(_, x) => WellFormed(x)
    case Count(_, x, _) => WellFormed(x)
  }

  /** Whether a dialect has the form, with the meaning it has in `SqlEval`: `IN ()` is SQLite syntax only,
      and each form for JSON and for list elements belongs to the dialects whose functions it uses. */
  predicate Accepts(d: Dialect, t: Template) {
    match t
    case ColumnIn(_, n) => n == 0 ==> d == SQLite
    case JsonIsTrue(_) => d != MySQL
    case JsonNotNull(_) => d != MySQL
    case JsonCoalesceTrue(_) => d == MySQL
    case JsonTypeNotNull(_) => d == MySQL
    case JsonLiteral(_, _, _) => d == MySQL
    case JsonCast(_, _) => d == Postgres
    case JsonDigit(_, _, _) => d == SQLite
    case ElementLike => d != SQLite
    case ElementStarts => d == SQLite
    case ElementHolds => d == SQLite
    case ElementEnds => d == SQLite
    case _ => true
  }

  /** MySQL turns EXISTS over the elements of a JSON column into a semi-join that finds nothing. */
  predicate AcceptsAll<P>(d: Dialect, e: Sql<P>) {
    match e
    case Leaf(t, _) => Accepts(d, t)
    case Negate(x) => AcceptsAll(d, x)
    case Binary(_, l, r) => AcceptsAll(d, l) && AcceptsAll(d, r)
    case Group(x) => AcceptsAll(d, x)
    case Exists(_, x) => d != MySQL && AcceptsAll(d, x)
    case Count(_, x, _) => AcceptsAll(d, x)
  }

  // ----- The grammar -----

  type Parsed<P> = Option<(Sql<P>, seq<Token<P>>)>

  predicate AllHoles<P>(ts: seq<Token<P>>) {
    forall i :: 0 <= i < |ts| ==> ts[i].Hole?
  }

  function ParseLeaf<P>(d: Dialect, t: Template, ts: seq<Token<P>>): (r: Parsed<P>)
    ensures r.Some? ==> |r.value.1| <= |ts|
  {
    var n := Arity(t);
    if Accepts(d, t) && n <= |ts| && AllHoles(ts[..n]) then
      Some((Leaf(t, seq(n, i requires 0 <= i < n => assert ts[i] == ts[..n][i]; ts[i].p)), ts[n..]))
    else None
  }

  function ParsePrimary<P>(d: Dialect, ts: seq<Token<P>>): (r: Parsed<P>)
    ensures r.Some? ==> |r.value.1| < |ts|
    decreases |ts|, 0
  {
    if ts == [] then None
    else match ts[0]
      case Text(t) => ParseLeaf(d, t, ts[1..])
      case Open =>
        (match ParseOr(d, ts[1..])
         case Some((e, rest)) => if rest != [] && rest[0] == Close then Some((Group(e), rest[1..])) else None
         case None => None)
      case ExistsOpen(list) =>
        (match ParseOr(d, ts[1..])
         case Some((e, rest)) =>
           if d != MySQL && rest != [] && rest[0] == Close then Some((Exists(list, e), rest[1..])) else None
         case None => None)
      case CountOpen(list) =>
        (match ParseOr(d, ts[1..])
         case Some((e, rest)) =>
           if |rest| > 1 && rest[0] == Close && rest[1].CountTail?
           then Some((Count(list, e, rest[1].test), rest[2..])) else None
         case None => None)
      case _ => None
  }

  function ParseUnit<P>(d: Dialect, ts: seq<Token<P>>): (r: Parsed<P>)
    ensures r.Some? ==> |r.value.1| < |ts|
    decreases |ts|, 1
  {
    if ts != [] && ts[0] == NotWord then
      (match ParseUnit(d, ts[1..])
       case Some((e, rest)) => Some((Negate(e), rest))
       case None => None)
    else ParsePrimary(d, ts)
  }

  function AndTail<P>(d: Dialect, acc: Sql<P>, ts: seq<Token<P>>): (r: Parsed<P>)
    ensures r.Some? ==> |r.value.1| <= |ts|
    decreases |ts|, 2
  {
    if ts != [] && ts[0] == AndWord then
      (match ParseUnit(d, ts[1..])
       case Some((e, rest)) => AndTail(d, Binary(AndOp, acc, e), rest)
       case None => None)
    else Some((acc, ts))
  }

  function ParseAnd<P>(d: Dialect, ts: seq<Token<P>>): (r: Parsed<P>)
    ensures r.Some? ==> |r.value.1| < |ts|
    decreases |ts|, 3
  {
    match ParseUnit(d, ts)
    case Some((e, rest)) => AndTail(d, e, rest)
    case None => None
  }

  function OrTail<P>(d: Dialect, acc: Sql<P>, ts: seq<Token<P>>): (r: Parsed<P>)
    ensures r.Some? ==> |r.value.1| <= |ts|
    decreases |ts|, 4
  {
    if ts != [] && ts[0] == OrWord then
      (match ParseAnd(d, ts[1..])
       case Some((e, rest)) => OrTail(d, Binary(OrOp, acc, e), rest)
       case None => None)
    else Some((acc, ts))
  }

  function ParseOr<P>(d: Dialect, ts: seq<Token<P>>): (r: Parsed<P>)
    ensures r.Some? ==> |r.value.1| < |ts|
    decreases |ts|, 5
  {
    match ParseAnd(d, ts)
    case Some((e, rest)) => OrTail(d, e, rest)
    case None => None
  }

  /** The condition a whole token sequence denotes, if it is one. */
  function Parse<P>(d: Dialect, ts: seq<Token<P>>): Option<Sql<P>> {
    match ParseOr(d, ts)
    case Some((e, rest)) => if rest == [] then Some(e) else None
    case None => None
  }

  // ----- Parsing undoes printing -----

  lemma LeafParses<P>(d: Dialect, t: Template, ps: seq<P>, rest: seq<Token<P>>)
    requires |ps| == Arity(t)
    ensures ParseLeaf(d, t, Holes(ps) + rest) == if Accepts(d, t) then Some((Leaf(t, ps), rest)) else None
  {
    var ts := Holes(ps) + rest;
    assert ts[..|ps|] == Holes(ps);
    assert ts[|ps|..] == rest;
    if Accepts(d, t) {
      assert ParseLeaf(d, t, ts).value.0.ps == ps;
    }
  }

  predicate NoAndFollows<P>(rest: seq<Token<P>>) {
    rest == [] || rest[0] != AndWord
  }

  /** A unit is read back whole, whatever follows it; one that the dialect does not know is refused. */
  lemma {:induction false} UnitParses<P>(d: Dialect, e: Sql<P>, rest: seq<Token<P>>)
    requires WellFormed(e) && Level(e) == 2
    ensures ParseUnit(d, Print(e) + rest) == if AcceptsAll(d, e) then Some((e, rest)) else None
    decreases e, 0
  {
    match e
    case Leaf(t, ps) =>
      LeafParses(d, t, ps, rest);
      assert Print(e) + rest == [Text(t)] + (Holes(ps) + rest);
    case Negate(x) =>
      UnitParses(d, x, rest);
      assert Print(e) + rest == [NotWord] + (Print(x) + rest);
    case Group(x) =>
      InnerParses(d, x, [Close] + rest);
      GroupParses(d, x, rest);
    case Exists(list, x) =>
      InnerParses(d, x, [Close] + rest);
      ExistsParses(d, list, x, rest);
    case Count(list, x, test) =>
      InnerParses(d, x, [Close, CountTail(test)] + rest);
      CountParses(d, list, x, test, rest);
  }

  lemma GroupParses<P>(d: Dialect, x: Sql<P>, rest: seq<Token<P>>)
    requires ParseOr(d, Print(x) + ([Close] + rest)) == if AcceptsAll(d, x) then Some((x, [Close] + rest)) else None
    ensures ParseUnit(d, Print(Group(x)) + rest) == if AcceptsAll(d, x) then Some((Group(x), rest)) else None
  {
    assert Print(Group(x)) + rest == [Open] + (Print(x) + ([Close] + rest));
  }

  lemma ExistsParses<P>(d: Dialect, list: string, x: Sql<P>, rest: seq<Token<P>>)
    requires ParseOr(d, Print(x) + ([Close] + rest)) == if AcceptsAll(d, x) then Some((x, [Close] + rest)) else None
    ensures ParseUnit(d, Print(Exists(list, x)) + rest) ==
            if d != MySQL && AcceptsAll(d, x) then Some((Exists(list, x), rest)) else None
  {
    assert Print(Exists(list, x)) + rest == [ExistsOpen(list)] + (Print(x) + ([Close] + rest));
  }

  lemma CountParses<P>(d: Dialect, list: string, x: Sql<P>, test: CountTest, rest: seq<Token<P>>)
    requires ParseOr(d, Print(x) + ([Close, CountTail(test)] + rest)) ==
             if AcceptsAll(d, x) then Some((x, [Close, CountTail(test)] + rest)) else None
    ensures ParseUnit(d, Print(Count(list, x, test)) + rest) ==
            if AcceptsAll(d, x) then Some((Count(list, x, test), rest)) else None
  {
    assert Print(Count(list, x, test)) + rest == [CountOpen(list)] + (Print(x) + ([Close, CountTail(test)] + rest));
    assert ([Close, CountTail(test)] + rest)[2..] == rest;
  }

  lemma {:induction false} InnerParses<P>(d: Dialect, e: Sql<P>, rest: seq<Token<P>>)
    requires WellFormed(e) && rest != [] && rest[0] == Close
    ensures ParseOr(d, Print(e) + rest) == if AcceptsAll(d, e) then Some((e, rest)) else None
    decreases e, 3
  {
    OrParses(d, e, rest);
  }

  lemma {:induction false} AndParses<P>(d: Dialect, e: Sql<P>, rest: seq<Token<P>>)
    requires WellFormed(e) && Level(e) >= 1
    ensures ParseAnd(d, Print(e) + rest) == if AcceptsAll(d, e) then AndTail(d, e, rest) else None
    decreases e, 1
  {
    if Level(e) == 2 {
      UnitParses(d, e, rest);
    } else {
      var after := [AndWord] + (Print(e.r) + rest);
      AndParses(d, e.l, after);
      assert Print(e) + rest == Print(e.l) + after;
      UnitParses(d, e.r, rest);
      assert after[1..] == Print(e.r) + rest;
    }
  }

  lemma {:induction false} OrParses<P>(d: Dialect, e: Sql<P>, rest: seq<Token<P>>)
    requires WellFormed(e) && NoAndFollows(rest)
    ensures ParseOr(d, Print(e) + rest) == if AcceptsAll(d, e) then OrTail(d, e, rest) else None
    decreases e, 2
  {
    if Level(e) >= 1 {
      AndParses(d, e, rest);
    } else {
      var after := [OrWord] + (Print(e.r) + rest);
      OrParses(d, e.l, after);
      assert Print(e) + rest == Print(e.l) + after;
      AndParses(d, e.r, rest);
      assert after[1..] == Print(e.r) + rest;
    }
  }

  /** Printing then parsing gives back exactly the printed condition, and a text is refused
      exactly when it holds a leaf the dialect has no syntax for. */
  lemma PrintParse<P>(d: Dialect, e: Sql<P>)
    requires WellFormed(e)
    ensures Parse(d, Print(e)) == if AcceptsAll(d, e) then Some(e) else None
  {
    OrParses(d, e, []);
    assert Print(e) + [] == Print(e);
  }
}
