/** What a parsed SQL condition evaluates to on a row, in three-valued logic. */
module SqlEval {
  import opened Kleene
  import opened Schema
  import opened SqlText
  import Like

  /** SQLite reads a JSON boolean as 1 or 0. */
  function JsonNumber(j: Json): Value {
    if j.JsonTruth? then Bool(j.b) else Null
  }

  /** MySQL orders a JSON null below both JSON booleans. */
  function CompareJson(op: CompareOp, j: Json, target: bool): Truth {
    match j
    case JsonTruth(b) => OfBool(Ordered(op, NumberOf(Bool(b)), NumberOf(Bool(target))))
    case JsonNull => OfBool(Ordered(op, -1, NumberOf(Bool(target))))
    case Absent => Unknown
  }

  function LikeFolded(db: Database, text: Value, pattern: Value): Truth {
    if text.Str? && pattern.Str?
    then OfBool(Like.Matches(Fold(db, pattern.s), Fold(db, text.s), '\\')) else Unknown
  }

  function LengthOf(v: Value): Value {
    if v.Str? then Int(|v.s|) else Null
  }

  /** A condition on the current list element; NULL operands give UNKNOWN. */
  function EvalElement(t: Template, element: string, vs: seq<Value>): Truth
    requires |vs| == Arity(t)
  {
    match t
    case ElementEquals => if vs[0].Str? then OfBool(element == vs[0].s) else Unknown
    case ElementLike => if vs[0].Str? then OfBool(Like.Matches(vs[0].s, element, '!')) else Unknown
    case ElementStarts => if vs[0].Str? then OfBool(Like.Instr(element, vs[0].s) == 1) else Unknown
    case ElementHolds => if vs[0].Str? then OfBool(Like.Instr(element, vs[0].s) > 0) else Unknown
    case ElementEnds =>
      if vs[0].Str? && vs[1].Str? then OfBool(Like.LastChars(element, |vs[0].s|) == vs[1].s) else Unknown
    case _ => Unknown
  }

  function EvalLeaf(db: Database, row: Row, element: string, t: Template, vs: seq<Value>): Truth
    requires |vs| == Arity(t)
  {
    match t
    case Falsehood => False
    case Tautology => True
    case ColumnCompare(f, op) => Compare(db, op, row.scalar(f), vs[0])
    case ColumnIsNull(f) => OfBool(row.scalar(f) == Null)
    case ColumnNotNull(f) => OfBool(row.scalar(f) != Null)
    case ColumnIn(f, _) => Among(db, row.scalar(f), vs)
    case ColumnLike(f) => LikeFolded(db, row.scalar(f), vs[0])
    case ColumnRegex(f) =>
      if row.scalar(f).Str? && vs[0].Str? then OfBool(db.regex(vs[0].s, row.scalar(f).s)) else Unknown
    case FlagIsTrue(f) => OfBool(row.flag(f) == Bool(true))
    case FlagCompare(f, op) => Compare(db, op, row.flag(f), vs[0])
    case JsonIsTrue(f) => OfBool(row.json(f) == JsonTruth(true))
    case JsonCoalesceTrue(f) => OfBool(row.json(f) == JsonTruth(true))
    case JsonDigit(f, op, target) => Compare(db, op, JsonNumber(row.json(f)), Bool(target))
    case JsonLiteral(f, op, target) => CompareJson(op, row.json(f), target)
    case JsonCast(f, op) => Compare(db, op, JsonNumber(row.json(f)), vs[0])
    case JsonNotNull(f) => OfBool(row.entry(f).Present?)
    case JsonTypeNotNull(f) => OfBool(row.entry(f).Present?)
    case ListSize(f, op) => Compare(db, op, Int(|TagsOf(row, f)|), vs[0])
    case TextLength(f, op) => Compare(db, op, LengthOf(row.scalar(f)), vs[0])
    case DatePart(f, accessor, op) => Compare(db, op, row.part(f, accessor), vs[0])
    case ListNotEmpty(f) => OfBool(|TagsOf(row, f)| > 0)
    case _ => EvalElement(t, element, vs)
  }

  predicate Tested(test: CountTest, n: nat) {
    match test
    case Positive => n > 0
    case Zero => n == 0
    case One => n == 1
  }

  function Eval(db: Database, row: Row, element: string, e: Sql<Value>): Truth
    requires WellFormed(e)
    decreases e, 0
  {
    match e
    case Leaf(t, vs) => EvalLeaf(db, row, element, t, vs)
    case Negate(x) => Not(Eval(db, row, element, x))
    case Binary(op, l, r) =>
      if op == AndOp then And(Eval(db, row, element, l), Eval(db, row, element, r))
      else Or(Eval(db, row, element, l), Eval(db, row, element, r))
    case Group(x) => Eval(db, row, element, x)
    case Exists(list, x) => OfBool(Selected(db, row, TagsOf(row, list), x) > 0)
    case Count(list, x, test) => OfBool(Tested(test, Selected(db, row, TagsOf(row, list), x)))
  }

  /** How many elements a subquery selects: those for which the condition is TRUE. */
  function Selected(db: Database, row: Row, elements: seq<string>, e: Sql<Value>): nat
    requires WellFormed(e)
    decreases e, 1, |elements|
  {
    if elements == [] then 0
    else (if Eval(db, row, elements[0], e) == True then 1 else 0) + Selected(db, row, elements[1..], e)
  }
}
