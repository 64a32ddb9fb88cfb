/** The dialect-agnostic condition tree and what it means on a row. */
module ConditionTree {
  import opened Kleene
  import opened Outcomes
  import opened Schema
  import Like

  datatype LogicalOp = LogicalAnd | LogicalOr

  datatype ComprehensionKind = SomeElement | AllElements | OneElement

  datatype ElementPredicate =
    | EqualsText(text: string)
    | StartsWith(prefix: string)
    | EndsWith(suffix: string)
    | HoldsText(substring: string)

  datatype ValueExpr =
    | FieldRef(name: string)
    | Literal(v: Value)
    | FunctionCall(fn: string, args: seq<ValueExpr>)
    | FieldAccessor(field: string, accessor: string)

  datatype Condition =
    | Logical(op: LogicalOp, left: Condition, right: Condition)
    | NotCondition(child: Condition)
    | FieldPredicate(field: string)
    | Comparison(lhs: ValueExpr, cmp: CompareOp, rhs: ValueExpr)
    | InValues(subject: ValueExpr, values: seq<ValueExpr>)
    | ElementIn(element: ValueExpr, list: string)
    | TextMatch(field: string, mode: Like.TextMode, text: string)
    | RegexMatch(field: string, pattern: string)
    | ListComprehension(kind: ComprehensionKind, list: string, pred: ElementPredicate)
    | Constant(b: bool)

  const ACCESSORS := {"getFullYear", "getMonth", "getDate", "getDayOfMonth", "getDayOfWeek", "getDayOfYear",
                      "getHours", "getMinutes", "getSeconds"}

  const TASK_LIST := "has_task_list"

  const TAG := "tag"

  /** The field an identifier stands for: itself, or the field it is an alias for. */
  predicate Names(fs: Fields, name: string, f: string) {
    && name in fs && f in fs
    && (fs[name].kind == VirtualAlias ==> f == fs[name].aliasFor)
    && (fs[name].kind != VirtualAlias ==> f == name)
  }

  function ResolveAlias(fs: Fields, name: string): (r: Option<string>)
    ensures forall f: string :: r == Some(f) <==> Names(fs, name, f)
  {
    if name !in fs then None
    else if fs[name].kind != VirtualAlias then Some(name)
    else if fs[name].aliasFor in fs then Some(fs[name].aliasFor)
    else None
  }

  /** Go's conversion of a literal to int64: doubles truncate toward zero. */
  function ToInt(v: Value): Option<int> {
    match v
    case Int(n) => Some(n)
    case Double(d) => Some(Truncate(d))
    case _ => None
  }

  function Truncate(d: real): int {
    if d >= 0.0 then d.Floor else -((-d).Floor)
  }

  // ----- Meaning -----

  ghost predicate ElementMatches(pred: ElementPredicate, tag: string) {
    match pred
    case EqualsText(v) => tag == v
    case StartsWith(v) => Like.HasPrefix(v, tag)
    case EndsWith(v) => Like.HasSuffix(v, tag)
    case HoldsText(v) => Like.HasInfix(v, tag)
  }

  /** The predicate as a test on one element. */
  ghost function Test(pred: ElementPredicate): string -> bool {
    tag => ElementMatches(pred, tag)
  }

  ghost predicate SomeMatch(test: string -> bool, tags: seq<string>) {
    exists i :: 0 <= i < |tags| && test(tags[i])
  }

  ghost predicate EveryMatch(test: string -> bool, tags: seq<string>) {
    forall i :: 0 <= i < |tags| ==> test(tags[i])
  }

  ghost predicate MatchesOnlyAt(test: string -> bool, tags: seq<string>, i: int) {
    0 <= i < |tags| && test(tags[i]) && forall j :: 0 <= j < |tags| && j != i ==> !test(tags[j])
  }

  ghost predicate OneMatch(test: string -> bool, tags: seq<string>) {
    exists i :: MatchesOnlyAt(test, tags, i)
  }

  ghost predicate ComprehensionHolds(kind: ComprehensionKind, test: string -> bool, tags: seq<string>) {
    match kind
    case SomeElement => SomeMatch(test, tags)
    case AllElements => tags != [] && EveryMatch(test, tags)
    case OneElement => OneMatch(test, tags)
  }

  /** A JSON flag reads as its boolean; a missing key or a JSON null reads as false. */
  predicate FlagHolds(row: Row, f: string) {
    row.json(f) == JsonTruth(true)
  }

  predicate JsonPresent(row: Row, f: string) {
    row.entry(f).Present?
  }

  predicate BoolsOrdered(op: CompareOp, a: bool, b: bool) {
    Ordered(op, NumberOf(Bool(a)), NumberOf(Bool(b)))
  }

  /** The literal of a comparison as the column's type sees it. */
  function Coerced(typ: FieldType, v: Value): Value {
    if typ in {IntType, TimestampType} then
      match ToInt(v)
      case Some(n) => Int(n)
      case None => v
    else v
  }

  function LiteralValue(e: ValueExpr): Value {
    match e
    case Literal(v) => v
    case _ => Null
  }

  /** Integer operand of a size or date-part comparison. */
  function NumericOperand(e: ValueExpr): Value {
    Coerced(IntType, LiteralValue(e))
  }

  function StringSize(v: Value): Value {
    if v.Str? then Int(|v.s|) else Null
  }

  ghost function FieldPredicateMeaning(fs: Fields, row: Row, f: string): Truth
    requires f in fs
  {
    match fs[f].kind
    case BoolColumn => OfBool(row.flag(f) == Bool(true))
    case JsonBool => OfBool(FlagHolds(row, f))
    case _ => OfBool(JsonPresent(row, f))
  }

  ghost function FieldComparisonMeaning(db: Database, fs: Fields, row: Row, f: string, op: CompareOp, v: Value): Truth
    requires f in fs
  {
    match fs[f].kind
    case BoolColumn => Compare(db, op, row.flag(f), v)
    case JsonBool => if v.Bool? then OfBool(BoolsOrdered(op, FlagHolds(row, f), v.b)) else Unknown
    case JsonExists => if v.Bool? then OfBool(BoolsOrdered(op, JsonPresent(row, f), v.b)) else Unknown
    case _ =>
      if v == Null then OfBool((row.scalar(f) == Null) == (op == Eq))
      else Compare(db, op, row.scalar(f), Coerced(fs[f].typ, v))
  }

  ghost function ComparisonMeaning(db: Database, fs: Fields, row: Row, lhs: ValueExpr, op: CompareOp, rhs: ValueExpr): Truth {
    match lhs
    case FieldRef(f) =>
      if f in fs then FieldComparisonMeaning(db, fs, row, f, op, LiteralValue(rhs)) else Unknown
    case FunctionCall(_, args) =>
      if |args| == 1 && args[0].FieldRef? && ResolveAlias(fs, args[0].name).Some? then
        var f := ResolveAlias(fs, args[0].name).value;
        var size := if f in fs && fs[f].kind == JsonList then Int(|TagsOf(row, f)|) else StringSize(row.scalar(f));
        Compare(db, op, size, NumericOperand(rhs))
      else Unknown
    case FieldAccessor(f, accessor) => Compare(db, op, row.part(f, accessor), NumericOperand(rhs))
    case Literal(_) => Unknown
  }

  /** `x in [v1, ..., vn]` is the disjunction of the equalities. */
  ghost function AnyEqual(db: Database, typ: FieldType, a: Value, values: seq<ValueExpr>): Truth {
    if values == [] then False
    else Or(Compare(db, Eq, a, Coerced(typ, LiteralValue(values[0]))), AnyEqual(db, typ, a, values[1..]))
  }

  /** `tag in [v1, ..., vn]` asks whether some listed text is a tag of the row. */
  ghost predicate AnyListed(tags: seq<string>, values: seq<ValueExpr>) {
    exists i :: 0 <= i < |values| && LiteralValue(values[i]).Str? && LiteralValue(values[i]).s in tags
  }

  /** The three-valued meaning of a condition on a row. It does not mention any dialect. */
  ghost function Meaning(db: Database, fs: Fields, row: Row, c: Condition): Truth {
    match c
    case Constant(b) => OfBool(b)
    case NotCondition(x) => Not(Meaning(db, fs, row, x))
    case Logical(op, l, r) =>
      if op == LogicalAnd then And(Meaning(db, fs, row, l), Meaning(db, fs, row, r))
      else Or(Meaning(db, fs, row, l), Meaning(db, fs, row, r))
    case FieldPredicate(f) => if f in fs then FieldPredicateMeaning(fs, row, f) else Unknown
    case Comparison(lhs, op, rhs) => ComparisonMeaning(db, fs, row, lhs, op, rhs)
    case InValues(subject, values) =>
      if !subject.FieldRef? then Unknown
      else if subject.name == TAG && ResolveAlias(fs, TAG).Some? then
        OfBool(AnyListed(TagsOf(row, ResolveAlias(fs, TAG).value), values))
      else if subject.name in fs then
        AnyEqual(db, fs[subject.name].typ, row.scalar(subject.name), values)
      else Unknown
    case ElementIn(element, list) =>
      OfBool(LiteralValue(element).Str? && LiteralValue(element).s in TagsOf(row, list))
    case TextMatch(f, mode, text) =>
      if row.scalar(f).Str? then OfBool(Like.TextMatches(mode, Fold(db, text), Fold(db, row.scalar(f).s))) else Unknown
    case RegexMatch(f, pattern) =>
      if row.scalar(f).Str? then OfBool(db.regex(pattern, row.scalar(f).s)) else Unknown
    case ListComprehension(kind, list, pred) => OfBool(ComprehensionHolds(kind, Test(pred), TagsOf(row, list)))
  }

  // ----- Where a dialect departs from that meaning -----

  /** Comparing a JSON flag with `v` is exact when the key holds a boolean; when it does not, it
      is exact only for SQLite's `IS TRUE` forms, or, on MySQL with a JSON null, when ordering
      null below both booleans happens to agree. */
  predicate FlagComparisonFaithful(d: Dialect, row: Row, f: string, op: CompareOp, v: bool) {
    || row.json(f).JsonTruth?
    || (d == SQLite && f != "has_task_list")
    || (d == MySQL && row.json(f).JsonNull? && (v || op in {Lte, Gt}))
  }

  /** Every JSON-flag comparison of the tree is exact on this row. */
  predicate Faithful(d: Dialect, fs: Fields, row: Row, c: Condition) {
    match c
    case Logical(_, l, r) => Faithful(d, fs, row, l) && Faithful(d, fs, row, r)
    case NotCondition(x) => Faithful(d, fs, row, x)
    case Comparison(FieldRef(f), op, Literal(Bool(v))) =>
      f in fs && fs[f].kind == JsonBool ==> FlagComparisonFaithful(d, row, f, op, v)
    case _ => true
  }
}
