/** The renderer's result as a tree: each placeholder of the tree records its position in the
    argument list and the value it was minted for. */
module Compile {
  import opened Outcomes
  import opened Schema
  import opened SqlText
  import opened ConditionTree
  import Like

  /** The placeholder minted for argument number `slot`, holding `v`. */
  datatype Param = Param(slot: nat, v: Value)

  datatype Shape = Always | Never | Plain(e: Sql<Param>)

  /** A rendered condition and every argument minted while rendering it. */
  datatype Outcome = Failed | Done(shape: Shape, args: seq<Value>)

  function Params(n: nat, vs: seq<Value>): (ps: seq<Param>)
    ensures |ps| == |vs| && forall i {:trigger ps[i]} :: 0 <= i < |vs| ==> ps[i] == Param(n + i, vs[i])
  {
    seq(|vs|, i requires 0 <= i < |vs| => Param(n + i, vs[i]))
  }

  function Atom(t: Template, n: nat, vs: seq<Value>): Outcome {
    Done(Plain(Leaf(t, Params(n, vs))), vs)
  }

  // ----- Pruning -----

  function AndShape(l: Shape, r: Shape): Shape {
    if l.Never? || r.Never? then Never
    else if l.Always? then r
    else if r.Always? then l
    else Plain(Group(Binary(AndOp, l.e, r.e)))
  }

  function OrShape(l: Shape, r: Shape): Shape {
    if l.Always? || r.Always? then Always
    else if l.Never? then r
    else if r.Never? then l
    else Plain(Group(Binary(OrOp, l.e, r.e)))
  }

  function NotShape(s: Shape): Shape {
    match s
    case Always => Never
    case Never => Always
    case Plain(e) => Plain(Negate(Group(e)))
  }

  // ----- Tag comprehensions -----

  function ElementText(d: Dialect, n: nat, mode: Like.TextMode, v: string): (Sql<Param>, seq<Value>) {
    if v == "" then (Leaf(Tautology, []), [])
    else if d == SQLite then
      match mode
      case Prefix => (Leaf(ElementStarts, Params(n, [Str(v)])), [Str(v)])
      case Contains => (Leaf(ElementHolds, Params(n, [Str(v)])), [Str(v)])
      case Suffix => (Leaf(ElementEnds, Params(n, [Str(v), Str(v)])), [Str(v), Str(v)])
    else
      var pattern := Str(Like.Pattern(mode, v, '!'));
      (Leaf(ElementLike, Params(n, [pattern])), [pattern])
  }

  function ElementTree(d: Dialect, n: nat, pred: ElementPredicate): (Sql<Param>, seq<Value>) {
    match pred
    case EqualsText(v) => (Leaf(ElementEquals, Params(n, [Str(v)])), [Str(v)])
    case StartsWith(v) => ElementText(d, n, Like.Prefix, v)
    case EndsWith(v) => ElementText(d, n, Like.Suffix, v)
    case HoldsText(v) => ElementText(d, n, Like.Contains, v)
  }

  function AnyMatchTree(d: Dialect, list: string, e: Sql<Param>): Sql<Param> {
    if d == MySQL then Count(list, e, Positive) else Exists(list, e)
  }

  function NoMatchTree(d: Dialect, list: string, e: Sql<Param>): Sql<Param> {
    if d == MySQL then Count(list, e, Zero) else Negate(Exists(list, e))
  }

  function ComprehensionTree(d: Dialect, list: string, kind: ComprehensionKind, e: Sql<Param>): Sql<Param> {
    match kind
    case SomeElement => AnyMatchTree(d, list, e)
    case AllElements =>
      Group(Binary(AndOp, Leaf(ListNotEmpty(list), []), NoMatchTree(d, list, Negate(Group(e)))))
    case OneElement => Count(list, e, One)
  }

  function Comprehension(d: Dialect, n: nat, list: string, pred: ElementPredicate, kind: ComprehensionKind): Outcome {
    var (e, args) := ElementTree(d, n, pred);
    Done(Plain(ComprehensionTree(d, list, kind, e)), args)
  }

  // ----- Lists of values -----

  function Texts(values: seq<ValueExpr>): (r: Option<seq<string>>)
    ensures r.Some? ==> |r.value| == |values|
  {
    if values == [] then Some([])
    else
      var v := values[0];
      if !(v.Literal? && v.v.Str?) then None
      else match Texts(values[1..])
        case Some(rest) => Some([v.v.s] + rest)
        case None => None
  }

  function MemberTree(d: Dialect, n: nat, list: string, v: string): Sql<Param> {
    AnyMatchTree(d, list, Leaf(ElementEquals, Params(n, [Str(v)])))
  }

  /** The disjunction of the memberships, in order. */
  function AnyMemberTree(d: Dialect, n: nat, list: string, vs: seq<string>): Sql<Param>
    requires vs != []
  {
    var k := |vs| - 1;
    if k == 0 then MemberTree(d, n, list, vs[0])
    else Binary(OrOp, AnyMemberTree(d, n, list, vs[..k]), MemberTree(d, n + k, list, vs[k]))
  }

  function StrValues(vs: seq<string>): seq<Value> {
    seq(|vs|, i requires 0 <= i < |vs| => Str(vs[i]))
  }

  function TagIn(d: Dialect, fs: Fields, n: nat, values: seq<ValueExpr>): Outcome {
    match ResolveAlias(fs, TAG)
    case None => Failed
    case Some(list) =>
      match Texts(values)
      case None => Failed
      case Some(vs) =>
        if vs == [] then Atom(Falsehood, n, [])
        else if |vs| == 1 then Done(Plain(MemberTree(d, n, list, vs[0])), StrValues(vs))
        else Done(Plain(Group(AnyMemberTree(d, n, list, vs))), StrValues(vs))
  }

  /** A listed literal as the column's type stores it; only texts and integers can be listed. */
  function ListedValue(typ: FieldType, e: ValueExpr): Option<Value> {
    if !e.Literal? then None
    else match typ
      case StringType => if e.v.Str? then Some(e.v) else None
      case IntType => (match ToInt(e.v) case Some(i) => Some(Int(i)) case None => None)
      case _ => None
  }

  function ListedValues(typ: FieldType, values: seq<ValueExpr>): (r: Option<seq<Value>>)
    ensures r.Some? ==> |r.value| == |values|
  {
    if values == [] then Some([])
    else match ListedValue(typ, values[0])
      case None => None
      case Some(v) =>
        match ListedValues(typ, values[1..])
        case Some(rest) => Some([v] + rest)
        case None => None
  }

  function InTree(d: Dialect, fs: Fields, n: nat, subject: ValueExpr, values: seq<ValueExpr>): Outcome {
    if !subject.FieldRef? then Failed
    else if subject.name == TAG then TagIn(d, fs, n, values)
    else if subject.name !in fs || fs[subject.name].kind != Scalar then Failed
    else match ListedValues(fs[subject.name].typ, values)
      case Some(vs) => Atom(ColumnIn(subject.name, |vs|), n, vs)
      case None => Failed
  }

  // ----- Comparisons -----

  function ScalarComparison(n: nat, f: string, typ: FieldType, op: CompareOp, rhs: ValueExpr): Outcome {
    if !rhs.Literal? then Failed
    else if rhs.v == Null then
      match op
      case Eq => Atom(ColumnIsNull(f), n, [])
      case Neq => Atom(ColumnNotNull(f), n, [])
      case _ => Failed
    else match typ
      case StringType => if rhs.v.Str? then Atom(ColumnCompare(f, op), n, [rhs.v]) else Failed
      case BoolType => Failed
      case _ =>
        match ToInt(rhs.v)
        case Some(i) => Atom(ColumnCompare(f, op), n, [Int(i)])
        case None => Failed
  }

  function BoolArg(d: Dialect, b: bool): Value {
    if d == SQLite then Int(if b then 1 else 0) else Bool(b)
  }

  function BoolColumnComparison(d: Dialect, n: nat, f: string, op: CompareOp, rhs: ValueExpr): Outcome {
    if rhs.Literal? && rhs.v.Bool? then Atom(FlagCompare(f, op), n, [BoolArg(d, rhs.v.b)]) else Failed
  }

  function IsTrueTree(f: string, wanted: bool): Sql<Param> {
    if wanted then Leaf(JsonIsTrue(f), []) else Negate(Group(Leaf(JsonIsTrue(f), [])))
  }

  function JsonBoolComparison(d: Dialect, n: nat, f: string, op: CompareOp, rhs: ValueExpr): Outcome {
    if !(rhs.Literal? && rhs.v.Bool?) then Failed
    else
      var value := rhs.v.b;
      match d
      case SQLite =>
        if op !in {Eq, Neq} then Failed
        else if f == TASK_LIST then Atom(JsonDigit(f, op, value), n, [])
        else Done(Plain(IsTrueTree(f, value == (op == Eq))), [])
      case MySQL => Atom(JsonLiteral(f, op, value), n, [])
      case Postgres => Atom(JsonCast(f, op), n, [Bool(value)])
  }

  function ExistsTemplate(d: Dialect, f: string): Template {
    if d == MySQL then JsonTypeNotNull(f) else JsonNotNull(f)
  }

  function JsonExistsComparison(d: Dialect, f: string, op: CompareOp, rhs: ValueExpr): Outcome {
    if !(rhs.Literal? && rhs.v.Bool?) || op !in {Eq, Neq} then Failed
    else
      var leaf: Sql<Param> := Leaf(ExistsTemplate(d, f), []);
      Done(Plain(if rhs.v.b == (op == Eq) then leaf else Negate(Group(leaf))), [])
  }

  function NumericLiteral(e: ValueExpr): Option<int> {
    if e.Literal? then ToInt(e.v) else None
  }

  function SizeComparison(fs: Fields, n: nat, fn: string, args: seq<ValueExpr>, op: CompareOp, rhs: ValueExpr): Outcome {
    if fn != "size" || |args| != 1 || !args[0].FieldRef? then Failed
    else match ResolveAlias(fs, args[0].name)
      case None => Failed
      case Some(f) =>
        match NumericLiteral(rhs)
        case None => Failed
        case Some(i) =>
          if f in fs && fs[f].kind == JsonList then Atom(ListSize(f, op), n, [Int(i)])
          else if f in fs && fs[f].kind == Scalar && fs[f].typ == StringType then Atom(TextLength(f, op), n, [Int(i)])
          else Failed
  }

  function AccessorComparison(fs: Fields, n: nat, f: string, accessor: string, op: CompareOp, rhs: ValueExpr): Outcome {
    if f !in fs || accessor !in ACCESSORS then Failed
    else match NumericLiteral(rhs)
      case Some(i) => Atom(DatePart(f, accessor, op), n, [Int(i)])
      case None => Failed
  }

  function ComparisonTree(d: Dialect, fs: Fields, n: nat, lhs: ValueExpr, op: CompareOp, rhs: ValueExpr): Outcome {
    match lhs
    case FieldRef(f) =>
      if f !in fs then Failed
      else (match fs[f].kind
            case BoolColumn => BoolColumnComparison(d, n, f, op, rhs)
            case JsonBool => JsonBoolComparison(d, n, f, op, rhs)
            case JsonExists => JsonExistsComparison(d, f, op, rhs)
            case Scalar => ScalarComparison(n, f, fs[f].typ, op, rhs)
            case _ => Failed)
    case FunctionCall(fn, args) => SizeComparison(fs, n, fn, args, op, rhs)
    case FieldAccessor(f, accessor) => AccessorComparison(fs, n, f, accessor, op, rhs)
    case Literal(_) => Failed
  }

  function PredicateTree(d: Dialect, fs: Fields, n: nat, f: string): Outcome {
    if f !in fs then Failed
    else match fs[f].kind
      case BoolColumn => Atom(FlagIsTrue(f), n, [])
      case JsonBool => Atom(if d == MySQL then JsonCoalesceTrue(f) else JsonIsTrue(f), n, [])
      case JsonExists => Atom(ExistsTemplate(d, f), n, [])
      case _ => Failed
  }

  function ElementInTree(d: Dialect, fs: Fields, n: nat, element: ValueExpr, list: string): Outcome {
    if list in fs && fs[list].kind == JsonList && element.Literal? && element.v.Str?
    then Comprehension(d, n, list, EqualsText(element.v.s), SomeElement) else Failed
  }

  /** Compile a condition whose first placeholder will be argument number `n`. */
  function Tree(d: Dialect, fs: Fields, n: nat, c: Condition): Outcome
    decreases c
  {
    match c
    case Logical(op, l, r) =>
      var left := Tree(d, fs, n, l);
      if left.Failed? then Failed
      else
        var right := Tree(d, fs, n + |left.args|, r);
        if right.Failed? then Failed
        else Done(if op == LogicalAnd then AndShape(left.shape, right.shape) else OrShape(left.shape, right.shape),
                  left.args + right.args)
    case NotCondition(x) =>
      (match Tree(d, fs, n, x)
       case Done(shape, args) => Done(NotShape(shape), args)
       case Failed => Failed)
    case FieldPredicate(f) => PredicateTree(d, fs, n, f)
    case Comparison(lhs, op, rhs) => ComparisonTree(d, fs, n, lhs, op, rhs)
    case InValues(subject, values) => InTree(d, fs, n, subject, values)
    case ElementIn(element, list) => ElementInTree(d, fs, n, element, list)
    case TextMatch(f, mode, text) =>
      if f in fs then Atom(ColumnLike(f), n, [Str(Like.Pattern(mode, text, '\\'))]) else Failed
    case RegexMatch(f, pattern) => if f in fs then Atom(ColumnRegex(f), n, [Str(pattern)]) else Failed
    case ListComprehension(kind, list, pred) =>
      if list in fs && fs[list].kind == JsonList then Comprehension(d, n, list, pred, kind) else Failed
    case Constant(b) => Done(if b then Always else Never, [])
  }
}
