/** From a checked expression to the condition tree. */
module CelParser {
  import opened Outcomes
  import opened Schema
  import opened ConditionTree
  import opened CelExpr
  import Like

  // ----- Operands -----

  function BuildAccessor(fs: Fields, clock: Clock, accessor: string, target: Expr, args: seq<Expr>): Option<ValueExpr> {
    if !target.Ident? || args != [] then None
    else if target.name == NOW then Some(Literal(Int(clock.part(accessor))))
    else if target.name in fs && fs[target.name].typ == TimestampType then Some(FieldAccessor(target.name, accessor))
    else None
  }

  function BuildValue(fs: Fields, clock: Clock, e: Expr): Option<ValueExpr> {
    if e.Ident? then
      if e.name == NOW then Some(Literal(Int(clock.now)))
      else if e.name in fs then Some(FieldRef(e.name))
      else None
    else if ConstValue(e).Some? then Some(Literal(ConstValue(e).value))
    else match EvaluateNumeric(clock, e)
      case BadConstant => None
      case Known(n) => Some(Literal(Int(n)))
      case NotConstant =>
        match EvaluateBool(e)
        case BadBool => None
        case KnownBool(b) => Some(Literal(Bool(b)))
        case NotBool =>
          if !e.Call? then None
          else if e.target.Some? && e.fn.PartFn? && e.fn.accessor in ACCESSORS then BuildAccessor(fs, clock, e.fn.accessor, e.target.value, e.args)
          else if e.fn == SizeFn && |e.args| == 1 then
            match BuildValue(fs, clock, e.args[0])
            case Some(arg) => Some(FunctionCall("size", [arg]))
            case None => None
          else None
  }

  function BuildValues(fs: Fields, clock: Clock, es: seq<Expr>): (r: Option<seq<ValueExpr>>)
    ensures r.Some? ==> |r.value| == |es|
  {
    if es == [] then Some([])
    else match BuildValue(fs, clock, es[0])
      case None => None
      case Some(v) =>
        match BuildValues(fs, clock, es[1..])
        case Some(rest) => Some([v] + rest)
        case None => None
  }

  // ----- Comparisons -----

  function Mirror(op: CompareOp): CompareOp {
    match op
    case Lt => Gt
    case Lte => Gte
    case Gt => Lt
    case Gte => Lte
    case _ => op
  }

  /** A field restricts its operators; an alias takes the restriction of its target. */
  predicate OperatorAllowed(fs: Fields, lhs: ValueExpr, op: CompareOp) {
    lhs.FieldRef? ==>
      match ResolveAlias(fs, lhs.name)
      case None => false
      case Some(f) => f in fs && (fs[f].allowedOps.Some? ==> op in fs[f].allowedOps.value)
  }

  /** Two literals fold; a literal on the left swaps sides and mirrors the operator. */
  function CompareOperands(fs: Fields, l: ValueExpr, op: CompareOp, r: ValueExpr): Option<Condition> {
    if l.Literal? && r.Literal? then
      match CompareLiterals(l.v, op, r.v)
      case Some(b) => Some(Constant(b))
      case None => None
    else
      var (lhs, op', rhs) := if l.Literal? then (r, Mirror(op), l) else (l, op, r);
      if OperatorAllowed(fs, lhs, op') then Some(Comparison(lhs, op', rhs)) else None
  }

  function BuildComparison(fs: Fields, clock: Clock, op: CompareOp, args: seq<Expr>): Option<Condition> {
    if |args| != 2 then None
    else
      var l, r := BuildValue(fs, clock, args[0]), BuildValue(fs, clock, args[1]);
      if l.None? || r.None? then None else CompareOperands(fs, l.value, op, r.value)
  }

  // ----- Membership, text and regular expressions -----

  function BuildIn(fs: Fields, clock: Clock, args: seq<Expr>): Option<Condition> {
    if |args| != 2 then None
    else if args[0].Ident? && args[0].name !in fs then None
    else if args[0].Ident? && ResolveAlias(fs, args[0].name).None? then None
    else if args[0].Ident? && args[1].ListExpr? then
      match BuildValues(fs, clock, args[1].elems)
      case Some(vs) => Some(InValues(FieldRef(args[0].name), vs))
      case None => None
    else if args[1].Ident? && args[1].name in fs then
      match BuildValue(fs, clock, args[0])
      case Some(v) => Some(ElementIn(v, args[1].name))
      case None => None
    else None
  }

  /** The single text argument of a call on a field that supports text matching. */
  function TextArgument(fs: Fields, target: Option<Expr>, args: seq<Expr>): Option<(string, string)> {
    if target.Some? && target.value.Ident? && target.value.name in fs && fs[target.value.name].supportsContains &&
       |args| == 1 && args[0].Const? && args[0].c.TextConst?
    then Some((target.value.name, args[0].c.s)) else None
  }

  function BuildTextMatch(fs: Fields, mode: Like.TextMode, target: Option<Expr>, args: seq<Expr>): Option<Condition> {
    match TextArgument(fs, target, args)
    case Some((f, text)) => Some(TextMatch(f, mode, text))
    case None => None
  }

  function BuildRegex(fs: Fields, target: Option<Expr>, args: seq<Expr>): Option<Condition> {
    match TextArgument(fs, target, args)
    case Some((f, pattern)) => Some(RegexMatch(f, pattern))
    case None => None
  }

  // ----- Set operations -----

  function TextConstants(es: seq<Expr>): (r: Option<seq<string>>)
    ensures r.Some? ==> |r.value| == |es|
  {
    if es == [] then Some([])
    else if !(es[0].Const? && es[0].c.TextConst?) then None
    else match TextConstants(es[1..])
      case Some(rest) => Some([es[0].c.s] + rest)
      case None => None
  }

  function Membership(list: string, s: string): Condition {
    ElementIn(Literal(Str(s)), list)
  }

  function SizeEquals(list: string, n: nat): Condition {
    Comparison(FunctionCall("size", [FieldRef(list)]), Eq, Literal(Int(n)))
  }

  /** The conditions joined by one operator, associated to the left. */
  function Combined(op: LogicalOp, conds: seq<Condition>): Condition
    requires conds != []
  {
    var k := |conds| - 1;
    if k == 0 then conds[0] else Logical(op, Combined(op, conds[..k]), conds[k])
  }

  function Memberships(list: string, values: seq<string>): (r: seq<Condition>)
    ensures |r| == |values| && forall i :: 0 <= i < |values| ==> r[i] == Membership(list, values[i])
  {
    seq(|values|, i requires 0 <= i < |values| => Membership(list, values[i]))
  }

  /** The texts without repetitions, in order of first occurrence. */
  function Distinct(values: seq<string>): (r: seq<string>)
    ensures forall s :: s in r <==> s in values
    ensures forall i, j :: 0 <= i < j < |r| ==> r[i] != r[j]
  {
    if values == [] then []
    else
      var k := |values| - 1;
      assert values == values[..k] + [values[k]];
      var init := Distinct(values[..k]);
      if values[k] in values[..k] then init else init + [values[k]]
  }

  function SetCondition(op: SetOp, list: string, values: seq<string>): Condition {
    match op
    case SetContains => if values == [] then Constant(true) else Combined(LogicalAnd, Memberships(list, values))
    case SetIntersects => if values == [] then Constant(false) else Combined(LogicalOr, Memberships(list, values))
    case SetEquivalent =>
      var distinct := Distinct(values);
      if distinct == [] then SizeEquals(list, 0)
      else Logical(LogicalAnd, Combined(LogicalAnd, Memberships(list, distinct)), SizeEquals(list, |distinct|))
  }

  function BuildSet(fs: Fields, op: SetOp, args: seq<Expr>): Option<Condition> {
    if |args| == 2 && args[0].Ident? && args[0].name in fs && fs[args[0].name].kind == JsonList && args[1].ListExpr? then
      match TextConstants(args[1].elems)
      case Some(values) => Some(SetCondition(op, args[0].name, values))
      case None => None
    else None
  }

  method MapConditions(list: string, values: seq<string>) returns (conds: seq<Condition>)
    ensures conds == Memberships(list, values)
  {
    conds := [];
    for i := 0 to |values|
      invariant conds == Memberships(list, values[..i])
    {
      assert values[..i + 1] == values[..i] + [values[i]];
      conds := conds + [Membership(list, values[i])];
    }
    assert values[..|values|] == values;
  }

  method CombineConditions(op: LogicalOp, conds: seq<Condition>) returns (c: Condition)
    requires conds != []
    ensures c == Combined(op, conds)
  {
    c := conds[0];
    for i := 1 to |conds|
      invariant c == Combined(op, conds[..i])
    {
      assert conds[..i + 1][..i] == conds[..i];
      c := Logical(op, c, conds[i]);
    }
    assert conds[..|conds|] == conds;
  }

  method DistinctStrings(values: seq<string>) returns (distinct: seq<string>)
    ensures distinct == Distinct(values)
  {
    var seen: set<string> := {};
    distinct := [];
    for i := 0 to |values|
      invariant distinct == Distinct(values[..i])
      invariant seen == set s | s in values[..i]
    {
      assert values[..i + 1][..i] == values[..i];
      assert values[..i + 1] == values[..i] + [values[i]];
      if values[i] !in seen {
        seen := seen + {values[i]};
        distinct := distinct + [values[i]];
      }
    }
    assert values[..|values|] == values;
  }

  method BuildSetCondition(fs: Fields, op: SetOp, args: seq<Expr>) returns (c: Option<Condition>)
    ensures c == BuildSet(fs, op, args)
  {
    if !(|args| == 2 && args[0].Ident? && args[0].name in fs && fs[args[0].name].kind == JsonList && args[1].ListExpr?) {
      return None;
    }
    var list, elems := args[0].name, args[1].elems;
    var values: seq<string> := [];
    for i := 0 to |elems|
      invariant TextConstants(elems[..i]) == Some(values)
    {
      assert elems[..i + 1] == elems[..i] + [elems[i]];
      TextConstantsAppend(elems[..i], elems[i]);
      if !(elems[i].Const? && elems[i].c.TextConst?) {
        TextConstantsPrefix(elems, i + 1);
        return None;
      }
      values := values + [elems[i].c.s];
    }
    assert elems[..|elems|] == elems;
    match op
    case SetContains =>
      if |values| == 0 {
        return Some(Constant(true));
      }
      var members := MapConditions(list, values);
      var all := CombineConditions(LogicalAnd, members);
      return Some(all);
    case SetIntersects =>
      if |values| == 0 {
        return Some(Constant(false));
      }
      var members := MapConditions(list, values);
      var any := CombineConditions(LogicalOr, members);
      return Some(any);
    case SetEquivalent =>
      var distinct := DistinctStrings(values);
      if |distinct| == 0 {
        return Some(SizeEquals(list, 0));
      }
      var members := MapConditions(list, distinct);
      var contains := CombineConditions(LogicalAnd, members);
      return Some(Logical(LogicalAnd, contains, SizeEquals(list, |distinct|)));
  }

  lemma {:induction false} TextConstantsAppend(es: seq<Expr>, e: Expr)
    ensures TextConstants(es + [e]) ==
            if TextConstants(es).Some? && e.Const? && e.c.TextConst? then Some(TextConstants(es).value + [e.c.s]) else None
  {
    if es == [] {
      assert es + [e] == [e];
      TextConstantsOne(e);
      if e.Const? && e.c.TextConst? {
        assert [] + [e.c.s] == [e.c.s];
      }
    } else {
      TextConstantsAppend(es[1..], e);
      assert (es + [e])[1..] == es[1..] + [e];
      if TextConstants(es + [e]).Some? {
        var rest := TextConstants(es[1..]).value;
        assert [es[0].c.s] + (rest + [e.c.s]) == ([es[0].c.s] + rest) + [e.c.s];
      }
    }
  }

  lemma TextConstantsOne(e: Expr)
    ensures TextConstants([e]) == if e.Const? && e.c.TextConst? then Some([e.c.s]) else None
  {
    var rest := [e][1..];
    assert rest == [] && TextConstants(rest) == Some([]);
    if e.Const? && e.c.TextConst? {
      assert [e.c.s] + [] == [e.c.s];
    }
  }

  lemma {:induction false} TextConstantsPrefix(es: seq<Expr>, k: nat)
    requires k <= |es| && TextConstants(es[..k]).None?
    ensures TextConstants(es).None?
  {
    if k > 0 && es[0].Const? && es[0].c.TextConst? {
      assert es[..k][1..] == es[1..][..k - 1];
      TextConstantsPrefix(es[1..], k - 1);
    }
  }

  // ----- Comprehensions -----

  /** Which macro a fold was expanded from, judged by its start value and its step. */
  function DetectKind(init: Expr, step: Expr): Option<ComprehensionKind> {
    if !init.Const? || !step.Call? then None
    else if init.c != BoolConst(true) && step.fn == OrFn then Some(SomeElement)
    else if init.c == BoolConst(true) && step.fn == AndFn then Some(AllElements)
    else if init.c.IntConst? && step.fn == ConditionalFn then Some(OneElement)
    else None
  }

  function StepPredicate(step: Expr): Option<Expr> {
    if !step.Call? then None
    else if step.fn == ConditionalFn then if |step.args| == 3 then Some(step.args[0]) else None
    else if |step.args| == 2 then Some(step.args[1]) else None
  }

  predicate IsVar(e: Expr, name: string) {
    e.Ident? && e.name == name
  }

  predicate IsText(e: Expr) {
    e.Const? && e.c.TextConst?
  }

  function BuildPredicate(iterVar: string, p: Expr): Option<ElementPredicate> {
    if !p.Call? then None
    else if p.fn == CompareFn(Eq) then
      if |p.args| != 2 then None
      else if IsVar(p.args[0], iterVar) then if IsText(p.args[1]) then Some(EqualsText(p.args[1].c.s)) else None
      else if IsVar(p.args[1], iterVar) && IsText(p.args[0]) then Some(EqualsText(p.args[0].c.s))
      else None
    else if !(p.target.Some? && IsVar(p.target.value, iterVar) && |p.args| == 1 && IsText(p.args[0])) then None
    else if p.fn == TextFn(Like.Prefix) then Some(StartsWith(p.args[0].c.s))
    else if p.fn == TextFn(Like.Suffix) then Some(EndsWith(p.args[0].c.s))
    else if p.fn == TextFn(Like.Contains) then Some(HoldsText(p.args[0].c.s))
    else None
  }

  function BuildFold(fs: Fields, iterVar: string, range: Expr, init: Expr, step: Expr): Option<Condition> {
    if DetectKind(init, step).None? || !range.Ident? || range.name !in fs || fs[range.name].kind != JsonList then None
    else match StepPredicate(step)
      case None => None
      case Some(p) =>
        match BuildPredicate(iterVar, p)
        case None => None
        case Some(pred) => Some(ListComprehension(DetectKind(init, step).value, range.name, pred))
  }

  // ----- Conditions -----

  function Build(fs: Fields, clock: Clock, e: Expr): Option<Condition>
    decreases e, 1
  {
    match e
    case Const(BoolConst(b)) => Some(Constant(b))
    case Ident(name) => if name in fs && fs[name].typ == BoolType then Some(FieldPredicate(name)) else None
    case FoldExpr(iterVar, range, _, init, step, _) => BuildFold(fs, iterVar, range, init, step)
    case Call(fn, target, args) =>
      (match fn
       case AndFn => BuildLogical(fs, clock, LogicalAnd, e)
       case OrFn => BuildLogical(fs, clock, LogicalOr, e)
       case NotFn =>
         if |args| != 1 then None
         else (match Build(fs, clock, args[0]) case Some(c) => Some(NotCondition(c)) case None => None)
       case CompareFn(op) => BuildComparison(fs, clock, op, args)
       case InFn => BuildIn(fs, clock, args)
       case TextFn(mode) => BuildTextMatch(fs, mode, target, args)
       case MatchesFn => BuildRegex(fs, target, args)
       case SetFn(op) => BuildSet(fs, op, args)
       case _ => None)
    case _ => None
  }

  function BuildLogical(fs: Fields, clock: Clock, op: LogicalOp, e: Expr): Option<Condition>
    requires e.Call?
    decreases e, 0
  {
    if |e.args| != 2 then None
    else
      var l, r := Build(fs, clock, e.args[0]), Build(fs, clock, e.args[1]);
      if l.None? || r.None? then None else Some(Logical(op, l.value, r.value))
  }
}
