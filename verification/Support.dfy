/** Which filters the compiler supports: which expressions build, and which conditions render. */
module Support {
  import opened Kleene
  import opened Outcomes
  import opened Schema
  import opened ConditionTree
  import opened Compile
  import opened RenderMeaning
  import opened CelExpr
  import opened CelParser
  import opened CelMeaning
  import opened CelProofs
  import Like

  // ----- Which conditions render -----

  predicate Numeric(e: ValueExpr) {
    e.Literal? && (e.v.Int? || e.v.Double?)
  }

  predicate TextLiteral(e: ValueExpr) {
    e.Literal? && e.v.Str?
  }

  predicate IsField(fs: Fields, f: string, kinds: set<FieldKind>) {
    f in fs && fs[f].kind in kinds
  }

  /** A literal that a column of the type is compared with. */
  predicate Comparable(typ: FieldType, op: CompareOp, rhs: ValueExpr) {
    && rhs.Literal?
    && (rhs.v == Null ==> op in {Eq, Neq})
    && (rhs.v != Null ==> (typ == StringType && rhs.v.Str?) || (typ in {IntType, TimestampType} && Numeric(rhs)))
  }

  /** A flag is compared with true or false; SQLite knows no order of JSON flags, and no dialect one of presence. */
  predicate FlagComparable(d: Dialect, kind: FieldKind, op: CompareOp, rhs: ValueExpr) {
    && rhs.Literal? && rhs.v.Bool?
    && (kind == JsonExists || (kind == JsonBool && d == SQLite) ==> op in {Eq, Neq})
  }

  predicate FieldComparable(d: Dialect, fs: Fields, f: string, op: CompareOp, rhs: ValueExpr) {
    || (IsField(fs, f, {BoolColumn, JsonBool, JsonExists}) && FlagComparable(d, fs[f].kind, op, rhs))
    || (IsField(fs, f, {Scalar}) && Comparable(fs[f].typ, op, rhs))
  }

  /** What has a size: a list, or a text column. */
  predicate Sized(fs: Fields, f: string) {
    IsField(fs, f, {JsonList}) || (IsField(fs, f, {Scalar}) && fs[f].typ == StringType)
  }

  ghost predicate SizeOf(fs: Fields, fn: string, args: seq<ValueExpr>) {
    fn == "size" && |args| == 1 && args[0].FieldRef? && exists f: string :: Names(fs, args[0].name, f) && Sized(fs, f)
  }

  /** A list of text literals for a text column, of numbers for an integer column. */
  predicate Listable(typ: FieldType, values: seq<ValueExpr>) {
    || (typ == StringType && forall i :: 0 <= i < |values| ==> TextLiteral(values[i]))
    || (typ == IntType && forall i :: 0 <= i < |values| ==> Numeric(values[i]))
    || values == []
  }

  const DATE_PARTS := {"getFullYear", "getMonth", "getDate", "getDayOfMonth", "getDayOfWeek", "getDayOfYear",
                       "getHours", "getMinutes", "getSeconds"}

  ghost predicate Renderable(d: Dialect, fs: Fields, c: Condition) {
    match c
    case Logical(_, l, r) => Renderable(d, fs, l) && Renderable(d, fs, r)
    case NotCondition(x) => Renderable(d, fs, x)
    case FieldPredicate(f) => IsField(fs, f, {BoolColumn, JsonBool, JsonExists})
    case Comparison(FieldRef(f), op, rhs) => FieldComparable(d, fs, f, op, rhs)
    case Comparison(FunctionCall(fn, args), _, rhs) => SizeOf(fs, fn, args) && Numeric(rhs)
    case Comparison(FieldAccessor(f, accessor), _, rhs) => f in fs && accessor in DATE_PARTS && Numeric(rhs)
    case Comparison(Literal(_), _, _) => false
    case InValues(FieldRef(f), values) =>
      if f == "tag" then (exists g: string :: Names(fs, "tag", g)) && forall i :: 0 <= i < |values| ==> TextLiteral(values[i])
      else IsField(fs, f, {Scalar}) && Listable(fs[f].typ, values)
    case InValues(_, _) => false
    case ElementIn(element, list) => IsField(fs, list, {JsonList}) && TextLiteral(element)
    case TextMatch(f, _, _) => f in fs
    case RegexMatch(f, _) => f in fs
    case ListComprehension(_, list, _) => IsField(fs, list, {JsonList})
    case Constant(_) => true
  }

  lemma {:induction false} TextsIff(values: seq<ValueExpr>)
    ensures Texts(values).Some? <==> forall i :: 0 <= i < |values| ==> TextLiteral(values[i])
  {
    if values != [] {
      TextsIff(values[1..]);
      assert forall i :: 0 <= i < |values| - 1 ==> values[1..][i] == values[i + 1];
      assert forall i :: 0 < i < |values| ==> values[i] == values[1..][i - 1];
    }
  }

  lemma {:induction false} ListedIff(typ: FieldType, values: seq<ValueExpr>)
    ensures ListedValues(typ, values).Some? <==> Listable(typ, values)
  {
    if values != [] {
      var rest := values[1..];
      ListedIff(typ, rest);
      assert forall i :: 0 <= i < |rest| ==> rest[i] == values[i + 1];
      assert forall i :: 0 < i < |values| ==> values[i] == rest[i - 1];
    }
  }

  lemma AtomRendersIff(d: Dialect, fs: Fields, n: nat, c: Condition)
    requires !c.Logical? && !c.NotCondition?
    ensures Tree(d, fs, n, c).Done? <==> Renderable(d, fs, c)
  {
    match c
    case Comparison(FunctionCall(fn, args), _, rhs) => SizeRendersIff(fs, n, fn, args, c.cmp, rhs);
    case InValues(subject, values) =>
      TextsIff(values);
      if subject.FieldRef? && subject.name in fs {
        ListedIff(fs[subject.name].typ, values);
      }
      AliasFound(fs, "tag");
    case _ =>
  }

  lemma AliasFound(fs: Fields, name: string)
    ensures ResolveAlias(fs, name).Some? <==> exists f: string :: Names(fs, name, f)
  {
    if ResolveAlias(fs, name).Some? {
      assert Names(fs, name, ResolveAlias(fs, name).value);
    }
  }

  lemma SizeRendersIff(fs: Fields, n: nat, fn: string, args: seq<ValueExpr>, op: CompareOp, rhs: ValueExpr)
    ensures SizeComparison(fs, n, fn, args, op, rhs).Done? <==> SizeOf(fs, fn, args) && Numeric(rhs)
  {
    if fn == "size" && |args| == 1 && args[0].FieldRef? {
      AliasFound(fs, args[0].name);
      if ResolveAlias(fs, args[0].name).Some? {
        assert Names(fs, args[0].name, ResolveAlias(fs, args[0].name).value);
      }
    }
  }

  /** A condition renders on a dialect if and only if each of its parts is supported there. */
  lemma {:induction false} RendersIff(d: Dialect, fs: Fields, n: nat, c: Condition)
    ensures Tree(d, fs, n, c).Done? <==> Renderable(d, fs, c)
    decreases c
  {
    match c
    case Logical(_, l, r) =>
      RendersIff(d, fs, n, l);
      var left := Tree(d, fs, n, l);
      if left.Done? {
        RendersIff(d, fs, n + |left.args|, r);
      }
    case NotCondition(x) => RendersIff(d, fs, n, x);
    case _ => AtomRendersIff(d, fs, n, c);
  }

  // ----- Which expressions build -----

  /** A number built from literals, `now`, instants, durations and arithmetic, with no division by zero. */
  ghost predicate ConstantNumber(clock: Clock, e: Expr) {
    match e
    case Const(c) => c.IntConst? || c.UintConst? || c.DoubleConst?
    case Ident(name) => name == "now"
    case Call(fn, _, args) =>
      if fn == TimestampFn then
        |args| == 1 && args[0].Const? &&
        (args[0].c.IntConst? || args[0].c.UintConst? || (args[0].c.TextConst? && clock.parseTime(args[0].c.s).Some?))
      else if fn == DurationFn then
        |args| == 1 && args[0].Const? && args[0].c.TextConst? && clock.parseDuration(args[0].c.s).Some?
      else
        && fn.ArithmeticFn? && |args| == 2 && ConstantNumber(clock, args[0]) && ConstantNumber(clock, args[1])
        && (fn.arith in {Divide, Modulo} ==> EvaluateNumeric(clock, args[1]) != Known(0))
    case _ => false
  }

  /** The part of a date: of `now`, or of a time column. */
  predicate PartOf(fs: Fields, e: Expr, ofNow: bool) {
    && e.Call? && e.fn.PartFn? && e.fn.accessor in DATE_PARTS && e.args == []
    && e.target.Some? && e.target.value.Ident?
    && if ofNow then e.target.value.name == "now"
       else e.target.value.name != "now" && e.target.value.name in fs && fs[e.target.value.name].typ == TimestampType
  }

  /** The operand is a constant number: a literal, `now`, a part of it, or arithmetic over such. */
  ghost predicate NumberOperand(fs: Fields, clock: Clock, e: Expr) {
    ConstantNumber(clock, e) || PartOf(fs, e, true)
  }

  ghost predicate ConstantOperand(fs: Fields, clock: Clock, e: Expr) {
    || NumberOperand(fs, clock, e) || ConstantTruth(e).Some?
    || (e.Const? && (e.c.TextConst? || e.c.NullConst?))
  }

  /** What may stand on a side of a comparison. */
  ghost predicate Operand(fs: Fields, clock: Clock, e: Expr) {
    || ConstantOperand(fs, clock, e)
    || (e.Ident? && e.name in fs)
    || PartOf(fs, e, false)
    || (e.Call? && e.fn == SizeFn && |e.args| == 1 && Operand(fs, clock, e.args[0]))
  }

  /** The field an identifier stands for admits the operator; other operands admit all. */
  ghost predicate Admits(fs: Fields, e: Expr, op: CompareOp) {
    e.Ident? ==> exists f: string :: Names(fs, e.name, f) && (fs[f].allowedOps.Some? ==> op in fs[f].allowedOps.value)
  }

  ghost predicate ComparisonSupported(fs: Fields, clock: Clock, op: CompareOp, a: Expr, b: Expr) {
    && Operand(fs, clock, a) && Operand(fs, clock, b)
    && if ConstantOperand(fs, clock, a) && ConstantOperand(fs, clock, b) then
         || (NumberOperand(fs, clock, a) && NumberOperand(fs, clock, b))
         || (IsText(a) && IsText(b))
         || (ConstantTruth(a).Some? && ConstantTruth(b).Some? && op in {Eq, Neq})
       else if ConstantOperand(fs, clock, a) then Admits(fs, b, Mirror(op))
       else Admits(fs, a, op)
  }

  ghost predicate KnownField(fs: Fields, name: string) {
    exists f: string :: Names(fs, name, f)
  }

  /** `field in [...]` with operands in the list, or `operand in list`. */
  ghost predicate InSupported(fs: Fields, clock: Clock, a: Expr, b: Expr) {
    && (a.Ident? ==> KnownField(fs, a.name))
    && if a.Ident? && b.ListExpr? then forall i :: 0 <= i < |b.elems| ==> Operand(fs, clock, b.elems[i])
       else b.Ident? && b.name in fs && Operand(fs, clock, a)
  }

  /** A text test or a regular expression on a field that supports it. */
  predicate TextSupported(fs: Fields, target: Option<Expr>, args: seq<Expr>) {
    && target.Some? && target.value.Ident? && target.value.name in fs && fs[target.value.name].supportsContains
    && |args| == 1 && IsText(args[0])
  }

  predicate SetSupported(fs: Fields, args: seq<Expr>) {
    && |args| == 2 && args[0].Ident? && IsField(fs, args[0].name, {JsonList})
    && args[1].ListExpr? && forall i :: 0 <= i < |args[1].elems| ==> IsText(args[1].elems[i])
  }

  /** The element compared with a text, or a text test on the element. */
  predicate PredicateSupported(x: string, p: Expr) {
    && p.Call?
    && if p.fn == CompareFn(Eq) then
         |p.args| == 2 && ((IsVar(p.args[0], x) && IsText(p.args[1])) || (IsVar(p.args[1], x) && IsText(p.args[0])))
       else p.fn.TextFn? && p.target.Some? && IsVar(p.target.value, x) && |p.args| == 1 && IsText(p.args[0])
  }

  /** A fold over a list that starts and steps like a macro. */
  predicate FoldSupported(fs: Fields, x: string, range: Expr, init: Expr, step: Expr) {
    && range.Ident? && IsField(fs, range.name, {JsonList}) && init.Const? && step.Call?
    && match step.fn
       case OrFn => init.c != BoolConst(true) && |step.args| == 2 && PredicateSupported(x, step.args[1])
       case AndFn => init.c == BoolConst(true) && |step.args| == 2 && PredicateSupported(x, step.args[1])
       case ConditionalFn => init.c.IntConst? && |step.args| == 3 && PredicateSupported(x, step.args[0])
       case _ => false
  }

  ghost predicate Supported(fs: Fields, clock: Clock, e: Expr) {
    match e
    case Const(c) => c.BoolConst?
    case Ident(name) => name in fs && fs[name].typ == BoolType
    case FoldExpr(x, range, _, init, step, _) => FoldSupported(fs, x, range, init, step)
    case Call(fn, target, args) =>
      (match fn
       case AndFn => |args| == 2 && Supported(fs, clock, args[0]) && Supported(fs, clock, args[1])
       case OrFn => |args| == 2 && Supported(fs, clock, args[0]) && Supported(fs, clock, args[1])
       case NotFn => |args| == 1 && Supported(fs, clock, args[0])
       case CompareFn(op) => |args| == 2 && ComparisonSupported(fs, clock, op, args[0], args[1])
       case InFn => |args| == 2 && InSupported(fs, clock, args[0], args[1])
       case TextFn(_) => TextSupported(fs, target, args)
       case MatchesFn => TextSupported(fs, target, args)
       case SetFn(_) => SetSupported(fs, args)
       case _ => false)
    case _ => false
  }

  lemma {:induction false} NumberFoldsIff(clock: Clock, e: Expr)
    ensures EvaluateNumeric(clock, e).Known? <==> ConstantNumber(clock, e)
    decreases e
  {
    if e.Call? && e.fn.ArithmeticFn? && |e.args| == 2 {
      NumberFoldsIff(clock, e.args[0]);
      NumberFoldsIff(clock, e.args[1]);
    }
  }

  /** Only calls of time functions and of operators are constants that are refused. */
  lemma {:induction false} RefusedConstant(clock: Clock, e: Expr)
    ensures EvaluateNumeric(clock, e).BadConstant? ==> e.Call? && (e.fn in {TimestampFn, DurationFn} || e.fn.ArithmeticFn?)
    ensures EvaluateBool(e).BadBool? ==> e.Call? && e.fn == NotFn
    decreases e
  {}

  lemma {:induction false} OperandIff(fs: Fields, clock: Clock, e: Expr)
    ensures BuildValue(fs, clock, e).Some? <==> Operand(fs, clock, e)
    decreases e
  {
    NumberFoldsIff(clock, e);
    RefusedConstant(clock, e);
    BoolFolds(e);
    if e.Call? && e.fn == SizeFn && |e.args| == 1 {
      OperandIff(fs, clock, e.args[0]);
    }
  }

  /** A constant operand is built to a literal of its own kind. */
  lemma ConstantOperandIff(fs: Fields, clock: Clock, e: Expr)
    requires BuildValue(fs, clock, e).Some?
    ensures var v := BuildValue(fs, clock, e).value;
      && (v.Literal? <==> ConstantOperand(fs, clock, e))
      && (v.Literal? ==>
            && (Numeric(v) <==> NumberOperand(fs, clock, e))
            && (v.v.Str? <==> IsText(e))
            && (v.v.Bool? <==> ConstantTruth(e).Some?))
      && (v.FieldRef? <==> e.Ident? && e.name != "now")
      && (v.FieldRef? ==> v.name == e.name)
      && (e.Ident? && e.name == "now" ==> v.Literal?)
  {
    NumberFoldsIff(clock, e);
    RefusedConstant(clock, e);
    BoolFolds(e);
  }

  lemma ComparisonBuildsIff(fs: Fields, clock: Clock, op: CompareOp, args: seq<Expr>)
    ensures BuildComparison(fs, clock, op, args).Some? <==>
            |args| == 2 && ComparisonSupported(fs, clock, op, args[0], args[1])
  {
    hide BuildValue, ConstantOperand, NumberOperand, Operand, ConstantTruth;
    if |args| == 2 {
      OperandIff(fs, clock, args[0]);
      OperandIff(fs, clock, args[1]);
      if BuildValue(fs, clock, args[0]).Some? && BuildValue(fs, clock, args[1]).Some? {
        ConstantOperandIff(fs, clock, args[0]);
        ConstantOperandIff(fs, clock, args[1]);
        AdmitsIff(fs, args[0], BuildValue(fs, clock, args[0]).value, op);
        AdmitsIff(fs, args[1], BuildValue(fs, clock, args[1]).value, Mirror(op));
      }
    }
  }

  lemma AdmitsIff(fs: Fields, e: Expr, v: ValueExpr, op: CompareOp)
    requires (v.FieldRef? <==> e.Ident? && e.name != "now") && (v.FieldRef? ==> v.name == e.name)
    requires e.Ident? && e.name == "now" ==> v.Literal?
    ensures !v.Literal? ==> (OperatorAllowed(fs, v, op) <==> Admits(fs, e, op))
  {
    if v.FieldRef? {
      AliasFound(fs, v.name);
      if ResolveAlias(fs, v.name).Some? {
        assert Names(fs, v.name, ResolveAlias(fs, v.name).value);
      }
    }
  }

  lemma {:induction false} ValuesIff(fs: Fields, clock: Clock, es: seq<Expr>)
    ensures BuildValues(fs, clock, es).Some? <==> forall i :: 0 <= i < |es| ==> Operand(fs, clock, es[i])
  {
    hide BuildValue, Operand;
    if es != [] {
      OperandIff(fs, clock, es[0]);
      ValuesIff(fs, clock, es[1..]);
      assert forall i :: 0 <= i < |es| - 1 ==> es[1..][i] == es[i + 1];
      assert forall i :: 0 < i < |es| ==> es[i] == es[1..][i - 1];
    }
  }

  lemma InBuildsIff(fs: Fields, clock: Clock, args: seq<Expr>)
    ensures BuildIn(fs, clock, args).Some? <==> |args| == 2 && InSupported(fs, clock, args[0], args[1])
  {
    hide BuildValue, Operand;
    if |args| == 2 {
      OperandIff(fs, clock, args[0]);
      if args[1].ListExpr? {
        ValuesIff(fs, clock, args[1].elems);
      }
      if args[0].Ident? {
        AliasFound(fs, args[0].name);
      }
    }
  }

  lemma PredicateBuildsIff(x: string, p: Expr)
    ensures BuildPredicate(x, p).Some? <==> PredicateSupported(x, p)
  {
    if p.Call? && p.fn.TextFn? {
      match p.fn.mode
      case Prefix =>
      case Suffix =>
      case Contains =>
    }
  }

  lemma FoldBuildsIff(fs: Fields, x: string, range: Expr, init: Expr, step: Expr)
    ensures BuildFold(fs, x, range, init, step).Some? <==> FoldSupported(fs, x, range, init, step)
  {
    hide PredicateSupported, BuildPredicate;
    if StepPredicate(step).Some? {
      PredicateBuildsIff(x, StepPredicate(step).value);
    }
  }

  /** An expression builds if and only if each of its parts is supported. */
  lemma {:induction false} BuildsIff(fs: Fields, clock: Clock, e: Expr)
    ensures Build(fs, clock, e).Some? <==> Supported(fs, clock, e)
    decreases e
  {
    hide ComparisonSupported, InSupported, FoldSupported, BuildComparison, BuildIn, BuildFold;
    if e.FoldExpr? {
      FoldBuildsIff(fs, e.iterVar, e.range, e.init, e.step);
    } else if e.Call? {
      var args := e.args;
      match e.fn
      case AndFn => LogicalBuildsIff(fs, clock, e);
      case OrFn => LogicalBuildsIff(fs, clock, e);
      case NotFn =>
        if |args| == 1 {
          BuildsIff(fs, clock, args[0]);
        }
      case CompareFn(op) => ComparisonBuildsIff(fs, clock, op, args);
      case InFn => InBuildsIff(fs, clock, args);
      case SetFn(_) =>
        if |args| == 2 && args[1].ListExpr? {
          TextsListed(args[1].elems);
        }
      case _ =>
    }
  }

  lemma {:induction false} LogicalBuildsIff(fs: Fields, clock: Clock, e: Expr)
    requires e.Call? && e.fn in {AndFn, OrFn}
    ensures Build(fs, clock, e).Some? <==> Supported(fs, clock, e)
    decreases e, 0
  {
    hide ComparisonSupported, InSupported, FoldSupported, BuildComparison, BuildIn, BuildFold;
    if |e.args| == 2 {
      BuildsIff(fs, clock, e.args[0]);
      BuildsIff(fs, clock, e.args[1]);
    }
  }

  /** A text test builds to itself: the receiver is the column, the literal the text that is searched. */
  lemma TextTestBuilds(fs: Fields, clock: Clock, mode: Like.TextMode, f: string, text: string)
    requires f in fs && fs[f].supportsContains
    ensures Build(fs, clock, Call(TextFn(mode), Some(Ident(f)), [Const(TextConst(text))])) == Some(TextMatch(f, mode, text))
    ensures Build(fs, clock, Call(MatchesFn, Some(Ident(f)), [Const(TextConst(text))])) == Some(RegexMatch(f, text))
  {}

  /** Which filters compile. */
  lemma CompilesIff(d: Dialect, fs: Fields, clock: Clock, e: Expr)
    ensures Supported(fs, clock, e) <==> Build(fs, clock, e).Some?
    ensures Supported(fs, clock, e) ==>
      var c := Build(fs, clock, e).value; Tree(d, fs, 0, c).Done? <==> Renderable(d, fs, c)
  {
    hide Supported, Renderable, Build, Tree;
    BuildsIff(fs, clock, e);
    if Build(fs, clock, e).Some? {
      RendersIff(d, fs, 0, Build(fs, clock, e).value);
    }
  }

  lemma {:induction false} CombinedRenders(d: Dialect, fs: Fields, op: LogicalOp, conds: seq<Condition>)
    requires conds != [] && forall i :: 0 <= i < |conds| ==> Renderable(d, fs, conds[i])
    ensures Renderable(d, fs, Combined(op, conds))
    decreases |conds|
  {
    if |conds| > 1 {
      CombinedRenders(d, fs, op, conds[..|conds| - 1]);
    }
  }

  lemma MembershipsRender(d: Dialect, fs: Fields, op: LogicalOp, list: string, values: seq<string>)
    requires IsField(fs, list, {JsonList}) && values != []
    ensures Renderable(d, fs, Combined(op, Memberships(list, values)))
  {
    CombinedRenders(d, fs, op, Memberships(list, values));
  }

  lemma SizeRenders(d: Dialect, fs: Fields, list: string, n: nat)
    requires IsField(fs, list, {JsonList})
    ensures Renderable(d, fs, SizeEquals(list, n))
  {
    assert Names(fs, list, list) && Sized(fs, list);
  }

  /** Set functions, list macros and text tests render on every dialect once they build. */
  lemma ListsAndTextsRender(d: Dialect, fs: Fields, clock: Clock, e: Expr, c: Condition)
    requires Build(fs, clock, e) == Some(c)
    requires e.FoldExpr? || (e.Call? && (e.fn.SetFn? || e.fn.TextFn? || e.fn == MatchesFn))
    ensures Renderable(d, fs, c)
  {
    if e.Call? && e.fn.SetFn? {
      var list, values := e.args[0].name, TextConstants(e.args[1].elems).value;
      if e.fn.setOp == SetEquivalent {
        SizeRenders(d, fs, list, |Distinct(values)|);
        if Distinct(values) != [] {
          MembershipsRender(d, fs, LogicalAnd, list, Distinct(values));
        }
      } else if values != [] {
        MembershipsRender(d, fs, if e.fn.setOp == SetContains then LogicalAnd else LogicalOr, list, values);
      }
    }
  }

  /** A boolean column is compared with a boolean argument, on SQLite with 1 or 0. */
  lemma FlagArgument(d: Dialect, fs: Fields, n: nat, f: string, op: CompareOp, b: bool)
    requires IsField(fs, f, {BoolColumn})
    ensures var out := Tree(d, fs, n, Comparison(FieldRef(f), op, Literal(Bool(b))));
      out.Done? && out.args == [match d case SQLite => Int(NumberOf(Bool(b))) case _ => Bool(b)]
  {}

  // ----- Aliases -----

  /** `tag in [...]` searches the list that `tag` is an alias for, and the list `tag` where it is none. */
  lemma TagInSearchesTarget(d: Dialect, fs: Fields, n: nat, values: seq<ValueExpr>, db: Database, row: Row)
    requires "tag" in fs && Renderable(d, fs, InValues(FieldRef("tag"), values))
    ensures var out := Tree(d, fs, n, InValues(FieldRef("tag"), values));
      var list := if fs["tag"].kind == VirtualAlias then fs["tag"].aliasFor else "tag";
      && out.Done? && ShapeIsUnit(out.shape)
      && TruthOf(db, row, out.shape) ==
         OfBool(row.tags(list).Some? &&
                exists i :: 0 <= i < |values| && TextLiteral(values[i]) && values[i].v.s in row.tags(list).value)
  {
    RendersIff(d, fs, n, InValues(FieldRef("tag"), values));
    TagInExact(d, fs, n, values, db, row);
    var list := ResolveAlias(fs, "tag").value;
    assert Names(fs, "tag", list);
    TextsAreLiterals(values);
    TextsIff(values);
  }

  /** `size(x)` measures the list or the text that x stands for. */
  lemma SizeMeasuresTarget(d: Dialect, fs: Fields, n: nat, name: string, op: CompareOp, k: int, db: Database, row: Row)
    requires name in fs && Renderable(d, fs, Comparison(FunctionCall("size", [FieldRef(name)]), op, Literal(Int(k))))
    ensures var out := Tree(d, fs, n, Comparison(FunctionCall("size", [FieldRef(name)]), op, Literal(Int(k))));
      var f := if fs[name].kind == VirtualAlias then fs[name].aliasFor else name;
      && out.Done? && ShapeIsUnit(out.shape) && f in fs
      && TruthOf(db, row, out.shape) ==
         if fs[f].kind == JsonList then OfBool(Ordered(op, if row.tags(f).Some? then |row.tags(f).value| else 0, k))
         else if row.scalar(f).Str? then OfBool(Ordered(op, |row.scalar(f).s|, k)) else Unknown
  {
    var lhs, rhs := FunctionCall("size", [FieldRef(name)]), Literal(Int(k));
    RendersIff(d, fs, n, Comparison(lhs, op, rhs));
    SizeComparisonExact(d, fs, n, lhs, op, rhs, db, row);
    assert Names(fs, name, ResolveAlias(fs, name).value);
  }

  /** A comparison with an identifier builds exactly when the field it stands for admits the operator. */
  lemma AliasTakesOperators(fs: Fields, name: string, op: CompareOp, v: Value)
    requires name in fs
    ensures var f := if fs[name].kind == VirtualAlias then fs[name].aliasFor else name;
      CompareOperands(fs, FieldRef(name), op, Literal(v)) ==
      if f in fs && (fs[f].allowedOps.Some? ==> op in fs[f].allowedOps.value)
      then Some(Comparison(FieldRef(name), op, Literal(v))) else None
  {
    AliasFound(fs, name);
  }
}
