/** What a checked expression means on a row, and that building the condition tree keeps it. */
module CelMeaning {
  import opened Kleene
  import opened Outcomes
  import opened Schema
  import opened ConditionTree
  import opened CelExpr
  import opened CelNumbers
  import opened CelParser
  import Like

  // ----- Operands -----

  /** One side of a comparison: a constant of the expression or a value of the row. */
  datatype Side = Fixed(v: Value) | Varying(v: Value)

  function FieldValue(fs: Fields, row: Row, f: string): Value
    requires f in fs
  {
    match fs[f].kind
    case BoolColumn => row.flag(f)
    case JsonBool => Bool(FlagHolds(row, f))
    case JsonExists => Bool(JsonPresent(row, f))
    case _ => row.scalar(f)
  }

  function SizeValue(fs: Fields, row: Row, f: string): Value {
    if f in fs && fs[f].kind == JsonList then Int(|TagsOf(row, f)|) else StringSize(row.scalar(f))
  }

  /** What a constant of the expression language stands for. */
  ghost function ConstantMeaning(c: CelConst): Option<Value> {
    match c
    case TextConst(s) => Some(Str(s))
    case IntConst(i) => Some(Int(i))
    case UintConst(u) => Some(Int(u))
    case DoubleConst(d) => Some(Double(d))
    case BoolConst(b) => Some(Bool(b))
    case NullConst => Some(Null)
    case OtherConst => None
  }

  /** The truth value of a boolean constant under any number of negations. */
  ghost function ConstantTruth(e: Expr): Option<bool> {
    match e
    case Const(BoolConst(b)) => Some(b)
    case Call(NotFn, _, args) =>
      if |args| != 1 then None
      else (match ConstantTruth(args[0]) case Some(b) => Some(!b) case None => None)
    case _ => None
  }

  ghost function SideOf(fs: Fields, clock: Clock, row: Row, e: Expr): Option<Side> {
    match e
    case Ident(name) =>
      if name == NOW then Some(Fixed(Int(clock.now)))
      else if name in fs then Some(Varying(FieldValue(fs, row, name)))
      else None
    case Const(c) => (match ConstantMeaning(c) case Some(v) => Some(Fixed(v)) case None => None)
    case Call(fn, target, args) =>
      if ExactNumber(clock, e).Some? then Some(Fixed(ExactNumber(clock, e).value))
      else if ConstantTruth(e).Some? then Some(Fixed(Bool(ConstantTruth(e).value)))
      else if fn.PartFn? && fn.accessor in ACCESSORS && target.Some? && target.value.Ident? && args == [] then
        if target.value.name == NOW then Some(Fixed(Int(clock.part(fn.accessor))))
        else Some(Varying(row.part(target.value.name, fn.accessor)))
      else if fn == SizeFn && |args| == 1 && args[0].Ident? && ResolveAlias(fs, args[0].name).Some? then
        Some(Varying(SizeValue(fs, row, ResolveAlias(fs, args[0].name).value)))
      else None
    case _ => None
  }

  /** A number of the row and a numeric constant compare as numbers, whole or not. */
  function ValuesCompared(db: Database, op: CompareOp, a: Value, b: Value): Truth {
    if IsNumber(a) && IsNumeric(b) then OfBool(RealsOrdered(op, NumberOf(a) as real, AsReal(b)))
    else Compare(db, op, a, b)
  }

  /** The source comparison, operands in their source order. Comparing with null asks whether
      the other side is NULL. */
  function SidesCompared(db: Database, op: CompareOp, a: Side, b: Side): Truth {
    if a.Fixed? && b.Fixed? then OfBool(LiteralsOrdered(op, a.v, b.v))
    else if b == Fixed(Null) then OfBool((a.v == Null) == (op == Eq))
    else if a == Fixed(Null) then OfBool((b.v == Null) == (op == Eq))
    else if a.Fixed? then ValuesCompared(db, Mirror(op), b.v, a.v)
    else ValuesCompared(db, op, a.v, b.v)
  }

  ghost function ComparedMeaning(db: Database, fs: Fields, clock: Clock, row: Row, op: CompareOp, args: seq<Expr>): Truth {
    if |args| == 2 && SideOf(fs, clock, row, args[0]).Some? && SideOf(fs, clock, row, args[1]).Some?
    then SidesCompared(db, op, SideOf(fs, clock, row, args[0]).value, SideOf(fs, clock, row, args[1]).value)
    else Unknown
  }

  /** A constant operand folds without leaving int64. */
  ghost predicate OperandFolds(clock: Clock, e: Expr) {
    && (e.Const? && e.c.UintConst? ==> IsInt64(e.c.u))
    && (e.Call? && (EvaluateNumeric(clock, e).Known? || ExactNumber(clock, e).Some?) ==>
          && Foldable(clock, e) && IsInt64(TruncatedNumber(clock, e).value) && ExactNumber(clock, e).Some?)
  }

  /** How far folding took the operand from its value; a literal on its own is not folded. */
  ghost function OperandDrift(clock: Clock, e: Expr): real {
    if e.Call? && TruncatedNumber(clock, e).Some? && ExactNumber(clock, e).Some? then Drift(clock, e) else 0.0
  }

  /** The literal an operand was built to does its duty against a column: converted to an integer,
      it orders the column's values as the operand's own value does. */
  ghost predicate FitsColumn(clock: Clock, op: CompareOp, v: Value, e: Expr) {
    IsNumeric(v) ==>
      IsInt64(ToInt(v).value) && RoundingHarmless(op, ToInt(v).value, AsReal(v) + OperandDrift(clock, e))
  }

  /** Constants against each other fold exactly and are widened without harm; a constant against a
      column is rounded without harm. */
  ghost predicate ComparisonIsExact(fs: Fields, clock: Clock, op: CompareOp, args: seq<Expr>) {
    |args| == 2 ==>
      && OperandFolds(clock, args[0]) && OperandFolds(clock, args[1])
      && match (BuildValue(fs, clock, args[0]), BuildValue(fs, clock, args[1]))
         case (Some(Literal(l)), Some(Literal(r))) =>
           OperandDrift(clock, args[0]) == 0.0 == OperandDrift(clock, args[1]) && WideningHarmless(op, l, r)
         case (Some(Literal(l)), Some(_)) => FitsColumn(clock, Mirror(op), l, args[0])
         case (Some(_), Some(Literal(r))) => FitsColumn(clock, op, r, args[1])
         case _ => true
  }

  // ----- Membership -----

  ghost function AnyEqualSide(db: Database, fs: Fields, clock: Clock, row: Row, a: Value, es: seq<Expr>): Truth {
    if es == [] then False
    else
      var b := SideOf(fs, clock, row, es[0]);
      Or(if b.Some? then ValuesCompared(db, Eq, a, b.value.v) else Unknown, AnyEqualSide(db, fs, clock, row, a, es[1..]))
  }

  ghost predicate AnyTextListed(tags: seq<string>, es: seq<Expr>) {
    exists i :: 0 <= i < |es| && es[i].Const? && es[i].c.TextConst? && es[i].c.s in tags
  }

  ghost function InMeaning(db: Database, fs: Fields, clock: Clock, row: Row, args: seq<Expr>): Truth {
    if |args| != 2 then Unknown
    else if args[0].Ident? && args[1].ListExpr? then
      if args[0].name == TAG && ResolveAlias(fs, TAG).Some? then
        OfBool(AnyTextListed(TagsOf(row, ResolveAlias(fs, TAG).value), args[1].elems))
      else AnyEqualSide(db, fs, clock, row, row.scalar(args[0].name), args[1].elems)
    else if args[1].Ident? then
      OfBool(IsText(args[0]) && args[0].c.s in TagsOf(row, args[1].name))
    else Unknown
  }

  ghost predicate ListedExactly(fs: Fields, clock: Clock, e: Expr) {
    && OperandFolds(clock, e)
    && match BuildValue(fs, clock, e)
       case Some(Literal(v)) => FitsColumn(clock, Eq, v, e)
       case _ => true
  }

  ghost predicate ListIsExact(fs: Fields, clock: Clock, es: seq<Expr>) {
    forall i :: 0 <= i < |es| ==> ListedExactly(fs, clock, es[i])
  }

  // ----- Set operations -----

  function ElementsOf(ss: seq<string>): set<string> {
    set s | s in ss
  }

  predicate NoRepeats(ss: seq<string>) {
    forall i, j :: 0 <= i < j < |ss| ==> ss[i] != ss[j]
  }

  predicate SetOperationHolds(op: SetOp, tags: set<string>, values: set<string>) {
    match op
    case SetContains => values <= tags
    case SetIntersects => values * tags != {}
    case SetEquivalent => values == tags
  }

  /** The texts of a list of text constants. */
  function TextsOf(es: seq<Expr>): set<string> {
    set i | 0 <= i < |es| && IsText(es[i]) :: es[i].c.s
  }

  // ----- Folds over a list -----

  /** Evaluate a step or result of a fold, given the element and the accumulator. */
  ghost function EvalExpr(e: Expr, iterVar: string, element: string, accuVar: string, accu: Value): Option<Value> {
    match e
    case Ident(name) => if name == iterVar then Some(Str(element)) else if name == accuVar then Some(accu) else None
    case Const(c) => ConstantMeaning(c)
    case Call(fn, target, args) =>
      if fn == ConditionalFn && |args| == 3 then
        match EvalExpr(args[0], iterVar, element, accuVar, accu)
        case Some(Bool(b)) => EvalExpr(if b then args[1] else args[2], iterVar, element, accuVar, accu)
        case _ => None
      else if target.None? && |args| == 2 then
        var a, b := EvalExpr(args[0], iterVar, element, accuVar, accu), EvalExpr(args[1], iterVar, element, accuVar, accu);
        if a.None? || b.None? then None else BinaryValue(fn, a.value, b.value)
      else if target.Some? && |args| == 1 then
        var a, b := EvalExpr(target.value, iterVar, element, accuVar, accu), EvalExpr(args[0], iterVar, element, accuVar, accu);
        if a.None? || b.None? then None else TextTest(fn, a.value, b.value)
      else None
    case _ => None
  }

  function BinaryValue(fn: Function, a: Value, b: Value): Option<Value> {
    match fn
    case CompareFn(Eq) => Some(Bool(a == b))
    case OrFn => if a.Bool? && b.Bool? then Some(Bool(a.b || b.b)) else None
    case AndFn => if a.Bool? && b.Bool? then Some(Bool(a.b && b.b)) else None
    case ArithmeticFn(Plus) => if a.Int? && b.Int? then Some(Int(a.n + b.n)) else None
    case _ => None
  }

  function TextTest(fn: Function, a: Value, b: Value): Option<Value> {
    if !a.Str? || !b.Str? || !fn.TextFn? then None
    else match fn.mode
      case Prefix => Some(Bool(|b.s| <= |a.s| && a.s[..|b.s|] == b.s))
      case Suffix => Some(Bool(|b.s| <= |a.s| && a.s[|a.s| - |b.s|..] == b.s))
      case Contains => Some(Bool(exists i | 0 <= i <= |a.s| :: |b.s| <= |a.s| - i && a.s[i..][..|b.s|] == b.s))
  }

  ghost function RunSteps(e: Expr, elements: seq<string>, accu: Value): Option<Value>
    requires e.FoldExpr?
  {
    if elements == [] then Some(accu)
    else match EvalExpr(e.step, e.iterVar, elements[0], e.accuVar, accu)
      case None => None
      case Some(next) => RunSteps(e, elements[1..], next)
  }

  /** The value of a fold over a list: start, step through the elements, take the result. */
  ghost function RunFold(e: Expr, elements: seq<string>): Option<Value>
    requires e.FoldExpr?
  {
    match if e.init.Const? then ConstantMeaning(e.init.c) else None
    case None => None
    case Some(start) =>
      match RunSteps(e, elements, start)
      case None => None
      case Some(accu) => EvalExpr(e.result, "", "", e.accuVar, accu)
  }

  /** What the macro expander of the expression language produces around a predicate. */
  predicate MacroShaped(e: Expr)
    requires e.FoldExpr?
  {
    var accu := Ident(e.accuVar);
    && e.iterVar != e.accuVar && e.accuVar != "" && e.step.Call? && e.step.target.None?
    && (match e.step.fn
        case OrFn => e.init == Const(BoolConst(false)) && |e.step.args| == 2 && e.step.args[0] == accu && e.result == accu
        case AndFn => e.init == Const(BoolConst(true)) && |e.step.args| == 2 && e.step.args[0] == accu && e.result == accu
        case ConditionalFn =>
          && e.init == Const(IntConst(0)) && |e.step.args| == 3 && e.step.args[2] == accu
          && e.step.args[1] == Call(ArithmeticFn(Plus), None, [accu, Const(IntConst(1))])
          && e.result == Call(CompareFn(Eq), None, [accu, Const(IntConst(1))])
        case _ => false)
    && PredicateShaped(e)
  }

  /** Equality is a plain call, the text tests have a receiver. */
  predicate PredicateShaped(e: Expr)
    requires e.FoldExpr?
  {
    match StepPredicate(e.step)
    case Some(Call(fn, target, _)) => fn == CompareFn(Eq) ==> target.None?
    case _ => true
  }

  // ----- Meaning -----

  ghost function SetMeaning(fs: Fields, row: Row, op: SetOp, args: seq<Expr>): Truth {
    if |args| == 2 && args[0].Ident? && args[1].ListExpr? && forall i :: 0 <= i < |args[1].elems| ==> IsText(args[1].elems[i])
    then OfBool(SetOperationHolds(op, ElementsOf(TagsOf(row, args[0].name)), TextsOf(args[1].elems)))
    else Unknown
  }

  /** A text test compares the column of its receiver with its literal; on a NULL column it is UNKNOWN. */
  ghost function TextMeaning(row: Row, test: (string, string) -> bool, target: Option<Expr>, args: seq<Expr>): Truth {
    if target.Some? && target.value.Ident? && |args| == 1 && args[0].Const? && args[0].c.TextConst? then
      var column := row.scalar(target.value.name);
      if column.Str? then OfBool(test(args[0].c.s, column.s)) else Unknown
    else Unknown
  }

  /** The three-valued meaning of a filter expression on a row. */
  ghost function CelTruth(db: Database, fs: Fields, clock: Clock, row: Row, e: Expr): Truth {
    match e
    case Const(BoolConst(b)) => OfBool(b)
    case Ident(name) => if name in fs then FieldPredicateMeaning(fs, row, name) else Unknown
    case FoldExpr(_, range, _, _, _, _) =>
      if range.Ident? then
        (match RunFold(e, TagsOf(row, range.name))
         case Some(Bool(b)) => OfBool(b)
         case _ => Unknown)
      else Unknown
    case Call(fn, target, args) =>
      (match fn
       case AndFn =>
         if |args| == 2 then And(CelTruth(db, fs, clock, row, args[0]), CelTruth(db, fs, clock, row, args[1])) else Unknown
       case OrFn =>
         if |args| == 2 then Or(CelTruth(db, fs, clock, row, args[0]), CelTruth(db, fs, clock, row, args[1])) else Unknown
       case NotFn => if |args| == 1 then Not(CelTruth(db, fs, clock, row, args[0])) else Unknown
       case CompareFn(op) => ComparedMeaning(db, fs, clock, row, op, args)
       case InFn => InMeaning(db, fs, clock, row, args)
       case SetFn(op) => SetMeaning(fs, row, op, args)
       case TextFn(mode) =>
         TextMeaning(row, (v, s) => Like.TextMatches(mode, Fold(db, v), Fold(db, s)), target, args)
       case MatchesFn => TextMeaning(row, db.regex, target, args)
       case _ => Unknown)
    case _ => Unknown
  }

  /** Where the tree is faithful to the expression: constants fold exactly, `sets.equivalent` sees
      a list without repetitions, `all` sees a non-empty list, and folds come from macros. */
  ghost predicate BuildsExactly(fs: Fields, clock: Clock, row: Row, e: Expr) {
    match e
    case FoldExpr(_, range, _, _, step, _) =>
      && MacroShaped(e)
      && (step.Call? && step.fn == AndFn && range.Ident? ==> TagsOf(row, range.name) != [])
    case Call(fn, _, args) =>
      (match fn
       case CompareFn(op) => ComparisonIsExact(fs, clock, op, args)
       case InFn => |args| == 2 && args[1].ListExpr? ==> ListIsExact(fs, clock, args[1].elems)
       case SetFn(SetEquivalent) => |args| == 2 && args[0].Ident? ==> NoRepeats(TagsOf(row, args[0].name))
       case AndFn => forall i :: 0 <= i < |args| ==> BuildsExactly(fs, clock, row, args[i])
       case OrFn => forall i :: 0 <= i < |args| ==> BuildsExactly(fs, clock, row, args[i])
       case NotFn => forall i :: 0 <= i < |args| ==> BuildsExactly(fs, clock, row, args[i])
       case _ => true)
    case _ => true
  }
}
