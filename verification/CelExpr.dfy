/** Checked filter expressions and the folding of their constant parts. */
module CelExpr {
  import opened Outcomes
  import opened Schema
  import opened ConditionTree
  import opened Rounding
  import Like

  datatype CelConst =
    | TextConst(s: string)
    | IntConst(i: int)
    | UintConst(u: nat)
    | DoubleConst(d: Float64)
    | BoolConst(b: bool)
    | NullConst
    | OtherConst

  datatype ArithmeticOp = Plus | Minus | Times | Divide | Modulo

  datatype SetOp = SetContains | SetIntersects | SetEquivalent

  /** The functions of the expression language, told apart by name. */
  datatype Function =
    | AndFn | OrFn | NotFn | ConditionalFn   // _&&_  _||_  !_  _?_:_
    | CompareFn(op: CompareOp)               // _==_  _!=_  _<_  _<=_  _>_  _>=_
    | ArithmeticFn(arith: ArithmeticOp)      // _+_  _-_  _*_  _/_  _%_
    | InFn                                   // @in
    | TextFn(mode: Like.TextMode)            // contains, startsWith, endsWith
    | MatchesFn                              // matches
    | SetFn(setOp: SetOp)                    // sets.contains, sets.intersects, sets.equivalent
    | TimestampFn | DurationFn | SizeFn      // timestamp, duration, size
    | PartFn(accessor: string)               // getFullYear, getMonth, ...
    | OtherFn(name: string)

  datatype Expr =
    | Const(c: CelConst)
    | Ident(name: string)
    | Call(fn: Function, target: Option<Expr>, args: seq<Expr>)
    | ListExpr(elems: seq<Expr>)
    | FoldExpr(iterVar: string, range: Expr, accuVar: string, init: Expr, step: Expr, result: Expr)
    | OtherExpr

  /** The frozen evaluation time in seconds, its date parts, and the library's parsers, which
      read an instant or a duration as nanoseconds. */
  datatype Clock = Clock(
    now: int,
    part: string -> int,
    parseTime: string -> Option<int>,
    parseDuration: string -> Option<int>)

  const NOW := "now"

  const TWO_63 := 0x8000_0000_0000_0000

  const SECOND := 1_000_000_000

  predicate IsInt64(n: int) {
    -TWO_63 <= n < TWO_63
  }

  /** Go's int64 arithmetic wraps around. */
  function Wrap(n: int): (r: int)
    ensures IsInt64(r) && (r - n) % (2 * TWO_63) == 0
    ensures IsInt64(n) ==> r == n
  {
    (n + TWO_63) % (2 * TWO_63) - TWO_63
  }

  /** Division truncated toward zero, as in Go and in the filter language. */
  function TruncDiv(a: int, b: int): int
    requires b != 0
  {
    if (a < 0) == (b < 0) then Abs(a) / Abs(b) else -(Abs(a) / Abs(b))
  }

  function TruncMod(a: int, b: int): int
    requires b != 0
  {
    a - TruncDiv(a, b) * b
  }

  function ConstValue(e: Expr): Option<Value> {
    if !e.Const? then None
    else match e.c
      case TextConst(s) => Some(Str(s))
      case IntConst(i) => Some(Int(i))
      case UintConst(u) => Some(Int(Wrap(u)))
      case DoubleConst(d) => Some(Double(d))
      case BoolConst(b) => Some(Bool(b))
      case NullConst => Some(Null)
      case OtherConst => None
  }

  // ----- Numeric folding -----

  datatype Folded = Known(n: int) | NotConstant | BadConstant

  function FoldTimestamp(clock: Clock, args: seq<Expr>): Folded {
    if |args| != 1 then BadConstant
    else match ConstValue(args[0])
      case Some(Str(s)) => (match clock.parseTime(s) case Some(ns) => Known(ns / SECOND) case None => BadConstant)
      case Some(Int(n)) => Known(n)
      case _ => BadConstant
  }

  function FoldDuration(clock: Clock, args: seq<Expr>): Folded {
    if |args| != 1 then BadConstant
    else match ConstValue(args[0])
      case Some(Str(s)) => (match clock.parseDuration(s) case Some(ns) => Known(TruncDiv(ns, SECOND)) case None => BadConstant)
      case _ => BadConstant
  }

  function Arithmetic(op: ArithmeticOp, a: int, b: int): Folded {
    match op
    case Plus => Known(Wrap(a + b))
    case Minus => Known(Wrap(a - b))
    case Times => Known(Wrap(a * b))
    case Divide => if b == 0 then BadConstant else Known(Wrap(TruncDiv(a, b)))
    case Modulo => if b == 0 then BadConstant else Known(Wrap(TruncMod(a, b)))
  }

  /** Fold an expression to an int64 number of seconds. */
  function EvaluateNumeric(clock: Clock, e: Expr): Folded {
    match e
    case Const(_) =>
      (match ConstValue(e)
       case Some(Int(n)) => Known(n)
       case Some(Double(d)) => Known(Truncate(d))
       case _ => NotConstant)
    case Ident(name) => if name == NOW then Known(clock.now) else NotConstant
    case Call(fn, _, args) =>
      if fn == TimestampFn then FoldTimestamp(clock, args)
      else if fn == DurationFn then FoldDuration(clock, args)
      else if !fn.ArithmeticFn? then NotConstant
      else if |args| != 2 then BadConstant
      else
        var a := EvaluateNumeric(clock, args[0]);
        if !a.Known? then a
        else
          var b := EvaluateNumeric(clock, args[1]);
          if !b.Known? then b else Arithmetic(fn.arith, a.n, b.n)
    case _ => NotConstant
  }

  // ----- What the folded expression stands for -----

  predicate IsNumeric(v: Value) {
    v.Int? || v.Double?
  }

  function AsReal(v: Value): real
    requires IsNumeric(v)
  {
    if v.Int? then v.n as real else v.d
  }

  /** Integer operations on integers, real operations where a fraction may be involved. */
  function ExactArithmetic(op: ArithmeticOp, a: Value, b: Value): (r: Option<Value>)
    requires IsNumeric(a) && IsNumeric(b)
    ensures r.Some? ==> IsNumeric(r.value)
  {
    match op
    case Plus => Some(if a.Int? && b.Int? then Int(a.n + b.n) else Double(AsReal(a) + AsReal(b)))
    case Minus => Some(if a.Int? && b.Int? then Int(a.n - b.n) else Double(AsReal(a) - AsReal(b)))
    case Times => Some(if a.Int? && b.Int? then Int(a.n * b.n) else Double(AsReal(a) * AsReal(b)))
    case Divide =>
      if a.Int? && b.Int? then if b.n == 0 then None else Some(Int(TruncDiv(a.n, b.n)))
      else if a.Double? && b.Double? && b.d != 0.0 then Some(Double(a.d / b.d))
      else None
    case Modulo => if a.Int? && b.Int? && b.n != 0 then Some(Int(TruncMod(a.n, b.n))) else None
  }

  /** An instant or a duration in seconds. */
  function Seconds(ns: int): Value {
    if ns % SECOND == 0 then Int(ns / SECOND) else Double(ns as real / SECOND as real)
  }

  function ExactTime(clock: Clock, fn: Function, args: seq<Expr>): (r: Option<Value>)
    ensures r.Some? ==> IsNumeric(r.value)
  {
    if |args| != 1 || !args[0].Const? then None
    else match args[0].c
      case TextConst(s) =>
        (match (if fn == TimestampFn then clock.parseTime(s) else clock.parseDuration(s))
         case Some(ns) => Some(Seconds(ns))
         case None => None)
      case IntConst(i) => if fn == TimestampFn then Some(Int(i)) else None
      case _ => None
  }

  /** The number a constant expression stands for: nothing wraps around, nothing is truncated. */
  function ExactNumber(clock: Clock, e: Expr): (r: Option<Value>)
    ensures r.Some? ==> IsNumeric(r.value)
  {
    match e
    case Const(IntConst(i)) => Some(Int(i))
    case Const(UintConst(u)) => Some(Int(u))
    case Const(DoubleConst(d)) => Some(Double(d))
    case Ident(name) => if name == NOW then Some(Int(clock.now)) else None
    case Call(fn, _, args) =>
      if fn in {TimestampFn, DurationFn} then ExactTime(clock, fn, args)
      else if !fn.ArithmeticFn? || |args| != 2 then None
      else
        var a, b := ExactNumber(clock, args[0]), ExactNumber(clock, args[1]);
        if a.None? || b.None? then None else ExactArithmetic(fn.arith, a.value, b.value)
    case _ => None
  }

  // ----- Boolean folding -----

  datatype FoldedBool = KnownBool(b: bool) | NotBool | BadBool

  function EvaluateBool(e: Expr): FoldedBool {
    if ConstValue(e).Some? then
      match ConstValue(e).value
      case Bool(b) => KnownBool(b)
      case _ => NotBool
    else if e.Call? && e.fn == NotFn then
      if |e.args| != 1 then BadBool
      else match EvaluateBool(e.args[0])
        case KnownBool(b) => KnownBool(!b)
        case other => other
    else NotBool
  }

  // ----- Comparing two constants -----

  function AsDouble(v: Value): real
    requires IsNumeric(v)
  {
    if v.Int? then RoundToDouble(v.n) as real else v.d
  }

  predicate RealsOrdered(op: CompareOp, a: real, b: real) {
    match op
    case Eq => a == b
    case Neq => a != b
    case Lt => a < b
    case Lte => a <= b
    case Gt => a > b
    case Gte => a >= b
  }

  predicate TextBefore(a: string, b: string) {
    b != [] && (a == [] || a[0] < b[0] || (a[0] == b[0] && TextBefore(a[1..], b[1..])))
  }

  predicate TextsOrdered(op: CompareOp, a: string, b: string) {
    match op
    case Eq => a == b
    case Neq => a != b
    case Lt => TextBefore(a, b)
    case Lte => !TextBefore(b, a)
    case Gt => TextBefore(b, a)
    case Gte => !TextBefore(a, b)
  }

  /** Both sides are widened to doubles; texts compare by code unit; booleans only for equality. */
  function CompareLiterals(l: Value, op: CompareOp, r: Value): Option<bool> {
    if IsNumeric(l) && IsNumeric(r) then Some(RealsOrdered(op, AsDouble(l), AsDouble(r)))
    else if l.Str? && r.Str? then Some(TextsOrdered(op, l.s, r.s))
    else if l.Bool? && r.Bool? && op in {Eq, Neq} then Some((l.b == r.b) == (op == Eq))
    else None
  }

  /** The comparison the two constants really have. */
  predicate LiteralsOrdered(op: CompareOp, l: Value, r: Value) {
    if IsNumeric(l) && IsNumeric(r) then RealsOrdered(op, AsReal(l), AsReal(r))
    else if l.Str? && r.Str? then TextsOrdered(op, l.s, r.s)
    else (l == r) == (op == Eq)
  }
}
