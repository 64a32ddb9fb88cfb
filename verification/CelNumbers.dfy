/** When folding and comparing constants is exact: wrap-around, truncation and widening, each with
    the exact condition under which it does no harm. */
module CelNumbers {
  import opened Outcomes
  import opened Schema
  import opened ConditionTree
  import opened Rounding
  import opened CelExpr

  // ----- Operations -----

  /** Division rounds toward zero: what is left is smaller than the divisor and has the dividend's sign. */
  lemma DivisionTruncates(a: int, b: int)
    requires b != 0
    ensures var q, m := TruncDiv(a, b), TruncMod(a, b);
      && a == q * b + m && Abs(m) < Abs(b)
      && (a >= 0 ==> m >= 0) && (a <= 0 ==> m <= 0)
  {
    var x, y := Abs(a), Abs(b);
    Decomposed(x, y);
    SignedProduct(x / y, y, b);
  }

  lemma SignedProduct(q: int, y: nat, b: int)
    requires y == Abs(b)
    ensures q * b == (if b < 0 then -(q * y) else q * y) && (-q) * b == -(q * b)
  {}

  /** Two's complement with 64 bits. */
  lemma WrapsToInt64(n: int)
    ensures -9_223_372_036_854_775_808 <= Wrap(n) <= 9_223_372_036_854_775_807
    ensures (Wrap(n) - n) % 18_446_744_073_709_551_616 == 0
  {}

  /** A time in nanoseconds stands for its seconds, fraction included. */
  lemma SecondsExact(ns: int)
    ensures IsNumeric(Seconds(ns)) && AsReal(Seconds(ns)) == ns as real / 1_000_000_000.0
  {
    if ns % SECOND == 0 {
      assert ns == ns / SECOND * SECOND;
      assert ns as real == (ns / SECOND) as real * SECOND as real;
    }
  }

  /** Texts are ordered by the first character in which they differ; a prefix comes first. */
  lemma {:induction false} TextBeforeIff(a: string, b: string)
    ensures TextBefore(a, b) <==>
      exists k :: 0 <= k < |b| && k <= |a| && a[..k] == b[..k] && (k == |a| || a[k] < b[k])
  {
    if b != [] && a != [] && a[0] == b[0] {
      TextBeforeIff(a[1..], b[1..]);
      if k :| 0 <= k < |b| && k <= |a| && a[..k] == b[..k] && (k == |a| || a[k] < b[k]) {
        assert a[1..][..k - 1] == a[..k][1..] && b[1..][..k - 1] == b[..k][1..];
      }
      if k :| 0 <= k < |b[1..]| && k <= |a[1..]| && a[1..][..k] == b[1..][..k] && (k == |a[1..]| || a[1..][k] < b[1..][k]) {
        assert a[..k + 1] == [a[0]] + a[1..][..k] && b[..k + 1] == [b[0]] + b[1..][..k];
      }
    } else if b != [] {
      assert a[..0] == b[..0];
      if k :| 0 <= k < |b| && k <= |a| && a[..k] == b[..k] && (k == |a| || a[k] < b[k]) {
        assert k > 0 ==> a[..k][0] == b[..k][0];
      }
    }
  }

  /** Of two texts one comes first, or they are equal. */
  lemma {:induction false} TextTrichotomy(a: string, b: string)
    ensures TextBefore(a, b) || a == b || TextBefore(b, a)
    ensures !(TextBefore(a, b) && TextBefore(b, a)) && !TextBefore(a, a)
  {
    if a != [] && b != [] {
      TextTrichotomy(a[1..], b[1..]);
      assert a == [a[0]] + a[1..] && b == [b[0]] + b[1..];
    }
    if a != [] {
      TextTrichotomy(a[1..], a[1..]);
    }
  }

  lemma TextsOrderedExact(op: CompareOp, a: string, b: string)
    ensures TextsOrdered(op, a, b) <==>
      if a == b then op in {Eq, Lte, Gte} else if TextBefore(a, b) then op in {Neq, Lt, Lte} else op in {Neq, Gt, Gte}
  {
    TextTrichotomy(a, b);
  }

  // ----- Wrap-around -----

  function TruncatedTime(clock: Clock, fn: Function, args: seq<Expr>): Option<int> {
    if |args| != 1 || !args[0].Const? then None
    else match args[0].c
      case TextConst(s) =>
        if fn == TimestampFn then (match clock.parseTime(s) case Some(ns) => Some(ns / SECOND) case None => None)
        else (match clock.parseDuration(s) case Some(ns) => Some(TruncDiv(ns, SECOND)) case None => None)
      case IntConst(i) => if fn == TimestampFn then Some(i) else None
      case _ => None
  }

  function IntArithmetic(op: ArithmeticOp, a: int, b: int): Option<int> {
    match op
    case Plus => Some(a + b)
    case Minus => Some(a - b)
    case Times => Some(a * b)
    case Divide => if b == 0 then None else Some(TruncDiv(a, b))
    case Modulo => if b == 0 then None else Some(TruncMod(a, b))
  }

  /** The computation on unbounded integers, every literal truncated. */
  function TruncatedNumber(clock: Clock, e: Expr): Option<int> {
    match e
    case Const(IntConst(i)) => Some(i)
    case Const(UintConst(u)) => Some(u)
    case Const(DoubleConst(d)) => Some(Truncate(d))
    case Ident(name) => if name == NOW then Some(clock.now) else None
    case Call(fn, _, args) =>
      if fn in {TimestampFn, DurationFn} then TruncatedTime(clock, fn, args)
      else if !fn.ArithmeticFn? || |args| != 2 then None
      else
        var a, b := TruncatedNumber(clock, args[0]), TruncatedNumber(clock, args[1]);
        if a.None? || b.None? then None else IntArithmetic(fn.arith, a.value, b.value)
    case _ => None
  }

  predicate IsArithmetic(e: Expr) {
    e.Call? && e.fn.ArithmeticFn? && |e.args| == 2
  }

  /** Literals are 64-bit numbers, and divisions have 64-bit operands; sums, differences and
      products may leave the range. */
  predicate Foldable(clock: Clock, e: Expr) {
    && TruncatedNumber(clock, e).Some?
    && (if IsArithmetic(e) then
          && Foldable(clock, e.args[0]) && Foldable(clock, e.args[1])
          && (e.fn.arith in {Divide, Modulo} ==>
                IsInt64(TruncatedNumber(clock, e.args[0]).value) && IsInt64(TruncatedNumber(clock, e.args[1]).value))
        else (e.Const? && e.c.UintConst?) || IsInt64(TruncatedNumber(clock, e).value))
  }

  const RANGE := 2 * TWO_63

  lemma WrapUnique(a: int, b: int, k: int)
    requires a == b + k * RANGE
    ensures Wrap(a) == Wrap(b)
  {}

  lemma Unwrapped(n: int) returns (k: int)
    ensures Wrap(n) == n + k * RANGE
  {
    k := -((n + TWO_63) / RANGE);
  }

  /** Sums, differences and products of wrapped numbers wrap to the right number. */
  lemma WrapKeepsArithmetic(op: ArithmeticOp, a: int, b: int)
    requires op in {Plus, Minus, Times}
    ensures Arithmetic(op, Wrap(a), Wrap(b)) == Known(Wrap(IntArithmetic(op, a, b).value))
  {
    var j := Unwrapped(a);
    var k := Unwrapped(b);
    match op
    case Plus => WrapUnique(Wrap(a) + Wrap(b), a + b, j + k);
    case Minus => WrapUnique(Wrap(a) - Wrap(b), a - b, j - k);
    case Times =>
      ProductUnwrapped(a, b, j, k);
      WrapUnique(Wrap(a) * Wrap(b), a * b, a * k + j * b + j * k * RANGE);
  }

  lemma ProductUnwrapped(a: int, b: int, j: int, k: int)
    ensures (a + j * RANGE) * (b + k * RANGE) == a * b + (a * k + j * b + j * k * RANGE) * RANGE
  {}

  /** Folding wraps the unbounded result once, however often it wrapped on the way. */
  lemma {:induction false} FoldingWraps(clock: Clock, e: Expr)
    requires Foldable(clock, e)
    ensures EvaluateNumeric(clock, e) == Known(Wrap(TruncatedNumber(clock, e).value))
    decreases e
  {
    if IsArithmetic(e) {
      FoldingWraps(clock, e.args[0]);
      FoldingWraps(clock, e.args[1]);
      if e.fn.arith !in {Divide, Modulo} {
        var a, b := TruncatedNumber(clock, e.args[0]).value, TruncatedNumber(clock, e.args[1]).value;
        WrapKeepsArithmetic(e.fn.arith, a, b);
      }
    }
  }

  // ----- Truncation -----

  /** What an operation makes of the truncated parts of its operands: x is a and dx, y is b and dy.
      A quotient of doubles loses what is left of the dividend, the remainder with its own fraction,
      once the quotient's share of the divisor's fraction is taken off. */
  ghost function DriftStep(op: ArithmeticOp, x: Value, a: int, dx: real, y: Value, b: int, dy: real): real
    requires IsNumeric(x) && IsNumeric(y) && ExactArithmetic(op, x, y).Some? && IntArithmetic(op, a, b).Some?
  {
    match op
    case Plus => dx + dy
    case Minus => dx - dy
    case Times => dx * AsReal(y) + a as real * dy
    case Divide =>
      if x.Int? then 0.0 else (TruncMod(a, b) as real + dx - TruncDiv(a, b) as real * dy) / AsReal(y)
    case Modulo => 0.0
  }

  /** What truncating the literals of an expression takes away from its value. */
  ghost function Drift(clock: Clock, e: Expr): real
    requires TruncatedNumber(clock, e).Some? && ExactNumber(clock, e).Some?
  {
    if IsArithmetic(e) then
      DriftStep(e.fn.arith,
                ExactNumber(clock, e.args[0]).value, TruncatedNumber(clock, e.args[0]).value, Drift(clock, e.args[0]),
                ExactNumber(clock, e.args[1]).value, TruncatedNumber(clock, e.args[1]).value, Drift(clock, e.args[1]))
    else if e.Const? && e.c.DoubleConst? then e.c.d - Truncate(e.c.d) as real
    else if e.Call? && e.args[0].c.TextConst? then
      if e.fn == TimestampFn then (clock.parseTime(e.args[0].c.s).value % SECOND) as real / SECOND as real
      else TruncMod(clock.parseDuration(e.args[0].c.s).value, SECOND) as real / SECOND as real
    else 0.0
  }

  /** The exact value x of an operand is its truncated value a and its drift dx. */
  ghost predicate Drifts(x: Value, a: int, dx: real)
    requires IsNumeric(x)
  {
    AsReal(x) == a as real + dx && (x.Int? ==> dx == 0.0)
  }

  lemma StepDrifts(op: ArithmeticOp, x: Value, a: int, dx: real, y: Value, b: int, dy: real)
    requires IsNumeric(x) && IsNumeric(y) && Drifts(x, a, dx) && Drifts(y, b, dy)
    requires ExactArithmetic(op, x, y).Some? && IntArithmetic(op, a, b).Some?
    ensures Drifts(ExactArithmetic(op, x, y).value, IntArithmetic(op, a, b).value, DriftStep(op, x, a, dx, y, b, dy))
  {
    hide TruncDiv, TruncMod;
    match op
    case Plus =>
    case Minus =>
    case Times => TimesDrifts(x, a, dx, y, b, dy);
    case Divide => DivideDrifts(x, a, dx, y, b, dy);
    case Modulo =>
  }

  lemma TimesDrifts(x: Value, a: int, dx: real, y: Value, b: int, dy: real)
    requires IsNumeric(x) && IsNumeric(y) && Drifts(x, a, dx) && Drifts(y, b, dy)
    ensures Drifts(ExactArithmetic(Times, x, y).value, a * b, DriftStep(Times, x, a, dx, y, b, dy))
  {
    if x.Int? && y.Int? {
      assert x.n == a && y.n == b;
      NoDrift(AsReal(y), a);
    } else {
      ProductDrift(a, b, dx, dy);
    }
  }

  lemma NoDrift(y: real, a: int)
    ensures 0.0 * y + a as real * 0.0 == 0.0
  {}

  lemma DivideDrifts(x: Value, a: int, dx: real, y: Value, b: int, dy: real)
    requires IsNumeric(x) && IsNumeric(y) && Drifts(x, a, dx) && Drifts(y, b, dy)
    requires ExactArithmetic(Divide, x, y).Some? && b != 0
    ensures Drifts(ExactArithmetic(Divide, x, y).value, TruncDiv(a, b), DriftStep(Divide, x, a, dx, y, b, dy))
  {
    hide TruncDiv;
    if x.Int? {
      assert x.n == a && y.n == b;
    } else {
      QuotientDrift(a, b, TruncDiv(a, b), dx, dy, y.d);
      assert TruncMod(a, b) == a - TruncDiv(a, b) * b;
      assert ExactArithmetic(Divide, x, y) == Some(Double(x.d / y.d));
    }
  }

  lemma QuotientDrift(a: int, b: int, q: int, dx: real, dy: real, y: real)
    requires y == b as real + dy && y != 0.0
    ensures (a as real + dx) / y == q as real + ((a - q * b) as real + dx - q as real * dy) / y
  {
    assert (q * b) as real == q as real * b as real;
    assert (a - q * b) as real + dx - q as real * dy == (a as real + dx) - q as real * y;
    QuotientShift(a as real + dx, q as real, y);
  }

  lemma QuotientShift(x: real, q: real, y: real)
    requires y != 0.0
    ensures (x - q * y) / y == x / y - q
  {
    var z := x / y;
    assert z * y == x;
    assert (z - q) * y == x - q * y;
  }

  lemma ProductDrift(a: int, b: int, dx: real, dy: real)
    ensures (a as real + dx) * (b as real + dy) == (a * b) as real + (dx * (b as real + dy) + a as real * dy)
  {}

  lemma {:induction false} DriftExact(clock: Clock, e: Expr)
    requires TruncatedNumber(clock, e).Some? && ExactNumber(clock, e).Some?
    ensures Drifts(ExactNumber(clock, e).value, TruncatedNumber(clock, e).value, Drift(clock, e))
    decreases e
  {
    hide DriftStep, Drifts, ExactArithmetic, IntArithmetic;
    if IsArithmetic(e) {
      DriftExact(clock, e.args[0]);
      DriftExact(clock, e.args[1]);
      StepDrifts(e.fn.arith,
                 ExactNumber(clock, e.args[0]).value, TruncatedNumber(clock, e.args[0]).value, Drift(clock, e.args[0]),
                 ExactNumber(clock, e.args[1]).value, TruncatedNumber(clock, e.args[1]).value, Drift(clock, e.args[1]));
    } else if e.Call? && e.args[0].c.TextConst? {
      TimeDrift(clock, e);
    } else {
      LeafDrift(clock, e);
    }
  }

  lemma LeafDrift(clock: Clock, e: Expr)
    requires !IsArithmetic(e) && !(e.Call? && e.args != [] && e.args[0].Const? && e.args[0].c.TextConst?)
    requires TruncatedNumber(clock, e).Some? && ExactNumber(clock, e).Some?
    ensures Drifts(ExactNumber(clock, e).value, TruncatedNumber(clock, e).value, Drift(clock, e))
  {}

  lemma TimeDrift(clock: Clock, e: Expr)
    requires e.Call? && e.fn in {TimestampFn, DurationFn} && |e.args| == 1 && e.args[0].Const? && e.args[0].c.TextConst?
    requires TruncatedNumber(clock, e).Some? && ExactNumber(clock, e).Some?
    ensures Drifts(ExactNumber(clock, e).value, TruncatedNumber(clock, e).value, Drift(clock, e))
  {
    var s := e.args[0].c.s;
    var ns := (if e.fn == TimestampFn then clock.parseTime(s) else clock.parseDuration(s)).value;
    WholeSeconds(ns);
    SplitSeconds(ns, ns / SECOND, ns % SECOND);
    SplitSeconds(ns, TruncDiv(ns, SECOND), TruncMod(ns, SECOND));
  }

  lemma SplitSeconds(ns: int, q: int, rem: int)
    requires ns == q * SECOND + rem
    ensures ns as real / SECOND as real == q as real + rem as real / SECOND as real
  {}

  lemma WholeSeconds(ns: int)
    ensures ns % SECOND == 0 ==> TruncDiv(ns, SECOND) == ns / SECOND && TruncMod(ns, SECOND) == 0
  {
    var q := ns / SECOND;
    if ns % SECOND == 0 {
      assert ns == q * SECOND;
      if ns < 0 {
        assert Abs(ns) == -q * SECOND;
        assert Abs(ns) / SECOND == -q;
      }
    }
  }

  /** Folding computes the exact number if and only if the truncated fractions cancel. */
  lemma FoldingExactIff(clock: Clock, e: Expr)
    requires Foldable(clock, e) && IsInt64(TruncatedNumber(clock, e).value) && ExactNumber(clock, e).Some?
    ensures EvaluateNumeric(clock, e).Known?
    ensures EvaluateNumeric(clock, e).n as real == AsReal(ExactNumber(clock, e).value) <==> Drift(clock, e) == 0.0
  {
    FoldingWraps(clock, e);
    DriftExact(clock, e);
  }

  /** Every literal is a whole number, and only integers are divided. */
  predicate WholeLiterals(clock: Clock, e: Expr) {
    match e
    case Const(DoubleConst(d)) => d == d.Floor as real
    case Call(fn, _, args) =>
      if IsArithmetic(e) then
        && WholeLiterals(clock, args[0]) && WholeLiterals(clock, args[1])
        && (fn.arith == Divide ==> ExactNumber(clock, e).Some? && ExactNumber(clock, e).value.Int?)
      else ExactNumber(clock, e).Some? && ExactNumber(clock, e).value.Int?
    case _ => true
  }

  lemma StepDriftless(op: ArithmeticOp, x: Value, a: int, y: Value, b: int)
    requires IsNumeric(x) && IsNumeric(y) && ExactArithmetic(op, x, y).Some? && IntArithmetic(op, a, b).Some?
    requires op == Divide ==> ExactArithmetic(op, x, y).value.Int?
    ensures DriftStep(op, x, a, 0.0, y, b, 0.0) == 0.0
  {}

  lemma {:induction false} WholeLiteralsFoldExactly(clock: Clock, e: Expr)
    requires TruncatedNumber(clock, e).Some? && ExactNumber(clock, e).Some? && WholeLiterals(clock, e)
    ensures Drift(clock, e) == 0.0
    decreases e
  {
    hide ExactArithmetic, IntArithmetic, DriftStep;
    if IsArithmetic(e) {
      WholeLiteralsFoldExactly(clock, e.args[0]);
      WholeLiteralsFoldExactly(clock, e.args[1]);
      var x, y := ExactNumber(clock, e.args[0]).value, ExactNumber(clock, e.args[1]).value;
      var a, b := TruncatedNumber(clock, e.args[0]).value, TruncatedNumber(clock, e.args[1]).value;
      StepDriftless(e.fn.arith, x, a, y, b);
    } else {
      WholeLeaf(clock, e);
    }
  }

  lemma WholeLeaf(clock: Clock, e: Expr)
    requires TruncatedNumber(clock, e).Some? && ExactNumber(clock, e).Some? && WholeLiterals(clock, e) && !IsArithmetic(e)
    ensures Drift(clock, e) == 0.0
  {
    hide ExactTime, TruncatedTime, ExactArithmetic, IntArithmetic, DriftStep;
    if e.Call? {
      WholeCall(clock, e);
    } else if e.Const? && e.c.DoubleConst? {
      WholeTruncates(e.c.d);
    }
  }

  lemma WholeTruncates(d: real)
    requires d == d.Floor as real
    ensures Truncate(d) as real == d
  {
    assert -d == (-d.Floor) as real;
  }

  lemma WholeCall(clock: Clock, e: Expr)
    requires TruncatedNumber(clock, e).Some? && ExactNumber(clock, e).Some? && ExactNumber(clock, e).value.Int?
    ensures Drift(clock, e) == 0.0
  {
    hide ExactNumber, TruncatedNumber, Drift;
    DriftExact(clock, e);
  }

  // ----- A rounded constant against an integer column -----

  /** Comparing integers with n instead of r. */
  predicate RoundingHarmless(op: CompareOp, n: int, r: real) {
    || n as real == r
    || (n as real <= r < (n + 1) as real && op in {Gt, Lte})
    || ((n - 1) as real < r <= n as real && op in {Lt, Gte})
  }

  /** Every column value compares with n as with r if and only if the rounding is harmless for the operator. */
  lemma RoundingIff(op: CompareOp, n: int, r: real)
    ensures (forall x: int :: Ordered(op, x, n) <==> RealsOrdered(op, x as real, r)) <==> RoundingHarmless(op, n, r)
  {
    if forall x: int :: Ordered(op, x, n) <==> RealsOrdered(op, x as real, r) {
      assert Ordered(op, n, n) <==> RealsOrdered(op, n as real, r);
      assert Ordered(op, n + 1, n) <==> RealsOrdered(op, (n + 1) as real, r);
      assert Ordered(op, n - 1, n) <==> RealsOrdered(op, (n - 1) as real, r);
    }
  }

  lemma TruncationHarmless(op: CompareOp, d: real)
    ensures RoundingHarmless(op, Truncate(d), d)
      <==> d == d.Floor as real || (d > 0.0 && op in {Gt, Lte}) || (d < 0.0 && op in {Lt, Gte})
  {
    var n := Truncate(d);
    if d == d.Floor as real {
      WholeTruncates(d);
    } else if d > 0.0 {
      assert n as real < d < (n + 1) as real;
    } else {
      assert (n - 1) as real < d < n as real;
    }
  }

  /** A double literal is truncated against a column: harmless for every column value if and only if the
      literal is whole, or the operator looks the other way. */
  lemma TruncationIff(op: CompareOp, d: real)
    ensures (forall x: int :: Ordered(op, x, Truncate(d)) <==> RealsOrdered(op, x as real, d))
      <==> d == d.Floor as real || (d > 0.0 && op in {Gt, Lte}) || (d < 0.0 && op in {Lt, Gte})
  {
    hide Truncate, RoundingHarmless, Ordered, RealsOrdered;
    RoundingIff(op, Truncate(d), d);
    TruncationHarmless(op, d);
  }

  // ----- Two constants, widened to doubles -----

  ghost predicate IsLiteral(v: Value) {
    v.Double? ==> IsFloat64(v.d)
  }

  /** If widening makes two numbers equal, they are equal, or the operator does not tell. */
  predicate WideningHarmless(op: CompareOp, l: Value, r: Value) {
    IsNumeric(l) && IsNumeric(r) && AsDouble(l) == AsDouble(r) ==>
      || AsReal(l) == AsReal(r)
      || (AsReal(l) < AsReal(r) && op in {Lte, Gt})
      || (AsReal(l) > AsReal(r) && op in {Gte, Lt})
  }

  lemma WideningKeepsOrder(l: Value, r: Value)
    requires IsNumeric(l) && IsNumeric(r) && IsLiteral(l) && IsLiteral(r)
    ensures AsReal(l) <= AsReal(r) ==> AsDouble(l) <= AsDouble(r)
  {
    if l.Int? && r.Int? {
      if l.n <= r.n {
        RoundMonotone(l.n, r.n);
      }
    } else if l.Int? {
      WideningKeepsSide(l.n, r.d);
    } else if r.Int? {
      WideningKeepsSide(r.n, l.d);
    }
  }

  /** Comparing two literals gives the true comparison if and only if widening does no harm. */
  lemma LiteralComparisonIff(l: Value, op: CompareOp, r: Value)
    requires CompareLiterals(l, op, r).Some? && IsLiteral(l) && IsLiteral(r)
    ensures CompareLiterals(l, op, r) == Some(LiteralsOrdered(op, l, r)) <==> WideningHarmless(op, l, r)
  {
    if IsNumeric(l) && IsNumeric(r) {
      WideningKeepsOrder(l, r);
      WideningKeepsOrder(r, l);
    }
  }

  /** Up to 2^53 widening changes nothing. */
  lemma SmallLiteralsHarmless(op: CompareOp, l: Value, r: Value)
    requires l.Int? ==> -TWO_53 <= l.n <= TWO_53
    requires r.Int? ==> -TWO_53 <= r.n <= TWO_53
    ensures WideningHarmless(op, l, r)
  {
    if l.Int? {
      SmallIntegersAreDoubles(l.n);
    }
    if r.Int? {
      SmallIntegersAreDoubles(r.n);
    }
  }

  /** The successor of 2^53 compares as equal to it. */
  lemma LargeLiteralsCollapse()
    ensures CompareLiterals(Int(TWO_53 + 1), Eq, Int(TWO_53)) == Some(true)
    ensures !WideningHarmless(Eq, Int(TWO_53 + 1), Int(TWO_53))
  {
    assert UnitFor(TWO_53 + 1, 1) == UnitFor(TWO_53 + 1, 2) == 2;
    assert RoundToDouble(TWO_53 + 1) == TWO_53;
  }
}
