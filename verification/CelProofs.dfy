/** Building the condition tree preserves the meaning of the expression. */
module CelProofs {
  import opened Kleene
  import opened Outcomes
  import opened Schema
  import opened ConditionTree
  import opened CelExpr
  import opened CelNumbers
  import opened Rounding
  import opened CelParser
  import opened CelMeaning
  import opened RenderMeaning
  import Compile
  import SqlText
  import Like

  // ----- Comparisons -----

  /** The built operand, if it is no literal, stands for the side of the comparison. */
  ghost predicate StandsFor(fs: Fields, row: Row, ve: ValueExpr, s: Side) {
    match ve
    case Literal(_) => true
    case FieldRef(f) => f in fs && s == Varying(FieldValue(fs, row, f))
    case FieldAccessor(f, accessor) => s == Varying(row.part(f, accessor))
    case FunctionCall(fn, args) =>
      && |args| == 1
      && (args[0].FieldRef? && ResolveAlias(fs, args[0].name).Some? ==>
            s == Varying(SizeValue(fs, row, ResolveAlias(fs, args[0].name).value)))
  }

  lemma BuiltOperandStands(fs: Fields, clock: Clock, row: Row, e: Expr)
    requires BuildValue(fs, clock, e).Some? && !BuildValue(fs, clock, e).value.Literal? && OperandFolds(clock, e)
    ensures var ve := BuildValue(fs, clock, e).value;
      (ve.FunctionCall? && !(ve.args[0].FieldRef? && ResolveAlias(fs, ve.args[0].name).Some?))
      || (SideOf(fs, clock, row, e).Some? && StandsFor(fs, row, ve, SideOf(fs, clock, row, e).value))
  {
    if e.Call? && (ExactNumber(clock, e).Some? || EvaluateNumeric(clock, e).Known?) {
      FoldingWraps(clock, e);
    }
  }

  /** The literal v was built for the constant w: the same number but for the drift, or the same value. */
  ghost predicate BuiltFor(v: Value, w: Value, drift: real) {
    && IsLiteral(v)
    && if IsNumeric(v) then IsNumeric(w) && AsReal(w) == AsReal(v) + drift else v == w
  }

  /** Negated constants fold to their truth value, and nothing else folds to one. */
  lemma {:induction false} BoolFolds(e: Expr)
    ensures EvaluateBool(e).KnownBool? <==> ConstantTruth(e).Some?
    ensures EvaluateBool(e).KnownBool? ==> ConstantTruth(e) == Some(EvaluateBool(e).b)
    decreases e
  {
    if e.Call? && e.fn == NotFn && |e.args| == 1 {
      BoolFolds(e.args[0]);
    }
  }

  lemma BuiltLiteral(fs: Fields, clock: Clock, row: Row, e: Expr)
    requires BuildValue(fs, clock, e).Some? && BuildValue(fs, clock, e).value.Literal? && OperandFolds(clock, e)
    ensures SideOf(fs, clock, row, e).Some? && SideOf(fs, clock, row, e).value.Fixed?
    ensures BuiltFor(BuildValue(fs, clock, e).value.v, SideOf(fs, clock, row, e).value.v, OperandDrift(clock, e))
  {
    if e.Call? && (ExactNumber(clock, e).Some? || EvaluateNumeric(clock, e).Known?) {
      FoldingWraps(clock, e);
      DriftExact(clock, e);
    } else if e.Call? {
      BoolFolds(e);
    } else if e.Const? && e.c.DoubleConst? {
      assert IsFloat64(e.c.d);
    }
  }

  /** Ordering is mirrored when the operands are swapped. */
  ghost predicate OrdersMirror(db: Database) {
    forall op: CompareOp, s: string, t: string :: db.orders(op, s, t) == db.orders(Mirror(op), t, s)
  }

  lemma MirrorKeepsComparison(db: Database, op: CompareOp, a: Value, b: Value)
    requires OrdersMirror(db)
    ensures Compare(db, op, a, b) == Compare(db, Mirror(op), b, a)
  {}

  /** A literal that fits the column compares, converted to an integer, as the constant it was built for. */
  lemma FittingLiteral(db: Database, clock: Clock, op: CompareOp, x: Value, v: Value, e: Expr, w: Value)
    requires FitsColumn(clock, op, v, e) && BuiltFor(v, w, OperandDrift(clock, e))
    ensures IsNumeric(v) ==> Compare(db, op, x, Coerced(IntType, v)) == ValuesCompared(db, op, x, w)
    ensures !IsNumeric(v) ==> Compare(db, op, x, v) == ValuesCompared(db, op, x, w)
  {
    if IsNumeric(v) {
      RoundingIff(op, ToInt(v).value, AsReal(w));
      if IsNumber(x) {
        assert Ordered(op, NumberOf(x), ToInt(v).value) <==> RealsOrdered(op, NumberOf(x) as real, AsReal(w));
      }
    }
  }

  /** A comparison that renders has, operands in tree order, the meaning of its sides. */
  lemma TreeComparison(d: Dialect, fs: Fields, clock: Clock, n: nat, db: Database, row: Row,
                       lhs: ValueExpr, op: CompareOp, v: Value, a: Side, e: Expr, w: Value)
    requires Compile.ComparisonTree(d, fs, n, lhs, op, Literal(v)).Done?
    requires !lhs.Literal? && StandsFor(fs, row, lhs, a)
    requires FitsColumn(clock, op, v, e) && BuiltFor(v, w, OperandDrift(clock, e))
    ensures a.Varying?
    ensures ComparisonMeaning(db, fs, row, lhs, op, Literal(v)) == SidesCompared(db, op, a, Fixed(w))
    ensures w == Null ==> op in {Eq, Neq}
  {
    hide FitsColumn, Compile.ComparisonTree, ComparisonMeaning, SidesCompared;
    FittingLiteral(db, clock, op, a.v, v, e, w);
    if lhs.FieldRef? {
      FieldAgainstConstant(d, fs, n, db, row, lhs.name, op, v, w, OperandDrift(clock, e));
    } else {
      NumberAgainstConstant(d, fs, n, db, row, lhs, op, v, a, w, OperandDrift(clock, e));
    }
  }

  /** Sizes and parts of dates are compared with numbers only. */
  lemma NumberAgainstConstant(d: Dialect, fs: Fields, n: nat, db: Database, row: Row, lhs: ValueExpr, op: CompareOp,
                              v: Value, a: Side, w: Value, drift: real)
    requires !lhs.FieldRef? && !lhs.Literal? && Compile.ComparisonTree(d, fs, n, lhs, op, Literal(v)).Done?
    requires StandsFor(fs, row, lhs, a) && BuiltFor(v, w, drift)
    requires IsNumeric(v) ==> Compare(db, op, a.v, Coerced(IntType, v)) == ValuesCompared(db, op, a.v, w)
    ensures a.Varying? && w != Null
    ensures ComparisonMeaning(db, fs, row, lhs, op, Literal(v)) == SidesCompared(db, op, a, Fixed(w))
  {}

  lemma FieldAgainstConstant(d: Dialect, fs: Fields, n: nat, db: Database, row: Row, f: string, op: CompareOp,
                             v: Value, w: Value, drift: real)
    requires f in fs && Compile.ComparisonTree(d, fs, n, FieldRef(f), op, Literal(v)).Done?
    requires BuiltFor(v, w, drift)
    requires var x := FieldValue(fs, row, f);
      && (IsNumeric(v) ==> Compare(db, op, x, Coerced(IntType, v)) == ValuesCompared(db, op, x, w))
      && (!IsNumeric(v) ==> Compare(db, op, x, v) == ValuesCompared(db, op, x, w))
    ensures ComparisonMeaning(db, fs, row, FieldRef(f), op, Literal(v)) ==
            SidesCompared(db, op, Varying(FieldValue(fs, row, f)), Fixed(w))
    ensures w == Null ==> op in {Eq, Neq}
  {}

  /** Mirroring keeps the comparison of a constant on the left. */
  lemma SwappedSides(db: Database, op: CompareOp, a: Side, b: Side)
    requires a.Fixed? && b.Varying? && OrdersMirror(db)
    requires a.v == Null ==> op in {Eq, Neq}
    ensures SidesCompared(db, Mirror(op), b, a) == SidesCompared(db, op, a, b)
  {}

  /** Two constants fold to the outcome of their comparison. */
  lemma ConstantsCompared(op: CompareOp, l: Value, r: Value, a: Value, b: Value)
    requires CompareLiterals(l, op, r).Some? && WideningHarmless(op, l, r)
    requires BuiltFor(l, a, 0.0) && BuiltFor(r, b, 0.0)
    ensures CompareLiterals(l, op, r) == Some(LiteralsOrdered(op, a, b))
  {
    LiteralComparisonIff(l, op, r);
  }

  lemma ComparisonBuilt(d: Dialect, fs: Fields, clock: Clock, n: nat, db: Database, row: Row, op: CompareOp, args: seq<Expr>)
    requires BuildComparison(fs, clock, op, args).Some? && ComparisonIsExact(fs, clock, op, args) && OrdersMirror(db)
    requires Compile.Tree(d, fs, n, BuildComparison(fs, clock, op, args).value).Done?
    ensures Meaning(db, fs, row, BuildComparison(fs, clock, op, args).value) ==
            ComparedMeaning(db, fs, clock, row, op, args)
  {
    hide BuildValue, SideOf, OperandFolds, OperandDrift, FitsColumn, BuiltFor, StandsFor, WideningHarmless,
      CompareLiterals, Compile.ComparisonTree, ComparisonMeaning, SidesCompared;
    var l, r := BuildValue(fs, clock, args[0]).value, BuildValue(fs, clock, args[1]).value;
    if l.Literal? && r.Literal? {
      BuiltLiteral(fs, clock, row, args[0]);
      BuiltLiteral(fs, clock, row, args[1]);
      ConstantsBuilt(db, op, l.v, r.v, SideOf(fs, clock, row, args[0]).value, SideOf(fs, clock, row, args[1]).value);
    } else {
      RenderedOperands(d, fs, n, l, op, r);
      if l.Literal? {
        BuiltLiteral(fs, clock, row, args[0]);
        BuiltOperandStands(fs, clock, row, args[1]);
        var a, b := SideOf(fs, clock, row, args[0]).value, SideOf(fs, clock, row, args[1]).value;
        TreeComparison(d, fs, clock, n, db, row, r, Mirror(op), l.v, b, args[0], a.v);
        SwappedSides(db, op, a, b);
      } else {
        BuiltOperandStands(fs, clock, row, args[0]);
        BuiltLiteral(fs, clock, row, args[1]);
        var a, b := SideOf(fs, clock, row, args[0]).value, SideOf(fs, clock, row, args[1]).value;
        TreeComparison(d, fs, clock, n, db, row, l, op, r.v, a, args[1], b.v);
      }
    }
  }

  lemma ConstantsBuilt(db: Database, op: CompareOp, l: Value, r: Value, a: Side, b: Side)
    requires CompareLiterals(l, op, r).Some? && WideningHarmless(op, l, r)
    requires a.Fixed? && b.Fixed? && BuiltFor(l, a.v, 0.0) && BuiltFor(r, b.v, 0.0)
    ensures OfBool(CompareLiterals(l, op, r).value) == SidesCompared(db, op, a, b)
  {
    ConstantsCompared(op, l, r, a.v, b.v);
  }

  /** A filter that folding decides wrongly: `1.5 + 1.5 == 3.0` becomes FALSE. */
  lemma TruncatedSumFails(fs: Fields, clock: Clock, db: Database, row: Row)
    ensures var half := Const(DoubleConst(1.5));
      var sum := Call(ArithmeticFn(Plus), None, [half, half]);
      var e := Call(CompareFn(Eq), None, [sum, Const(DoubleConst(3.0))]);
      && Build(fs, clock, e) == Some(Constant(false))
      && CelTruth(db, fs, clock, row, e) == True
      && OperandDrift(clock, sum) == 1.0
  {
    var half := Const(DoubleConst(1.5));
    var sum := Call(ArithmeticFn(Plus), None, [half, half]);
    assert (1.5).Floor == 1;
    assert EvaluateNumeric(clock, half) == Known(1) && TruncatedNumber(clock, half) == Some(1);
    assert ExactNumber(clock, half) == Some(Double(1.5)) && Drift(clock, half) == 0.5;
    assert EvaluateNumeric(clock, sum) == Known(2) && TruncatedNumber(clock, sum) == Some(2);
    assert ExactNumber(clock, sum) == Some(Double(3.0));
    RoundTwo();
  }

  lemma RoundTwo()
    ensures RoundToDouble(2) == 2
  {
    SmallIntegersAreDoubles(2);
  }

  /** A filter that rendering decides wrongly: `column == 1.5` selects rows whose column is 1. */
  lemma TruncatedLiteralFails(d: Dialect, fs: Fields, clock: Clock, n: nat, db: Database, row: Row, f: string)
    requires f != NOW && f in fs && fs[f].kind == Scalar && fs[f].typ == IntType
    requires fs[f].allowedOps.Some? ==> Eq in fs[f].allowedOps.value
    requires row.scalar(f) == Int(1)
    ensures var e := Call(CompareFn(Eq), None, [Ident(f), Const(DoubleConst(1.5))]);
      && Build(fs, clock, e).Some?
      && Compile.Tree(d, fs, n, Build(fs, clock, e).value) == Compile.Atom(SqlText.ColumnCompare(f, Eq), n, [Int(1)])
      && Meaning(db, fs, row, Build(fs, clock, e).value) == True
      && CelTruth(db, fs, clock, row, e) == False
  {
    var lit := Const(DoubleConst(1.5));
    assert (1.5).Floor == 1;
    assert BuildValue(fs, clock, lit) == Some(Literal(Double(1.5)));
    assert Truncate(1.5) == 1;
    assert SideOf(fs, clock, row, lit) == Some(Fixed(Double(1.5)));
    assert SideOf(fs, clock, row, Ident(f)) == Some(Varying(Int(1)));
  }

  /** A comparison that renders has a literal on one side, and a size only of a known field. */
  lemma RenderedOperands(d: Dialect, fs: Fields, n: nat, l: ValueExpr, op: CompareOp, r: ValueExpr)
    requires !(l.Literal? && r.Literal?) && CompareOperands(fs, l, op, r).Some?
    requires Compile.Tree(d, fs, n, CompareOperands(fs, l, op, r).value).Done?
    ensures l.Literal? || r.Literal?
    ensures l.FunctionCall? ==> |l.args| == 1 && l.args[0].FieldRef? && ResolveAlias(fs, l.args[0].name).Some?
    ensures r.FunctionCall? ==> |r.args| == 1 && r.args[0].FieldRef? && ResolveAlias(fs, r.args[0].name).Some?
  {}

  // ----- Membership -----

  lemma {:induction false} BuiltValuesAt(fs: Fields, clock: Clock, es: seq<Expr>)
    requires BuildValues(fs, clock, es).Some?
    ensures forall i :: 0 <= i < |es| ==> BuildValue(fs, clock, es[i]) == Some(BuildValues(fs, clock, es).value[i])
  {
    if es != [] {
      BuiltValuesAt(fs, clock, es[1..]);
    }
  }

  lemma BuiltTextIsConstant(fs: Fields, clock: Clock, e: Expr)
    requires BuildValue(fs, clock, e).Some?
    ensures var v := LiteralValue(BuildValue(fs, clock, e).value);
            (v.Str? <==> IsText(e)) && (v.Str? ==> v.s == e.c.s)
  {}

  lemma TagsListedBuilt(fs: Fields, clock: Clock, tags: seq<string>, es: seq<Expr>)
    requires BuildValues(fs, clock, es).Some?
    ensures AnyListed(tags, BuildValues(fs, clock, es).value) <==> AnyTextListed(tags, es)
  {
    var vs := BuildValues(fs, clock, es).value;
    BuiltValuesAt(fs, clock, es);
    forall i | 0 <= i < |es|
      ensures LiteralValue(vs[i]).Str? <==> IsText(es[i])
      ensures IsText(es[i]) ==> LiteralValue(vs[i]).s == es[i].c.s
    {
      BuiltTextIsConstant(fs, clock, es[i]);
    }
  }

  lemma {:induction false} ValuesListedBuilt(fs: Fields, clock: Clock, db: Database, row: Row, typ: FieldType, a: Value, es: seq<Expr>)
    requires BuildValues(fs, clock, es).Some? && ListIsExact(fs, clock, es)
    requires Compile.ListedValues(typ, BuildValues(fs, clock, es).value).Some?
    ensures AnyEqual(db, typ, a, BuildValues(fs, clock, es).value) == AnyEqualSide(db, fs, clock, row, a, es)
  {
    hide BuildValue, SideOf, OperandFolds, FitsColumn, BuiltFor, OperandDrift, Compare, ValuesCompared, Coerced;
    if es != [] {
      assert ListedExactly(fs, clock, es[0]);
      assert forall i :: 0 <= i < |es[1..]| ==> es[1..][i] == es[i + 1];
      ValuesListedBuilt(fs, clock, db, row, typ, a, es[1..]);
      var ve := BuildValue(fs, clock, es[0]).value;
      ListedLiteral(typ, ve);
      BuiltLiteral(fs, clock, row, es[0]);
      ListedFits(db, clock, typ, a, ve.v, es[0], SideOf(fs, clock, row, es[0]).value.v);
    }
  }

  lemma ListedLiteral(typ: FieldType, ve: ValueExpr)
    requires Compile.ListedValue(typ, ve).Some?
    ensures ve.Literal? && (typ == IntType <==> IsNumeric(ve.v)) && (typ != IntType ==> typ == StringType && ve.v.Str?)
  {}

  lemma ListedFits(db: Database, clock: Clock, typ: FieldType, a: Value, v: Value, e: Expr, w: Value)
    requires (typ == IntType && IsNumeric(v)) || (typ == StringType && v.Str?)
    requires FitsColumn(clock, Eq, v, e) && BuiltFor(v, w, OperandDrift(clock, e))
    ensures Compare(db, Eq, a, Coerced(typ, v)) == ValuesCompared(db, Eq, a, w)
  {
    FittingLiteral(db, clock, Eq, a, v, e, w);
  }

  lemma InBuilt(d: Dialect, fs: Fields, clock: Clock, n: nat, db: Database, row: Row, args: seq<Expr>)
    requires BuildIn(fs, clock, args).Some? && (args[1].ListExpr? ==> ListIsExact(fs, clock, args[1].elems))
    requires Compile.Tree(d, fs, n, BuildIn(fs, clock, args).value).Done?
    ensures Meaning(db, fs, row, BuildIn(fs, clock, args).value) == InMeaning(db, fs, clock, row, args)
  {
    if args[0].Ident? && args[1].ListExpr? {
      var name, es := args[0].name, args[1].elems;
      if name == TAG {
        TagsListedBuilt(fs, clock, TagsOf(row, ResolveAlias(fs, TAG).value), es);
      } else {
        ValuesListedBuilt(fs, clock, db, row, fs[name].typ, row.scalar(name), es);
      }
    } else {
      BuiltTextIsConstant(fs, clock, args[0]);
    }
  }

  // ----- Set operations -----

  lemma ElementsAppend(ss: seq<string>)
    requires ss != []
    ensures ElementsOf(ss) == ElementsOf(ss[..|ss| - 1]) + {ss[|ss| - 1]}
  {
    assert ss == ss[..|ss| - 1] + [ss[|ss| - 1]];
  }

  /** Asking for one more text adds one more operand. */
  lemma CombinedMemberships(db: Database, fs: Fields, row: Row, op: LogicalOp, list: string, vs: seq<string>)
    requires vs != []
    ensures var k := |vs| - 1;
      var last := OfBool(vs[k] in TagsOf(row, list));
      Meaning(db, fs, row, Combined(op, Memberships(list, vs))) ==
      if k == 0 then last
      else
        var init := Meaning(db, fs, row, Combined(op, Memberships(list, vs[..k])));
        if op == LogicalAnd then And(init, last) else Or(init, last)
  {
    hide TagsOf;
    var k := |vs| - 1;
    assert Memberships(list, vs)[..k] == Memberships(list, vs[..k]);
    assert Meaning(db, fs, row, Membership(list, vs[k])) == OfBool(vs[k] in TagsOf(row, list));
  }

  lemma {:induction false} AllMembers(db: Database, fs: Fields, row: Row, list: string, vs: seq<string>)
    requires vs != []
    ensures Meaning(db, fs, row, Combined(LogicalAnd, Memberships(list, vs))) ==
            OfBool(ElementsOf(vs) <= ElementsOf(TagsOf(row, list)))
    decreases |vs|
  {
    hide Meaning, Combined, TagsOf;
    var k := |vs| - 1;
    ElementsAppend(vs);
    CombinedMemberships(db, fs, row, LogicalAnd, list, vs);
    if k > 0 {
      AllMembers(db, fs, row, list, vs[..k]);
    } else {
      assert ElementsOf(vs[..k]) == {};
    }
  }

  lemma {:induction false} SomeMember(db: Database, fs: Fields, row: Row, list: string, vs: seq<string>)
    requires vs != []
    ensures Meaning(db, fs, row, Combined(LogicalOr, Memberships(list, vs))) ==
            OfBool(ElementsOf(vs) * ElementsOf(TagsOf(row, list)) != {})
    decreases |vs|
  {
    hide Meaning, Combined, TagsOf;
    var k := |vs| - 1;
    var tags := ElementsOf(TagsOf(row, list));
    ElementsAppend(vs);
    CommonElement(ElementsOf(vs[..k]), vs[k], tags);
    CombinedMemberships(db, fs, row, LogicalOr, list, vs);
    if k > 0 {
      SomeMember(db, fs, row, list, vs[..k]);
    } else {
      assert ElementsOf(vs[..k]) == {};
    }
  }

  lemma CommonElement(a: set<string>, x: string, b: set<string>)
    ensures (a + {x}) * b != {} <==> a * b != {} || x in b
  {
    if x in b {
      assert x in (a + {x}) * b;
    } else {
      assert (a + {x}) * b == a * b;
    }
  }

  lemma {:induction false} SetSize(ss: seq<string>)
    ensures |ElementsOf(ss)| <= |ss|
    ensures |ElementsOf(ss)| == |ss| <==> NoRepeats(ss)
    decreases |ss|
  {
    if ss != [] {
      var k := |ss| - 1;
      var init := ss[..k];
      SetSize(init);
      assert ss == init + [ss[k]];
      assert ElementsOf(ss) == ElementsOf(init) + {ss[k]};
      if ss[k] in ElementsOf(init) {
        assert ElementsOf(ss) == ElementsOf(init);
        var i :| 0 <= i < k && init[i] == ss[k];
      }
    }
  }

  lemma EqualBySize(a: set<string>, b: set<string>)
    requires a <= b && |b| <= |a|
    ensures a == b
  {
    if x :| x in b && x !in a {
      assert a <= b - {x};
      SubsetSize(a, b - {x});
    }
  }

  lemma {:induction false} SubsetSize(a: set<string>, b: set<string>)
    requires a <= b
    ensures |a| <= |b|
    decreases |a|
  {
    if x :| x in a {
      SubsetSize(a - {x}, b - {x});
    }
  }

  /** `sets.equivalent` holds of a tag list exactly when the two sets are equal and the list
      repeats no tag, for every tag list. */
  lemma EquivalentExact(db: Database, fs: Fields, row: Row, list: string, values: seq<string>)
    requires list in fs && fs[list].kind == JsonList
    ensures Meaning(db, fs, row, SetCondition(SetEquivalent, list, values)) ==
            OfBool(ElementsOf(values) == ElementsOf(TagsOf(row, list)) && NoRepeats(TagsOf(row, list)))
  {
    var tags, distinct := TagsOf(row, list), Distinct(values);
    assert ElementsOf(distinct) == ElementsOf(values);
    EquivalentBySize(distinct, tags);
    assert Meaning(db, fs, row, SizeEquals(list, |distinct|)) == OfBool(|tags| == |distinct|);
    if distinct != [] {
      AllMembers(db, fs, row, list, distinct);
    } else {
      assert ElementsOf(distinct) == {};
    }
  }

  /** The pigeonhole argument: a list without repetitions that is contained in a list of the same
      length has the same elements, and neither repeats one. */
  lemma EquivalentBySize(distinct: seq<string>, tags: seq<string>)
    requires NoRepeats(distinct)
    ensures ElementsOf(distinct) <= ElementsOf(tags) && |tags| == |distinct| <==>
            ElementsOf(distinct) == ElementsOf(tags) && NoRepeats(tags)
  {
    SetSize(distinct);
    SetSize(tags);
    if ElementsOf(distinct) <= ElementsOf(tags) && |tags| == |distinct| {
      EqualBySize(ElementsOf(distinct), ElementsOf(tags));
    }
  }

  /** The list is read when every element is a text constant, and as these texts. */
  lemma {:induction false} TextsListed(es: seq<Expr>)
    ensures TextConstants(es).Some? <==> forall i :: 0 <= i < |es| ==> IsText(es[i])
    ensures TextConstants(es).Some? ==> ElementsOf(TextConstants(es).value) == TextsOf(es)
  {
    if es != [] {
      var rest := es[1..];
      TextsListed(rest);
      assert forall i :: 0 <= i < |rest| ==> rest[i] == es[i + 1];
      assert forall i :: 0 < i < |es| ==> es[i] == rest[i - 1];
      if TextConstants(es).Some? {
        TextsFirst(es);
        assert ElementsOf([es[0].c.s] + TextConstants(rest).value) == {es[0].c.s} + ElementsOf(TextConstants(rest).value);
      }
    }
  }

  lemma TextsFirst(es: seq<Expr>)
    requires es != [] && IsText(es[0])
    ensures TextsOf(es) == {es[0].c.s} + TextsOf(es[1..])
  {
    var rest := es[1..];
    forall s ensures s in TextsOf(es) <==> s in {es[0].c.s} + TextsOf(rest) {
      if i :| 0 <= i < |es| && IsText(es[i]) && es[i].c.s == s {
        assert i > 0 ==> rest[i - 1] == es[i];
      }
      if i :| 0 <= i < |rest| && IsText(rest[i]) && rest[i].c.s == s {
        assert es[i + 1] == rest[i];
      }
    }
  }

  lemma SetBuilt(db: Database, fs: Fields, row: Row, op: SetOp, args: seq<Expr>)
    requires BuildSet(fs, op, args).Some?
    requires op == SetEquivalent ==> NoRepeats(TagsOf(row, args[0].name))
    ensures Meaning(db, fs, row, BuildSet(fs, op, args).value) == SetMeaning(fs, row, op, args)
  {
    var list, values := args[0].name, TextConstants(args[1].elems).value;
    TextsListed(args[1].elems);
    match op
    case SetEquivalent => EquivalentExact(db, fs, row, list, values);
    case SetContains => ContainsExact(db, fs, row, list, values);
    case SetIntersects => IntersectsExact(db, fs, row, list, values);
  }

  /** `sets.contains` asks for a subset. */
  lemma ContainsExact(db: Database, fs: Fields, row: Row, list: string, values: seq<string>)
    ensures Meaning(db, fs, row, SetCondition(SetContains, list, values)) ==
            OfBool(ElementsOf(values) <= ElementsOf(TagsOf(row, list)))
  {
    if values != [] {
      AllMembers(db, fs, row, list, values);
    }
  }

  /** `sets.intersects` asks for a common element. */
  lemma IntersectsExact(db: Database, fs: Fields, row: Row, list: string, values: seq<string>)
    ensures Meaning(db, fs, row, SetCondition(SetIntersects, list, values)) ==
            OfBool(ElementsOf(values) * ElementsOf(TagsOf(row, list)) != {})
  {
    if values != [] {
      SomeMember(db, fs, row, list, values);
    }
  }

  // ----- Text tests -----

  /** No character of the text has another case. */
  ghost predicate Caseless(db: Database, v: string) {
    forall i, c: char :: 0 <= i < |v| && db.fold(c) == db.fold(v[i]) ==> c == v[i]
  }

  /** Folded texts are equal exactly when the texts are. */
  lemma FoldedEqual(db: Database, v: string, t: string)
    requires Caseless(db, v)
    ensures Fold(db, t) == Fold(db, v) <==> t == v
  {
    if Fold(db, t) == Fold(db, v) {
      forall i | 0 <= i < |v| ensures t[i] == v[i] {
        assert Fold(db, t)[i] == Fold(db, v)[i];
      }
    }
  }

  lemma FoldedPrefix(db: Database, v: string, s: string)
    requires Caseless(db, v)
    ensures Like.HasPrefix(Fold(db, v), Fold(db, s)) <==> Like.HasPrefix(v, s)
    ensures Like.HasSuffix(Fold(db, v), Fold(db, s)) <==> Like.HasSuffix(v, s)
  {
    if |v| <= |s| {
      assert Fold(db, s)[..|v|] == Fold(db, s[..|v|]);
      assert Fold(db, s)[|s| - |v|..] == Fold(db, s[|s| - |v|..]);
      FoldedEqual(db, v, s[..|v|]);
      FoldedEqual(db, v, s[|s| - |v|..]);
    }
  }

  lemma FoldedMatches(db: Database, mode: Like.TextMode, v: string, s: string)
    requires Caseless(db, v)
    ensures Like.TextMatches(mode, Fold(db, v), Fold(db, s)) <==> Like.TextMatches(mode, v, s)
  {
    FoldedPrefix(db, v, s);
    forall i | 0 <= i <= |s|
      ensures Like.HasPrefix(Fold(db, v), Fold(db, s)[i..]) <==> Like.HasPrefix(v, s[i..])
    {
      assert Fold(db, s)[i..] == Fold(db, s[i..]);
      FoldedPrefix(db, v, s[i..]);
    }
  }

  lemma MatchesItself(mode: Like.TextMode, v: string, s: string)
    requires |s| == |v|
    ensures Like.TextMatches(mode, v, s) <==> s == v
  {
    assert s[..|v|] == s && s[0..] == s;
    if s == v {
      assert Like.HasPrefix(v, s[0..]);
    }
  }

  /** Rendered text tests fold case, those of the expression language do not: the two agree on
      every text if and only if no character of the searched text has another case. */
  lemma CaseFoldingIff(db: Database, mode: Like.TextMode, v: string)
    ensures (forall s: string :: Like.TextMatches(mode, Fold(db, v), Fold(db, s)) <==> Like.TextMatches(mode, v, s))
      <==> Caseless(db, v)
  {
    hide Like.TextMatches;
    if Caseless(db, v) {
      forall s: string ensures Like.TextMatches(mode, Fold(db, v), Fold(db, s)) <==> Like.TextMatches(mode, v, s) {
        FoldedMatches(db, mode, v, s);
      }
    } else {
      var i, c: char :| 0 <= i < |v| && db.fold(c) == db.fold(v[i]) && c != v[i];
      var s := v[i := c];
      assert Fold(db, s) == Fold(db, v);
      MatchesItself(mode, Fold(db, v), Fold(db, s));
      MatchesItself(mode, v, s);
    }
  }

  // ----- Folds -----

  lemma PredicateEvaluated(iterVar: string, accuVar: string, p: Expr, pred: ElementPredicate, element: string, accu: Value)
    requires BuildPredicate(iterVar, p) == Some(pred) && (p.fn == CompareFn(Eq) ==> p.target.None?)
    ensures EvalExpr(p, iterVar, element, accuVar, accu) == Some(Bool(ElementMatches(pred, element)))
  {
    if p.fn == CompareFn(Eq) {
      var a, b := EvalExpr(p.args[0], iterVar, element, accuVar, accu), EvalExpr(p.args[1], iterVar, element, accuVar, accu);
      assert a.Some? && b.Some?;
    } else {
      hide EvalExpr, TextTest, ElementMatches;
      var v := p.args[0].c.s;
      TextTestEvaluated(iterVar, accuVar, p, v, element, accu);
      TextTestDecides(p.fn, pred, v, element);
    }
  }

  lemma TextTestEvaluated(iterVar: string, accuVar: string, p: Expr, v: string, element: string, accu: Value)
    requires p.Call? && p.fn.TextFn? && p.target == Some(Ident(iterVar)) && p.args == [Const(TextConst(v))]
    ensures EvalExpr(p, iterVar, element, accuVar, accu) == TextTest(p.fn, Str(element), Str(v))
  {
    assert EvalExpr(p.target.value, iterVar, element, accuVar, accu) == Some(Str(element));
    assert EvalExpr(p.args[0], iterVar, element, accuVar, accu) == Some(Str(v));
  }

  lemma TextTestDecides(fn: Function, pred: ElementPredicate, v: string, element: string)
    requires fn.TextFn?
    requires pred == match fn.mode case Prefix => StartsWith(v) case Suffix => EndsWith(v) case Contains => HoldsText(v)
    ensures TextTest(fn, Str(element), Str(v)) == Some(Bool(ElementMatches(pred, element)))
  {
    InfixForms(v, element);
  }

  lemma InfixForms(v: string, s: string)
    ensures Like.HasInfix(v, s) <==> exists i :: 0 <= i <= |s| && |v| <= |s| - i && s[i..][..|v|] == v
  {
    if i :| 0 <= i <= |s| && Like.HasPrefix(v, s[i..]) {
      assert |v| <= |s| - i && s[i..][..|v|] == v;
    }
    if i :| 0 <= i <= |s| && |v| <= |s| - i && s[i..][..|v|] == v {
      assert Like.HasPrefix(v, s[i..]);
    }
  }

  lemma {:induction false} OrSteps(e: Expr, pred: ElementPredicate, tags: seq<string>, b: bool)
    requires e.FoldExpr? && MacroShaped(e) && e.step.fn == OrFn && BuildPredicate(e.iterVar, e.step.args[1]) == Some(pred)
    ensures RunSteps(e, tags, Bool(b)) == Some(Bool(b || SomeMatch(Test(pred), tags)))
    decreases |tags|
  {
    if tags != [] {
      PredicateEvaluated(e.iterVar, e.accuVar, e.step.args[1], pred, tags[0], Bool(b));
      var next := b || ElementMatches(pred, tags[0]);
      assert EvalExpr(e.step.args[0], e.iterVar, tags[0], e.accuVar, Bool(b)) == Some(Bool(b));
      assert EvalExpr(e.step, e.iterVar, tags[0], e.accuVar, Bool(b)) == Some(Bool(next));
      OrSteps(e, pred, tags[1..], next);
      SomeMatchStep(Test(pred), tags);
    }
  }

  lemma SomeMatchStep(test: string -> bool, tags: seq<string>)
    requires tags != []
    ensures SomeMatch(test, tags) <==> test(tags[0]) || SomeMatch(test, tags[1..])
    ensures EveryMatch(test, tags) <==> test(tags[0]) && EveryMatch(test, tags[1..])
  {
    MatchingBounds(test, tags);
    MatchingBounds(test, tags[1..]);
  }

  lemma {:induction false} AndSteps(e: Expr, pred: ElementPredicate, tags: seq<string>, b: bool)
    requires e.FoldExpr? && MacroShaped(e) && e.step.fn == AndFn && BuildPredicate(e.iterVar, e.step.args[1]) == Some(pred)
    ensures RunSteps(e, tags, Bool(b)) == Some(Bool(b && EveryMatch(Test(pred), tags)))
    decreases |tags|
  {
    if tags != [] {
      PredicateEvaluated(e.iterVar, e.accuVar, e.step.args[1], pred, tags[0], Bool(b));
      var next := b && ElementMatches(pred, tags[0]);
      assert EvalExpr(e.step.args[0], e.iterVar, tags[0], e.accuVar, Bool(b)) == Some(Bool(b));
      assert EvalExpr(e.step, e.iterVar, tags[0], e.accuVar, Bool(b)) == Some(Bool(next));
      AndSteps(e, pred, tags[1..], next);
      SomeMatchStep(Test(pred), tags);
    }
  }

  lemma {:induction false} CountSteps(e: Expr, pred: ElementPredicate, tags: seq<string>, n: int)
    requires e.FoldExpr? && MacroShaped(e) && e.step.fn == ConditionalFn && BuildPredicate(e.iterVar, e.step.args[0]) == Some(pred)
    ensures RunSteps(e, tags, Int(n)) == Some(Int(n + Matching(Test(pred), tags)))
    decreases |tags|
  {
    if tags != [] {
      PredicateEvaluated(e.iterVar, e.accuVar, e.step.args[0], pred, tags[0], Int(n));
      CounterStep(e, tags[0], n);
      var next := if ElementMatches(pred, tags[0]) then n + 1 else n;
      assert EvalExpr(e.step, e.iterVar, tags[0], e.accuVar, Int(n)) == Some(Int(next));
      CountSteps(e, pred, tags[1..], next);
    }
  }

  lemma CounterStep(e: Expr, element: string, n: int)
    requires e.FoldExpr? && MacroShaped(e) && e.step.fn == ConditionalFn
    ensures EvalExpr(e.step.args[1], e.iterVar, element, e.accuVar, Int(n)) == Some(Int(n + 1))
    ensures EvalExpr(e.step.args[2], e.iterVar, element, e.accuVar, Int(n)) == Some(Int(n))
    ensures EvalExpr(e.result, "", "", e.accuVar, Int(n)) == Some(Bool(n == 1))
  {
    var accu, one := Ident(e.accuVar), Const(IntConst(1));
    assert EvalExpr(accu, e.iterVar, element, e.accuVar, Int(n)) == Some(Int(n));
    assert EvalExpr(one, e.iterVar, element, e.accuVar, Int(n)) == Some(Int(1));
    assert EvalExpr(accu, "", "", e.accuVar, Int(n)) == Some(Int(n));
    assert EvalExpr(one, "", "", e.accuVar, Int(n)) == Some(Int(1));
  }

  /** What the detected kind says is what the fold computes; `all` of the empty list is the one
      case where the tree differs: the fold gives TRUE, the tree FALSE. */
  lemma FoldBuilt(db: Database, fs: Fields, row: Row, e: Expr)
    requires e.FoldExpr? && MacroShaped(e) && BuildFold(fs, e.iterVar, e.range, e.init, e.step).Some?
    ensures RunFold(e, TagsOf(row, e.range.name)).Some? && RunFold(e, TagsOf(row, e.range.name)).value.Bool?
    ensures Meaning(db, fs, row, BuildFold(fs, e.iterVar, e.range, e.init, e.step).value) ==
            OfBool(RunFold(e, TagsOf(row, e.range.name)).value.b)
            <==> !(e.step.fn == AndFn && TagsOf(row, e.range.name) == [])
  {
    var tags := TagsOf(row, e.range.name);
    var pred := BuildPredicate(e.iterVar, StepPredicate(e.step).value).value;
    match e.step.fn
    case OrFn => OrSteps(e, pred, tags, false);
    case AndFn => AndSteps(e, pred, tags, true);
    case ConditionalFn => CountFold(e, pred, tags);
  }

  lemma CountFold(e: Expr, pred: ElementPredicate, tags: seq<string>)
    requires e.FoldExpr? && MacroShaped(e) && e.step.fn == ConditionalFn
    requires BuildPredicate(e.iterVar, e.step.args[0]) == Some(pred)
    ensures RunFold(e, tags) == Some(Bool(OneMatch(Test(pred), tags)))
  {
    CountSteps(e, pred, tags, 0);
    CounterStep(e, "", Matching(Test(pred), tags));
    MatchingOne(Test(pred), tags);
  }

  // ----- The main theorem -----

  lemma CallBuilt(d: Dialect, fs: Fields, clock: Clock, n: nat, db: Database, row: Row, e: Expr, c: Condition)
    requires e.Call? && e.fn !in {AndFn, OrFn, NotFn}
    requires Build(fs, clock, e) == Some(c) && BuildsExactly(fs, clock, row, e) && OrdersMirror(db)
    requires Compile.Tree(d, fs, n, c).Done?
    ensures Meaning(db, fs, row, c) == CelTruth(db, fs, clock, row, e)
  {
    match e.fn
    case CompareFn(op) => ComparisonBuilt(d, fs, clock, n, db, row, op, e.args);
    case InFn => InBuilt(d, fs, clock, n, db, row, e.args);
    case SetFn(op) => SetBuilt(db, fs, row, op, e.args);
    case TextFn(_) =>
    case MatchesFn =>
  }

  /** Every expression that builds and renders means, on every row, what its condition tree means:
      through operand swaps, mirrored operators, folded constants, desugared set operations and
      detected macros. */
  lemma {:induction false} BuildPreservesMeaning(d: Dialect, fs: Fields, clock: Clock, n: nat, db: Database, row: Row,
                                                 e: Expr, c: Condition)
    requires Build(fs, clock, e) == Some(c) && BuildsExactly(fs, clock, row, e) && OrdersMirror(db)
    requires Compile.Tree(d, fs, n, c).Done?
    ensures Meaning(db, fs, row, c) == CelTruth(db, fs, clock, row, e)
    decreases e
  {
    hide Build, BuildsExactly, Compile.Tree, Meaning, CelTruth;
    if !e.Call? {
      AtomBuilt(fs, clock, db, row, e, c);
    } else {
      match e.fn
      case AndFn => LogicalBuilt(d, fs, clock, n, db, row, e, c);
      case OrFn => LogicalBuilt(d, fs, clock, n, db, row, e, c);
      case NotFn =>
        NotParts(d, fs, clock, n, row, e, c);
        BuildPreservesMeaning(d, fs, clock, n, db, row, e.args[0], c.child);
        NotMeaning(db, fs, clock, row, e, c);
      case _ => CallBuilt(d, fs, clock, n, db, row, e, c);
    }
  }

  lemma AtomBuilt(fs: Fields, clock: Clock, db: Database, row: Row, e: Expr, c: Condition)
    requires !e.Call? && Build(fs, clock, e) == Some(c) && BuildsExactly(fs, clock, row, e)
    ensures Meaning(db, fs, row, c) == CelTruth(db, fs, clock, row, e)
  {
    if e.FoldExpr? {
      hide MacroShaped, BuildFold, RunFold, StepPredicate;
      FoldBuilt(db, fs, row, e);
    }
  }

  lemma NotParts(d: Dialect, fs: Fields, clock: Clock, n: nat, row: Row, e: Expr, c: Condition)
    requires e.Call? && e.fn == NotFn && Build(fs, clock, e) == Some(c) && BuildsExactly(fs, clock, row, e)
    requires Compile.Tree(d, fs, n, c).Done?
    ensures |e.args| == 1 && c.NotCondition? && Build(fs, clock, e.args[0]) == Some(c.child)
    ensures BuildsExactly(fs, clock, row, e.args[0]) && Compile.Tree(d, fs, n, c.child).Done?
  {}

  lemma NotMeaning(db: Database, fs: Fields, clock: Clock, row: Row, e: Expr, c: Condition)
    requires e.Call? && e.fn == NotFn && |e.args| == 1 && c.NotCondition?
    requires Meaning(db, fs, row, c.child) == CelTruth(db, fs, clock, row, e.args[0])
    ensures Meaning(db, fs, row, c) == CelTruth(db, fs, clock, row, e)
  {}

  lemma LogicalParts(fs: Fields, clock: Clock, row: Row, e: Expr, c: Condition)
    requires e.Call? && e.fn in {AndFn, OrFn} && Build(fs, clock, e) == Some(c)
    ensures |e.args| == 2 && c.Logical? && c.op == if e.fn == AndFn then LogicalAnd else LogicalOr
    ensures Build(fs, clock, e.args[0]) == Some(c.left) && Build(fs, clock, e.args[1]) == Some(c.right)
    ensures BuildsExactly(fs, clock, row, e) ==>
              BuildsExactly(fs, clock, row, e.args[0]) && BuildsExactly(fs, clock, row, e.args[1])
  {}

  lemma LogicalTree(d: Dialect, fs: Fields, n: nat, c: Condition) returns (k: nat)
    requires c.Logical? && Compile.Tree(d, fs, n, c).Done?
    ensures Compile.Tree(d, fs, n, c.left).Done? && Compile.Tree(d, fs, k, c.right).Done?
  {
    k := n + |Compile.Tree(d, fs, n, c.left).args|;
  }

  lemma LogicalMeaning(db: Database, fs: Fields, clock: Clock, row: Row, e: Expr, c: Condition)
    requires e.Call? && e.fn in {AndFn, OrFn} && |e.args| == 2
    requires c.Logical? && c.op == if e.fn == AndFn then LogicalAnd else LogicalOr
    requires Meaning(db, fs, row, c.left) == CelTruth(db, fs, clock, row, e.args[0])
    requires Meaning(db, fs, row, c.right) == CelTruth(db, fs, clock, row, e.args[1])
    ensures Meaning(db, fs, row, c) == CelTruth(db, fs, clock, row, e)
  {}

  lemma {:induction false} LogicalBuilt(d: Dialect, fs: Fields, clock: Clock, n: nat, db: Database, row: Row, e: Expr, c: Condition)
    requires e.Call? && e.fn in {AndFn, OrFn}
    requires Build(fs, clock, e) == Some(c) && BuildsExactly(fs, clock, row, e) && OrdersMirror(db)
    requires Compile.Tree(d, fs, n, c).Done?
    ensures Meaning(db, fs, row, c) == CelTruth(db, fs, clock, row, e)
    decreases e, 0
  {
    hide Build, BuildsExactly, Compile.Tree, Meaning, CelTruth;
    LogicalParts(fs, clock, row, e, c);
    var k := LogicalTree(d, fs, n, c);
    BuildPreservesMeaning(d, fs, clock, n, db, row, e.args[0], c.left);
    BuildPreservesMeaning(d, fs, clock, k, db, row, e.args[1], c.right);
    LogicalMeaning(db, fs, clock, row, e, c);
  }

  // ----- Filters that always build exactly -----

  /** A text, a boolean, null, a whole number of 64 bits, or the evaluation time. */
  predicate PlainLiteral(clock: Clock, e: Expr) {
    match e
    case Const(IntConst(i)) => IsInt64(i)
    case Const(c) => c.TextConst? || c.BoolConst? || c.NullConst?
    case Ident(name) => name == NOW && IsInt64(clock.now)
    case _ => false
  }

  /** A field, a part of a timestamp field, or the size of a field. */
  predicate PlainColumn(e: Expr) {
    match e
    case Ident(name) => name != NOW
    case Call(SizeFn, _, args) => |args| == 1 && args[0].Ident? && args[0].name != NOW
    case Call(PartFn(_), target, _) => target.Some? && target.value.Ident? && target.value.name != NOW
    case _ => false
  }

  /** No arithmetic, no fractions, no two constants against each other, neither `sets.equivalent` nor `all`. */
  predicate Plain(clock: Clock, e: Expr) {
    match e
    case FoldExpr(_, _, _, _, step, _) => MacroShaped(e) && step.fn != AndFn
    case Call(fn, _, args) =>
      (match fn
       case CompareFn(_) =>
         |args| == 2 && (PlainColumn(args[0]) || PlainColumn(args[1])) &&
         forall i :: 0 <= i < 2 ==> PlainColumn(args[i]) || PlainLiteral(clock, args[i])
       case InFn => |args| == 2 && (args[1].ListExpr? ==>
         forall i :: 0 <= i < |args[1].elems| ==> PlainLiteral(clock, args[1].elems[i]))
       case SetFn(op) => op != SetEquivalent
       case AndFn => forall i :: 0 <= i < |args| ==> Plain(clock, args[i])
       case OrFn => forall i :: 0 <= i < |args| ==> Plain(clock, args[i])
       case NotFn => forall i :: 0 <= i < |args| ==> Plain(clock, args[i])
       case _ => true)
    case _ => true
  }

  lemma PlainLiteralFits(fs: Fields, clock: Clock, op: CompareOp, e: Expr)
    requires PlainLiteral(clock, e)
    ensures OperandFolds(clock, e)
    ensures BuildValue(fs, clock, e).Some? && BuildValue(fs, clock, e).value.Literal?
    ensures FitsColumn(clock, op, BuildValue(fs, clock, e).value.v, e)
  {}

  lemma PlainColumnVaries(fs: Fields, clock: Clock, e: Expr)
    requires PlainColumn(e)
    ensures OperandFolds(clock, e)
    ensures BuildValue(fs, clock, e).Some? ==> !BuildValue(fs, clock, e).value.Literal?
  {
    assert EvaluateNumeric(clock, e).NotConstant? && ExactNumber(clock, e).None?;
    assert EvaluateBool(e).NotBool?;
  }

  lemma PlainComparisonExact(fs: Fields, clock: Clock, op: CompareOp, args: seq<Expr>)
    requires |args| == 2 && (PlainColumn(args[0]) || PlainColumn(args[1]))
    requires forall i :: 0 <= i < 2 ==> PlainColumn(args[i]) || PlainLiteral(clock, args[i])
    ensures ComparisonIsExact(fs, clock, op, args)
  {
    hide PlainColumn, PlainLiteral, OperandFolds, BuildValue, FitsColumn;
    if PlainColumn(args[0]) {
      PlainColumnVaries(fs, clock, args[0]);
    } else {
      PlainLiteralFits(fs, clock, Mirror(op), args[0]);
    }
    if PlainColumn(args[1]) {
      PlainColumnVaries(fs, clock, args[1]);
    } else {
      PlainLiteralFits(fs, clock, op, args[1]);
    }
  }

  /** A plain filter keeps its meaning on every row and at every time. */
  lemma {:induction false} PlainBuildsExactly(fs: Fields, clock: Clock, row: Row, e: Expr)
    requires Plain(clock, e)
    ensures BuildsExactly(fs, clock, row, e)
    decreases e
  {
    hide MacroShaped, ComparisonIsExact, PlainColumn, PlainLiteral;
    if e.Call? && e.fn.CompareFn? {
      PlainComparisonExact(fs, clock, e.fn.op, e.args);
    } else if e.Call? && e.fn == InFn && e.args[1].ListExpr? {
      forall i | 0 <= i < |e.args[1].elems| ensures ListedExactly(fs, clock, e.args[1].elems[i]) {
        PlainLiteralFits(fs, clock, Eq, e.args[1].elems[i]);
      }
    } else if e.Call? && e.fn in {AndFn, OrFn, NotFn} {
      forall i | 0 <= i < |e.args| ensures BuildsExactly(fs, clock, row, e.args[i]) {
        PlainBuildsExactly(fs, clock, row, e.args[i]);
      }
    }
  }
}
