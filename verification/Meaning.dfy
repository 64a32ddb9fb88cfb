/** Rendering preserves meaning: the SQL of a condition, evaluated on a row, has the
    three-valued meaning of the condition. */
module RenderMeaning {
  import opened Kleene
  import opened Schema
  import opened SqlText
  import opened SqlEval
  import opened ConditionTree
  import opened Compile
  import Like

  // ----- Every rendered condition is one unit of the grammar -----

  ghost predicate IsUnit<P(!new)>(e: Sql<P>) {
    WellFormed(e) && Level(e) == 2
  }

  lemma {:induction false} AnyMemberTreeLevels(d: Dialect, n: nat, list: string, vs: seq<string>)
    requires vs != []
    ensures WellFormed(AnyMemberTree(d, n, list, vs))
    decreases |vs|
  {
    if |vs| > 1 {
      AnyMemberTreeLevels(d, n, list, vs[..|vs| - 1]);
    }
  }

  ghost predicate ShapeIsUnit(s: Shape) {
    s.Plain? ==> IsUnit(s.e)
  }

  lemma CombinedIsUnit(l: Shape, r: Shape)
    requires ShapeIsUnit(l) && ShapeIsUnit(r)
    ensures ShapeIsUnit(AndShape(l, r)) && ShapeIsUnit(OrShape(l, r)) && ShapeIsUnit(NotShape(l))
  {
    if l.Plain? && r.Plain? {
      assert WellFormed(Binary(AndOp, l.e, r.e)) && WellFormed(Binary(OrOp, l.e, r.e));
    }
    if l.Plain? {
      assert WellFormed(Group(l.e));
    }
  }

  /** Every rendered condition can stand next to any connective without losing an operand: no
      parenthesis is missing. */
  lemma {:induction false} RenderedIsUnit(d: Dialect, fs: Fields, n: nat, c: Condition)
    ensures var out := Tree(d, fs, n, c); out.Done? ==> ShapeIsUnit(out.shape)
    decreases c
  {
    hide Tree, ShapeIsUnit;
    match c
    case Logical(op, l, r) =>
      RenderedIsUnit(d, fs, n, l);
      var left := Tree(d, fs, n, l);
      var right := if left.Done? then Tree(d, fs, n + |left.args|, r) else Failed;
      if left.Done? {
        RenderedIsUnit(d, fs, n + |left.args|, r);
      }
      LogicalIsUnit(d, fs, n, c, left, right);
    case NotCondition(x) =>
      RenderedIsUnit(d, fs, n, x);
      NegationIsUnit(d, fs, n, c);
    case _ => AtomIsUnit(d, fs, n, c);
  }

  lemma LogicalIsUnit(d: Dialect, fs: Fields, n: nat, c: Condition, left: Outcome, right: Outcome)
    requires c.Logical? && left == Tree(d, fs, n, c.left)
    requires right == if left.Done? then Tree(d, fs, n + |left.args|, c.right) else Failed
    requires (left.Done? ==> ShapeIsUnit(left.shape)) && (right.Done? ==> ShapeIsUnit(right.shape))
    ensures var out := Tree(d, fs, n, c); out.Done? ==> ShapeIsUnit(out.shape)
  {
    hide ShapeIsUnit, AndShape, OrShape;
    if left.Done? && right.Done? {
      CombinedIsUnit(left.shape, right.shape);
    }
  }

  lemma NegationIsUnit(d: Dialect, fs: Fields, n: nat, c: Condition)
    requires c.NotCondition?
    requires var out := Tree(d, fs, n, c.child); out.Done? ==> ShapeIsUnit(out.shape)
    ensures var out := Tree(d, fs, n, c); out.Done? ==> ShapeIsUnit(out.shape)
  {
    hide ShapeIsUnit, NotShape;
    if Tree(d, fs, n, c.child).Done? {
      AlwaysIsUnit();
      CombinedIsUnit(Tree(d, fs, n, c.child).shape, Always);
    }
  }

  lemma AlwaysIsUnit()
    ensures ShapeIsUnit(Always)
  {}

  lemma AtomIsUnit(d: Dialect, fs: Fields, n: nat, c: Condition)
    requires !c.Logical? && !c.NotCondition?
    ensures var out := Tree(d, fs, n, c); out.Done? ==> ShapeIsUnit(out.shape)
  {
    match c
    case InValues(subject, values) =>
      hide InTree, ShapeIsUnit;
      InIsUnit(d, fs, n, subject, values);
    case Comparison(lhs, op, rhs) =>
      hide ComparisonTree, ShapeIsUnit;
      ComparisonIsUnit(d, fs, n, lhs, op, rhs);
    case ListComprehension(kind, list, pred) => ComprehensionIsUnit(d, n, list, pred, kind);
    case ElementIn(element, list) =>
      if element.Literal? && element.v.Str? {
        ComprehensionIsUnit(d, n, list, EqualsText(element.v.s), SomeElement);
      }
    case FieldPredicate(_) =>
    case TextMatch(_, _, _) =>
    case RegexMatch(_, _) =>
    case Constant(_) =>
  }

  lemma InIsUnit(d: Dialect, fs: Fields, n: nat, subject: ValueExpr, values: seq<ValueExpr>)
    ensures var out := InTree(d, fs, n, subject, values); out.Done? ==> ShapeIsUnit(out.shape)
  {
    if ResolveAlias(fs, TAG).Some? && Texts(values).Some? && |Texts(values).value| > 1 {
      AnyMemberTreeLevels(d, n, ResolveAlias(fs, TAG).value, Texts(values).value);
    }
  }

  lemma NegatedLeafIsUnit(t: Template)
    requires Arity(t) == 0
    ensures IsUnit<Param>(Negate(Group(Leaf(t, []))))
  {
    assert WellFormed<Param>(Group(Leaf(t, [])));
  }

  lemma ComparisonIsUnit(d: Dialect, fs: Fields, n: nat, lhs: ValueExpr, op: CompareOp, rhs: ValueExpr)
    ensures var out := ComparisonTree(d, fs, n, lhs, op, rhs); out.Done? ==> ShapeIsUnit(out.shape)
  {
    if lhs.FieldRef? && lhs.name in fs {
      hide ScalarComparison, BoolColumnComparison, JsonBoolComparison, JsonExistsComparison, ShapeIsUnit;
      ScalarIsUnit(n, lhs.name, fs[lhs.name].typ, op, rhs);
      FlagIsUnit(d, n, lhs.name, op, rhs);
      JsonIsUnit(d, n, lhs.name, op, rhs);
    }
  }

  lemma ScalarIsUnit(n: nat, f: string, typ: FieldType, op: CompareOp, rhs: ValueExpr)
    ensures var out := ScalarComparison(n, f, typ, op, rhs); out.Done? ==> ShapeIsUnit(out.shape)
  {}

  lemma FlagIsUnit(d: Dialect, n: nat, f: string, op: CompareOp, rhs: ValueExpr)
    ensures var out := BoolColumnComparison(d, n, f, op, rhs); out.Done? ==> ShapeIsUnit(out.shape)
  {}

  lemma JsonIsUnit(d: Dialect, n: nat, f: string, op: CompareOp, rhs: ValueExpr)
    ensures var out := JsonBoolComparison(d, n, f, op, rhs); out.Done? ==> ShapeIsUnit(out.shape)
    ensures var out := JsonExistsComparison(d, f, op, rhs); out.Done? ==> ShapeIsUnit(out.shape)
  {
    NegatedLeafIsUnit(JsonIsTrue(f));
    NegatedLeafIsUnit(ExistsTemplate(d, f));
  }

  lemma ComprehensionIsUnit(d: Dialect, n: nat, list: string, pred: ElementPredicate, kind: ComprehensionKind)
    ensures IsUnit(ComprehensionTree(d, list, kind, ElementTree(d, n, pred).0))
  {
    var e := ElementTree(d, n, pred).0;
    assert WellFormed(e);
    assert WellFormed(Group(e));
    NoMatchIsUnit(d, list, Negate(Group(e)));
    NonEmptyAndIsUnit(list, NoMatchTree(d, list, Negate(Group(e))));
  }

  lemma NonEmptyAndIsUnit(list: string, e: Sql<Param>)
    requires IsUnit(e)
    ensures IsUnit(Group(Binary(AndOp, Leaf(ListNotEmpty(list), []), e)))
  {
    var nonEmpty: Sql<Param> := Leaf(ListNotEmpty(list), []);
    assert WellFormed(nonEmpty) && Level(nonEmpty) == 2;
    assert WellFormed(Binary(AndOp, nonEmpty, e));
  }

  lemma NoMatchIsUnit(d: Dialect, list: string, e: Sql<Param>)
    requires WellFormed(e)
    ensures IsUnit(NoMatchTree(d, list, e)) && IsUnit(AnyMatchTree(d, list, e))
  {
    assert WellFormed(Exists(list, e));
  }

  // ----- Placeholders replaced by their values -----

  function Values(ps: seq<Param>): (vs: seq<Value>)
    ensures |vs| == |ps| && forall i {:trigger vs[i]} :: 0 <= i < |ps| ==> vs[i] == ps[i].v
  {
    seq(|ps|, i requires 0 <= i < |ps| => ps[i].v)
  }

  /** The condition with the minted values in place of the placeholders. */
  function Filled(e: Sql<Param>): (r: Sql<Value>)
    ensures WellFormed(e) ==> WellFormed(r)
    ensures Level(r) == Level(e)
  {
    match e
    case Leaf(t, ps) => Leaf(t, Values(ps))
    case Negate(x) => Negate(Filled(x))
    case Binary(op, l, r) => Binary(op, Filled(l), Filled(r))
    case Group(x) => Group(Filled(x))
    case Exists(list, x) => Exists(list, Filled(x))
    case Count(list, x, test) => Count(list, Filled(x), test)
  }

  lemma ValuesOfParams(n: nat, vs: seq<Value>)
    ensures Values(Params(n, vs)) == vs
  {}

  ghost function TruthOf(db: Database, row: Row, shape: Shape): Truth
    requires shape.Plain? ==> WellFormed(shape.e)
  {
    match shape
    case Always => True
    case Never => False
    case Plain(e) => Eval(db, row, "", Filled(e))
  }

  // ----- Subqueries over the tag list -----

  /** How many elements satisfy the test. */
  ghost function Matching(test: string -> bool, tags: seq<string>): nat {
    if tags == [] then 0 else (if test(tags[0]) then 1 else 0) + Matching(test, tags[1..])
  }

  lemma {:induction false} MatchingBounds(test: string -> bool, tags: seq<string>)
    ensures Matching(test, tags) <= |tags|
    ensures Matching(test, tags) > 0 <==> SomeMatch(test, tags)
    ensures Matching(test, tags) == |tags| <==> EveryMatch(test, tags)
  {
    if tags != [] {
      var rest := tags[1..];
      MatchingBounds(test, rest);
      assert tags == [tags[0]] + rest;
      if i :| 0 <= i < |rest| && test(rest[i]) {
        assert test(tags[i + 1]);
      }
      if i :| 0 <= i < |rest| && !test(rest[i]) {
        assert !test(tags[i + 1]);
      }
    }
  }

  lemma {:induction false} MatchingOne(test: string -> bool, tags: seq<string>)
    ensures Matching(test, tags) == 1 <==> OneMatch(test, tags)
  {
    if tags != [] {
      var rest := tags[1..];
      MatchingOne(test, rest);
      MatchingBounds(test, rest);
      assert forall j :: 0 < j < |tags| ==> tags[j] == rest[j - 1];
      if test(tags[0]) && Matching(test, rest) == 0 {
        assert MatchesOnlyAt(test, tags, 0);
      }
      if !test(tags[0]) {
        if i :| MatchesOnlyAt(test, rest, i) {
          assert MatchesOnlyAt(test, tags, i + 1);
        }
      }
      if i :| MatchesOnlyAt(test, tags, i) {
        OnlyMatchOfRest(test, tags, i);
      }
    }
  }

  lemma OnlyMatchOfRest(test: string -> bool, tags: seq<string>, i: int)
    requires MatchesOnlyAt(test, tags, i)
    ensures if i == 0 then !SomeMatch(test, tags[1..]) else !test(tags[0]) && MatchesOnlyAt(test, tags[1..], i - 1)
  {
    var rest := tags[1..];
    forall j | 0 <= j < |rest| && j != i - 1
      ensures !test(rest[j])
    {
      assert rest[j] == tags[j + 1];
    }
  }

  /** The element condition decides the predicate on every element, on every dialect. */
  lemma ElementTreeExact(d: Dialect, n: nat, pred: ElementPredicate, db: Database, row: Row, tag: string)
    ensures var e := ElementTree(d, n, pred).0;
            WellFormed(e) && Eval(db, row, tag, Filled(e)) == OfBool(ElementMatches(pred, tag))
  {
    match pred
    case EqualsText(v) => ValuesOfParams(n, [Str(v)]);
    case StartsWith(v) => ElementTextExact(d, n, Like.Prefix, v, db, row, tag);
    case EndsWith(v) => ElementTextExact(d, n, Like.Suffix, v, db, row, tag);
    case HoldsText(v) => ElementTextExact(d, n, Like.Contains, v, db, row, tag);
  }

  lemma EmptyTextMatches(mode: Like.TextMode, s: string)
    ensures Like.TextMatches(mode, "", s)
  {
    assert s[..0] == "" && s[|s|..] == "";
    assert Like.HasPrefix("", s[0..]);
  }

  lemma ElementTextExact(d: Dialect, n: nat, mode: Like.TextMode, v: string, db: Database, row: Row, tag: string)
    ensures var e := ElementText(d, n, mode, v).0;
            WellFormed(e) && Eval(db, row, tag, Filled(e)) == OfBool(Like.TextMatches(mode, v, tag))
  {
    var (e, args) := ElementText(d, n, mode, v);
    if v == "" {
      EmptyTextMatches(mode, tag);
      assert Filled(e) == Leaf(Tautology, []);
    } else {
      ValuesOfParams(n, args);
      assert Filled(e) == Leaf(e.t, args);
      if d == SQLite {
        SQLiteTextExact(mode, v, tag, args);
      } else {
        Like.PatternExact(mode, v, tag, '!');
      }
    }
  }

  lemma SQLiteTextExact(mode: Like.TextMode, v: string, tag: string, args: seq<Value>)
    requires v != "" && args == ElementText(SQLite, 0, mode, v).1
    ensures EvalElement(ElementText(SQLite, 0, mode, v).0.t, tag, args) == OfBool(Like.TextMatches(mode, v, tag))
  {
    Like.StringFunctionsExact(v, tag);
  }

  lemma {:induction false} SelectedIsMatching(d: Dialect, n: nat, pred: ElementPredicate, db: Database, row: Row, tags: seq<string>)
    requires WellFormed(ElementTree(d, n, pred).0)
    ensures Selected(db, row, tags, Filled(ElementTree(d, n, pred).0)) == Matching(Test(pred), tags)
    ensures Selected(db, row, tags, Negate(Group(Filled(ElementTree(d, n, pred).0)))) == |tags| - Matching(Test(pred), tags)
    decreases |tags|
  {
    if tags != [] {
      ElementTreeExact(d, n, pred, db, row, tags[0]);
      SelectedIsMatching(d, n, pred, db, row, tags[1..]);
      var e := Filled(ElementTree(d, n, pred).0);
      assert Eval(db, row, tags[0], Negate(Group(e))) == Not(Eval(db, row, tags[0], e));
    }
  }

  /** The EXISTS and the COUNT forms mean some, non-empty and every, and exactly one. */
  lemma ComprehensionExact(d: Dialect, n: nat, list: string, pred: ElementPredicate, kind: ComprehensionKind,
                           db: Database, row: Row)
    ensures var e := ComprehensionTree(d, list, kind, ElementTree(d, n, pred).0);
            IsUnit(e) && Eval(db, row, "", Filled(e)) == OfBool(ComprehensionHolds(kind, Test(pred), TagsOf(row, list)))
  {
    hide ElementTree, Test, TagsOf;
    var tags := TagsOf(row, list);
    var elem := ElementTree(d, n, pred).0;
    ElementTreeExact(d, n, pred, db, row, "");
    SelectedIsMatching(d, n, pred, db, row, tags);
    MatchingBounds(Test(pred), tags);
    MatchingOne(Test(pred), tags);
    ComprehensionIsUnit(d, n, list, pred, kind);
    if kind == AllElements {
      EveryTree(d, list, elem, db, row);
      assert Eval(db, row, "", Filled(ComprehensionTree(d, list, kind, elem))) == OfBool(|tags| > 0 && EveryMatch(Test(pred), tags));
    }
  }

  /** The form for `all`: the list is not empty, and no element fails the test. */
  lemma EveryTree(d: Dialect, list: string, elem: Sql<Param>, db: Database, row: Row)
    requires WellFormed(elem)
    ensures IsUnit(ComprehensionTree(d, list, AllElements, elem))
    ensures Eval(db, row, "", Filled(ComprehensionTree(d, list, AllElements, elem))) ==
            OfBool(|TagsOf(row, list)| > 0 && Selected(db, row, TagsOf(row, list), Negate(Group(Filled(elem)))) == 0)
  {
    hide TagsOf, Selected;
    var nonEmpty: Sql<Param> := Leaf(ListNotEmpty(list), []);
    var none := NoMatchTree(d, list, Negate(Group(elem)));
    NegatedIsFormed(elem);
    NoMatchCounts(d, list, Negate(Group(elem)), db, row);
    NoMatchIsUnit(d, list, Negate(Group(elem)));
    NonEmptyAndIsUnit(list, none);
    assert Filled(nonEmpty) == Leaf(ListNotEmpty(list), []);
    assert Eval(db, row, "", Filled(nonEmpty)) == OfBool(|TagsOf(row, list)| > 0);
    GroupedAnd(nonEmpty, none, db, row);
  }

  lemma NegatedIsFormed(elem: Sql<Param>)
    requires WellFormed(elem)
    ensures WellFormed(Negate(Group(elem))) && Filled(Negate(Group(elem))) == Negate(Group(Filled(elem)))
  {
    assert WellFormed(Group(elem)) && Filled(Group(elem)) == Group(Filled(elem));
  }

  lemma GroupedAnd(l: Sql<Param>, r: Sql<Param>, db: Database, row: Row)
    requires WellFormed(Group(Binary(AndOp, l, r))) && WellFormed(l) && WellFormed(r)
    ensures Eval(db, row, "", Filled(Group(Binary(AndOp, l, r)))) == And(Eval(db, row, "", Filled(l)), Eval(db, row, "", Filled(r)))
  {
    assert Filled(Binary(AndOp, l, r)) == Binary(AndOp, Filled(l), Filled(r));
    assert Eval(db, row, "", Group(Filled(Binary(AndOp, l, r)))) == Eval(db, row, "", Filled(Binary(AndOp, l, r)));
  }

  lemma NoMatchCounts(d: Dialect, list: string, e: Sql<Param>, db: Database, row: Row)
    requires WellFormed(e)
    ensures WellFormed(NoMatchTree(d, list, e))
    ensures Eval(db, row, "", Filled(NoMatchTree(d, list, e))) == OfBool(Selected(db, row, TagsOf(row, list), Filled(e)) == 0)
  {
    NoMatchIsUnit(d, list, e);
    assert Filled(Exists(list, e)) == Exists(list, Filled(e));
  }

  // ----- Lists of values -----

  lemma {:induction false} TextsAreLiterals(values: seq<ValueExpr>)
    ensures Texts(values).Some? ==>
      forall i :: 0 <= i < |values| ==> LiteralValue(values[i]) == Str(Texts(values).value[i])
  {
    if values != [] {
      TextsAreLiterals(values[1..]);
    }
  }

  lemma MemberExact(d: Dialect, n: nat, list: string, v: string, db: Database, row: Row)
    ensures var e := MemberTree(d, n, list, v);
            IsUnit(e) && Eval(db, row, "", Filled(e)) == OfBool(v in TagsOf(row, list))
  {
    var tags := TagsOf(row, list);
    var test := Test(EqualsText(v));
    ComprehensionExact(d, n, list, EqualsText(v), SomeElement, db, row);
    if v in tags {
      var i :| 0 <= i < |tags| && tags[i] == v;
      assert test(tags[i]);
    }
  }

  lemma {:induction false} AnyMemberExact(d: Dialect, n: nat, list: string, vs: seq<string>, db: Database, row: Row)
    requires vs != []
    ensures WellFormed(AnyMemberTree(d, n, list, vs))
    ensures Eval(db, row, "", Filled(AnyMemberTree(d, n, list, vs))) ==
            OfBool(exists i :: 0 <= i < |vs| && vs[i] in TagsOf(row, list))
    decreases |vs|
  {
    hide MemberTree, AnyMemberTree, TagsOf, Filled, Eval;
    AnyMemberTreeLevels(d, n, list, vs);
    AnyMemberTreeStep(d, n, list, vs);
    var k := |vs| - 1;
    MemberExact(d, n + k, list, vs[k], db, row);
    if k > 0 {
      AnyMemberExact(d, n, list, vs[..k], db, row);
      OrExact(AnyMemberTree(d, n, list, vs[..k]), MemberTree(d, n + k, list, vs[k]), db, row);
    }
    AnyInStep(vs, TagsOf(row, list));
  }

  lemma AnyMemberTreeStep(d: Dialect, n: nat, list: string, vs: seq<string>)
    requires vs != []
    ensures var k := |vs| - 1;
      AnyMemberTree(d, n, list, vs) ==
      if k == 0 then MemberTree(d, n, list, vs[0])
      else Binary(OrOp, AnyMemberTree(d, n, list, vs[..k]), MemberTree(d, n + k, list, vs[k]))
  {}

  lemma AnyInStep(vs: seq<string>, tags: seq<string>)
    requires vs != []
    ensures var k := |vs| - 1;
      (exists i :: 0 <= i < |vs| && vs[i] in tags) <==> vs[k] in tags || exists i :: 0 <= i < k && vs[..k][i] in tags
  {
    var k := |vs| - 1;
    assert forall i :: 0 <= i < k ==> vs[..k][i] == vs[i];
  }

  lemma OrExact(l: Sql<Param>, r: Sql<Param>, db: Database, row: Row)
    requires WellFormed(l) && WellFormed(r) && WellFormed(Binary(OrOp, l, r))
    ensures Eval(db, row, "", Filled(Binary(OrOp, l, r))) == Or(Eval(db, row, "", Filled(l)), Eval(db, row, "", Filled(r)))
  {}

  lemma TagInExact(d: Dialect, fs: Fields, n: nat, values: seq<ValueExpr>, db: Database, row: Row)
    requires TagIn(d, fs, n, values).Done?
    ensures ShapeIsUnit(TagIn(d, fs, n, values).shape)
    ensures TruthOf(db, row, TagIn(d, fs, n, values).shape) ==
            OfBool(AnyListed(TagsOf(row, ResolveAlias(fs, TAG).value), values))
  {
    TextsAreLiterals(values);
    var list, vs := ResolveAlias(fs, TAG).value, Texts(values).value;
    if |vs| > 1 {
      AnyMemberExact(d, n, list, vs, db, row);
    } else if |vs| == 1 {
      MemberExact(d, n, list, vs[0], db, row);
      assert LiteralValue(values[0]).s == vs[0];
    }
  }

  lemma {:induction false} ListedExact(db: Database, typ: FieldType, a: Value, values: seq<ValueExpr>)
    requires ListedValues(typ, values).Some?
    ensures Among(db, a, ListedValues(typ, values).value) == AnyEqual(db, typ, a, values)
  {
    if values != [] {
      ListedExact(db, typ, a, values[1..]);
    }
  }

  // ----- Text matching -----

  /** Folding commutes with escaping, so a folded pattern is the pattern of the folded text. */
  lemma {:induction false} FoldedEscape(db: Database, v: string)
    requires db.FoldKeepsMeta()
    ensures Fold(db, Like.Escape(v, '\\')) == Like.Escape(Fold(db, v), '\\')
  {
    if v != [] {
      FoldedEscape(db, v[1..]);
      assert Fold(db, v)[1..] == Fold(db, v[1..]);
      var head := if v[0] in ['\\', '%', '_'] then ['\\', v[0]] else [v[0]];
      assert Fold(db, head) == if db.fold(v[0]) in ['\\', '%', '_'] then ['\\', db.fold(v[0])] else [db.fold(v[0])];
      assert Fold(db, head + Like.Escape(v[1..], '\\')) == Fold(db, head) + Fold(db, Like.Escape(v[1..], '\\'));
    }
  }

  lemma TextMatchExact(db: Database, mode: Like.TextMode, v: string, s: string)
    requires db.FoldKeepsMeta()
    ensures Like.Matches(Fold(db, Like.Pattern(mode, v, '\\')), Fold(db, s), '\\') <==>
            Like.TextMatches(mode, Fold(db, v), Fold(db, s))
  {
    FoldedEscape(db, v);
    Like.PatternExact(mode, Fold(db, v), Fold(db, s), '\\');
    var e := Like.Escape(v, '\\');
    assert Fold(db, "%") == "%";
    assert Fold(db, e + "%") == Fold(db, e) + "%";
    assert Fold(db, "%" + e) == "%" + Fold(db, e);
    assert Fold(db, "%" + e + "%") == "%" + Fold(db, e) + "%";
  }

  // ----- Comparisons -----

  lemma NegatedGroup(e: Sql<Param>, db: Database, row: Row)
    requires WellFormed(e)
    ensures IsUnit(Negate(Group(e)))
    ensures Eval(db, row, "", Filled(Negate(Group(e)))) == Not(Eval(db, row, "", Filled(e)))
  {
    assert WellFormed(Group(e));
    assert Filled(Negate(Group(e))) == Negate(Group(Filled(e)));
    assert Eval(db, row, "", Group(Filled(e))) == Eval(db, row, "", Filled(e));
  }

  lemma AtomFilled(t: Template, n: nat, vs: seq<Value>)
    ensures Filled(Leaf(t, Params(n, vs))) == Leaf(t, vs)
  {
    ValuesOfParams(n, vs);
  }

  /** Comparing a JSON flag has the meaning of the condition exactly when the key holds a boolean,
      or the dialect's form happens to read a missing key or a JSON null as false. */
  lemma FlagComparisonExact(d: Dialect, n: nat, f: string, op: CompareOp, v: bool, db: Database, row: Row)
    requires JsonBoolComparison(d, n, f, op, Literal(Bool(v))).Done?
    ensures var shape := JsonBoolComparison(d, n, f, op, Literal(Bool(v))).shape;
      && ShapeIsUnit(shape)
      && (TruthOf(db, row, shape) == OfBool(BoolsOrdered(op, FlagHolds(row, f), v)) <==>
          FlagComparisonFaithful(d, row, f, op, v))
  {
    var shape := JsonBoolComparison(d, n, f, op, Literal(Bool(v))).shape;
    match d
    case SQLite =>
      if f != TASK_LIST {
        assert WellFormed<Param>(Negate(Group(Leaf(JsonIsTrue(f), []))));
        AtomFilled(JsonIsTrue(f), 0, []);
        assert Params(0, []) == [];
        IsTrueExact(f, v == (op == Eq), db, row);
      } else {
        AtomFilled(JsonDigit(f, op, v), n, []);
      }
    case MySQL => AtomFilled(JsonLiteral(f, op, v), n, []);
    case Postgres => AtomFilled(JsonCast(f, op), n, [Bool(v)]);
  }

  /** A comparison that fails: on Postgres `flag == false` is UNKNOWN where the key is absent. */
  lemma AbsentFlagFails(n: nat, f: string, db: Database, row: Row)
    requires row.json(f) == Absent
    ensures var shape := JsonBoolComparison(Postgres, n, f, Eq, Literal(Bool(false))).shape;
      && ShapeIsUnit(shape)
      && TruthOf(db, row, shape) == Unknown
      && OfBool(BoolsOrdered(Eq, FlagHolds(row, f), false)) == True
      && !FlagComparisonFaithful(Postgres, row, f, Eq, false)
  {
    AtomFilled(JsonCast(f, Eq), n, [Bool(false)]);
  }

  lemma IsTrueExact(f: string, wanted: bool, db: Database, row: Row)
    ensures IsUnit(IsTrueTree(f, wanted))
    ensures Eval(db, row, "", Filled(IsTrueTree(f, wanted))) == OfBool(FlagHolds(row, f) == wanted)
  {
    var leaf: Sql<Param> := Leaf(JsonIsTrue(f), []);
    assert Filled(leaf) == Leaf(JsonIsTrue(f), []);
    NegatedGroup(leaf, db, row);
  }

  lemma JsonExistsExact(d: Dialect, f: string, op: CompareOp, rhs: ValueExpr, db: Database, row: Row)
    requires JsonExistsComparison(d, f, op, rhs).Done?
    ensures var shape := JsonExistsComparison(d, f, op, rhs).shape;
      && ShapeIsUnit(shape)
      && TruthOf(db, row, shape) == OfBool(BoolsOrdered(op, JsonPresent(row, f), rhs.v.b))
  {
    var leaf: Sql<Param> := Leaf(ExistsTemplate(d, f), []);
    assert Filled(leaf) == Leaf(ExistsTemplate(d, f), []);
    NegatedGroup(leaf, db, row);
  }

  lemma FieldComparisonExact(d: Dialect, fs: Fields, n: nat, f: string, op: CompareOp, rhs: ValueExpr,
                             db: Database, row: Row)
    requires f in fs && ComparisonTree(d, fs, n, FieldRef(f), op, rhs).Done?
    requires Faithful(d, fs, row, Comparison(FieldRef(f), op, rhs))
    ensures var shape := ComparisonTree(d, fs, n, FieldRef(f), op, rhs).shape;
      && ShapeIsUnit(shape)
      && TruthOf(db, row, shape) == FieldComparisonMeaning(db, fs, row, f, op, LiteralValue(rhs))
  {
    var v := LiteralValue(rhs);
    match fs[f].kind
    case BoolColumn => AtomFilled(FlagCompare(f, op), n, [BoolArg(d, v.b)]);
    case JsonBool =>
      hide TruthOf;
      FlagComparisonExact(d, n, f, op, v.b, db, row);
    case JsonExists =>
      hide TruthOf;
      JsonExistsExact(d, f, op, rhs, db, row);
    case Scalar =>
      hide TruthOf;
      ScalarExact(n, f, fs[f].typ, op, rhs, db, row);
  }

  lemma ScalarExact(n: nat, f: string, typ: FieldType, op: CompareOp, rhs: ValueExpr, db: Database, row: Row)
    requires ScalarComparison(n, f, typ, op, rhs).Done?
    ensures var shape := ScalarComparison(n, f, typ, op, rhs).shape;
      && ShapeIsUnit(shape)
      && TruthOf(db, row, shape) ==
         if rhs.v == Null then OfBool((row.scalar(f) == Null) == (op == Eq))
         else Compare(db, op, row.scalar(f), Coerced(typ, rhs.v))
  {
    AtomFilled(ColumnIsNull(f), n, []);
    AtomFilled(ColumnNotNull(f), n, []);
    AtomFilled(ColumnCompare(f, op), n, [Coerced(typ, rhs.v)]);
  }

  lemma ComparisonExact(d: Dialect, fs: Fields, n: nat, lhs: ValueExpr, op: CompareOp, rhs: ValueExpr,
                        db: Database, row: Row)
    requires ComparisonTree(d, fs, n, lhs, op, rhs).Done?
    requires Faithful(d, fs, row, Comparison(lhs, op, rhs))
    ensures var shape := ComparisonTree(d, fs, n, lhs, op, rhs).shape;
      && ShapeIsUnit(shape)
      && TruthOf(db, row, shape) == ComparisonMeaning(db, fs, row, lhs, op, rhs)
  {
    match lhs
    case FieldRef(f) => FieldComparisonExact(d, fs, n, f, op, rhs, db, row);
    case FunctionCall(_, _) => SizeComparisonExact(d, fs, n, lhs, op, rhs, db, row);
    case FieldAccessor(f, accessor) => AtomFilled(DatePart(f, accessor, op), n, [NumericOperand(rhs)]);
  }

  lemma SizeComparisonExact(d: Dialect, fs: Fields, n: nat, lhs: ValueExpr, op: CompareOp, rhs: ValueExpr,
                            db: Database, row: Row)
    requires lhs.FunctionCall? && SizeComparison(fs, n, lhs.fn, lhs.args, op, rhs).Done?
    ensures var shape := SizeComparison(fs, n, lhs.fn, lhs.args, op, rhs).shape;
      && ShapeIsUnit(shape)
      && TruthOf(db, row, shape) == ComparisonMeaning(db, fs, row, lhs, op, rhs)
  {
    var f := ResolveAlias(fs, lhs.args[0].name).value;
    var v := Int(NumericLiteral(rhs).value);
    assert NumericOperand(rhs) == v;
    AtomFilled(ListSize(f, op), n, [v]);
    AtomFilled(TextLength(f, op), n, [v]);
  }

  // ----- The main theorem -----

  lemma PredicateExact(d: Dialect, fs: Fields, n: nat, f: string, db: Database, row: Row)
    requires PredicateTree(d, fs, n, f).Done?
    ensures f in fs && ShapeIsUnit(PredicateTree(d, fs, n, f).shape)
    ensures TruthOf(db, row, PredicateTree(d, fs, n, f).shape) == FieldPredicateMeaning(fs, row, f)
  {
    AtomFilled(FlagIsTrue(f), n, []);
    AtomFilled(JsonCoalesceTrue(f), n, []);
    AtomFilled(JsonIsTrue(f), n, []);
    AtomFilled(ExistsTemplate(d, f), n, []);
  }

  lemma ElementInExact(d: Dialect, fs: Fields, n: nat, element: ValueExpr, list: string, db: Database, row: Row)
    requires ElementInTree(d, fs, n, element, list).Done?
    ensures ShapeIsUnit(ElementInTree(d, fs, n, element, list).shape)
    ensures TruthOf(db, row, ElementInTree(d, fs, n, element, list).shape)
         == OfBool(LiteralValue(element).Str? && LiteralValue(element).s in TagsOf(row, list))
  {
    MemberExact(d, n, list, element.v.s, db, row);
  }

  lemma TextExact(n: nat, f: string, mode: Like.TextMode, text: string, db: Database, row: Row)
    requires db.FoldKeepsMeta()
    ensures var shape := Atom(ColumnLike(f), n, [Str(Like.Pattern(mode, text, '\\'))]).shape;
      && ShapeIsUnit(shape)
      && TruthOf(db, row, shape) ==
         if row.scalar(f).Str? then OfBool(Like.TextMatches(mode, Fold(db, text), Fold(db, row.scalar(f).s))) else Unknown
  {
    AtomFilled(ColumnLike(f), n, [Str(Like.Pattern(mode, text, '\\'))]);
    if row.scalar(f).Str? {
      TextMatchExact(db, mode, text, row.scalar(f).s);
    }
  }

  lemma RegexExact(n: nat, f: string, pattern: string, db: Database, row: Row)
    ensures var shape := Atom(ColumnRegex(f), n, [Str(pattern)]).shape;
      && ShapeIsUnit(shape)
      && TruthOf(db, row, shape) ==
         if row.scalar(f).Str? then OfBool(db.regex(pattern, row.scalar(f).s)) else Unknown
  {
    AtomFilled(ColumnRegex(f), n, [Str(pattern)]);
  }

  lemma ListExact(d: Dialect, n: nat, list: string, pred: ElementPredicate, kind: ComprehensionKind, db: Database, row: Row)
    ensures var shape := Comprehension(d, n, list, pred, kind).shape;
      && ShapeIsUnit(shape)
      && TruthOf(db, row, shape) == OfBool(ComprehensionHolds(kind, Test(pred), TagsOf(row, list)))
  {
    ComprehensionExact(d, n, list, pred, kind, db, row);
  }

  lemma AtomExact(d: Dialect, fs: Fields, n: nat, c: Condition, db: Database, row: Row)
    requires !c.Logical? && !c.NotCondition? && Tree(d, fs, n, c).Done?
    requires db.FoldKeepsMeta() && Faithful(d, fs, row, c)
    ensures ShapeIsUnit(Tree(d, fs, n, c).shape)
    ensures TruthOf(db, row, Tree(d, fs, n, c).shape) == Meaning(db, fs, row, c)
  {
    match c
    case FieldPredicate(f) =>
      hide PredicateTree, FieldPredicateMeaning;
      PredicateExact(d, fs, n, f, db, row);
    case Comparison(lhs, op, rhs) =>
      hide ComparisonTree, ComparisonMeaning, Faithful;
      ComparisonExact(d, fs, n, lhs, op, rhs, db, row);
    case InValues(_, _) => InExact(d, fs, n, c, db, row);
    case ElementIn(element, list) =>
      hide ElementInTree;
      ElementInExact(d, fs, n, element, list, db, row);
    case TextMatch(f, mode, text) =>
      hide Atom;
      TextExact(n, f, mode, text, db, row);
    case RegexMatch(f, pattern) =>
      hide Atom;
      RegexExact(n, f, pattern, db, row);
    case ListComprehension(kind, list, pred) =>
      hide Comprehension, ComprehensionHolds;
      ListExact(d, n, list, pred, kind, db, row);
    case Constant(_) =>
  }

  lemma InExact(d: Dialect, fs: Fields, n: nat, c: Condition, db: Database, row: Row)
    requires c.InValues? && Tree(d, fs, n, c).Done?
    ensures ShapeIsUnit(Tree(d, fs, n, c).shape)
    ensures TruthOf(db, row, Tree(d, fs, n, c).shape) == Meaning(db, fs, row, c)
  {
    var name, values := c.subject.name, c.values;
    if name == TAG {
      TagInExact(d, fs, n, values, db, row);
    } else {
      ListedExact(db, fs[name].typ, row.scalar(name), values);
      var vs := ListedValues(fs[name].typ, values).value;
      AtomFilled(ColumnIn(name, |vs|), n, vs);
    }
  }

  /** On every row, the rendered SQL has exactly the three-valued meaning of the condition:
      a trivial result stands for TRUE and an unsatisfiable one for FALSE. */
  lemma {:induction false} RenderPreservesMeaning(d: Dialect, fs: Fields, n: nat, c: Condition, db: Database, row: Row)
    requires Tree(d, fs, n, c).Done?
    requires db.FoldKeepsMeta() && Faithful(d, fs, row, c)
    ensures ShapeIsUnit(Tree(d, fs, n, c).shape)
    ensures TruthOf(db, row, Tree(d, fs, n, c).shape) == Meaning(db, fs, row, c)
    decreases c
  {
    match c
    case Logical(op, l, r) =>
      var left := Tree(d, fs, n, l);
      var right := Tree(d, fs, n + |left.args|, r);
      RenderPreservesMeaning(d, fs, n, l, db, row);
      RenderPreservesMeaning(d, fs, n + |left.args|, r, db, row);
      CombinedIsUnit(left.shape, right.shape);
      CombinedExact(left.shape, right.shape, db, row);
    case NotCondition(x) =>
      RenderPreservesMeaning(d, fs, n, x, db, row);
      CombinedIsUnit(Tree(d, fs, n, x).shape, Always);
      CombinedExact(Tree(d, fs, n, x).shape, Always, db, row);
    case _ => AtomExact(d, fs, n, c, db, row);
  }

  /** Pruning keeps the value of the connective it simplifies. */
  lemma CombinedExact(l: Shape, r: Shape, db: Database, row: Row)
    requires ShapeIsUnit(l) && ShapeIsUnit(r)
    requires ShapeIsUnit(AndShape(l, r)) && ShapeIsUnit(OrShape(l, r)) && ShapeIsUnit(NotShape(l))
    ensures TruthOf(db, row, AndShape(l, r)) == And(TruthOf(db, row, l), TruthOf(db, row, r))
    ensures TruthOf(db, row, OrShape(l, r)) == Or(TruthOf(db, row, l), TruthOf(db, row, r))
    ensures TruthOf(db, row, NotShape(l)) == Not(TruthOf(db, row, l))
  {
    if l.Plain? && r.Plain? {
      assert Eval(db, row, "", Binary(AndOp, Filled(l.e), Filled(r.e))) == And(TruthOf(db, row, l), TruthOf(db, row, r));
      assert Eval(db, row, "", Binary(OrOp, Filled(l.e), Filled(r.e))) == Or(TruthOf(db, row, l), TruthOf(db, row, r));
      assert Filled(Group(Binary(AndOp, l.e, r.e))) == Group(Binary(AndOp, Filled(l.e), Filled(r.e)));
      assert Filled(Group(Binary(OrOp, l.e, r.e))) == Group(Binary(OrOp, Filled(l.e), Filled(r.e)));
    }
    if l.Plain? {
      NegatedGroup(l.e, db, row);
    }
  }
}
