/** Appending compiled filters to the WHERE clauses and arguments of a query. */
module Queries {
  import opened Kleene
  import opened Outcomes
  import opened Schema
  import opened SqlText
  import opened SqlEval
  import opened ConditionTree
  import opened Compile
  import opened RenderMeaning
  import opened Binding
  import opened Statements
  import opened CelExpr
  import opened CelParser
  import opened CelMeaning
  import opened CelProofs
  import Rendering

  type Sentence = seq<Token<Placeholder>>

  // ----- Moving a statement behind other arguments -----

  /** The condition with every placeholder moved k arguments further. */
  function Moved(e: Sql<Param>, k: nat): (r: Sql<Param>)
    ensures WellFormed(e) ==> WellFormed(r)
    ensures Level(r) == Level(e)
  {
    match e
    case Leaf(t, ps) => Leaf(t, MovedParams(ps, k))
    case Negate(x) => Negate(Moved(x, k))
    case Binary(op, l, r) => Binary(op, Moved(l, k), Moved(r, k))
    case Group(x) => Group(Moved(x, k))
    case Exists(list, x) => Exists(list, Moved(x, k))
    case Count(list, x, test) => Count(list, Moved(x, k), test)
  }

  function MovedParams(ps: seq<Param>, k: nat): (r: seq<Param>)
    ensures |r| == |ps| && forall i {:trigger r[i]} :: 0 <= i < |ps| ==> r[i] == Param(ps[i].slot + k, ps[i].v)
  {
    seq(|ps|, i requires 0 <= i < |ps| => Param(ps[i].slot + k, ps[i].v))
  }

  lemma {:induction false} MovedText(d: Dialect, k: nat, e: Sql<Param>)
    ensures Emit(d, 0, Print(Moved(e, k))) == Emit(d, k, Print(e))
  {
    match e
    case Leaf(t, ps) =>
      Rendering.EmitLeaf(d, 0, t, MovedParams(ps, k));
      Rendering.EmitLeaf(d, k, t, ps);
    case Negate(x) =>
      MovedText(d, k, x);
      Rendering.EmitGroup(d, 0, Moved(x, k));
      Rendering.EmitGroup(d, k, x);
    case Binary(op, l, r) =>
      MovedText(d, k, l);
      MovedText(d, k, r);
      Rendering.EmitBinary(d, 0, op, Moved(l, k), Moved(r, k));
      Rendering.EmitBinary(d, k, op, l, r);
    case Group(x) =>
      MovedText(d, k, x);
      Rendering.EmitGroup(d, 0, Moved(x, k));
      Rendering.EmitGroup(d, k, x);
    case Exists(list, x) =>
      MovedText(d, k, x);
      Rendering.EmitSubquery(d, 0, list, Moved(x, k), One);
      Rendering.EmitSubquery(d, k, list, x, One);
    case Count(list, x, test) =>
      MovedText(d, k, x);
      Rendering.EmitSubquery(d, 0, list, Moved(x, k), test);
      Rendering.EmitSubquery(d, k, list, x, test);
  }

  lemma {:induction false} MovedKeeps(d: Dialect, k: nat, e: Sql<Param>)
    ensures ParamsOf(Moved(e, k)) == MovedParams(ParamsOf(e), k)
    ensures Filled(Moved(e, k)) == Filled(e)
    ensures AcceptsAll(d, Moved(e, k)) == AcceptsAll(d, e)
  {
    match e
    case Leaf(t, ps) => assert Values(MovedParams(ps, k)) == Values(ps);
    case Negate(x) => MovedKeeps(d, k, x);
    case Binary(op, l, r) => MovedKeeps(d, k, l); MovedKeeps(d, k, r);
    case Group(x) => MovedKeeps(d, k, x);
    case Exists(_, x) => MovedKeeps(d, k, x);
    case Count(_, x, _) => MovedKeeps(d, k, x);
  }

  // ----- Empty IN lists -----

  /** An empty list of column values survives in the rendered text. */
  predicate KeepsEmptyList(c: Condition) {
    if Verdict(c).Some? then false
    else match c
      case Logical(_, l, r) => KeepsEmptyList(l) || KeepsEmptyList(r)
      case NotCondition(x) => KeepsEmptyList(x)
      case InValues(FieldRef(name), values) => name != TAG && values == []
      case _ => false
  }

  ghost predicate ShapeAccepted(d: Dialect, s: Shape) {
    s.Plain? ==> AcceptsAll(d, s.e)
  }

  lemma {:induction false} MembersAccepted(d: Dialect, n: nat, list: string, vs: seq<string>)
    requires vs != []
    ensures AcceptsAll(d, AnyMemberTree(d, n, list, vs))
    decreases |vs|
  {
    if |vs| > 1 {
      MembersAccepted(d, n, list, vs[..|vs| - 1]);
    }
  }

  lemma AtomAccepted(d: Dialect, fs: Fields, n: nat, c: Condition)
    requires !c.Logical? && !c.NotCondition? && Tree(d, fs, n, c).Done?
    ensures ShapeAccepted(d, Tree(d, fs, n, c).shape) <==> d == SQLite || !KeepsEmptyList(c)
  {
    match c
    case InValues(subject, values) =>
      if subject.name == TAG && values != [] {
        MembersAccepted(d, n, ResolveAlias(fs, TAG).value, Texts(values).value);
      }
    case ListComprehension(kind, list, pred) => ComprehensionAccepted(d, n, list, pred, kind);
    case ElementIn(element, list) => ComprehensionAccepted(d, n, list, EqualsText(element.v.s), SomeElement);
    case Comparison(_, _, _) =>
      hide ComparisonTree;
      ComparisonAccepted(d, fs, n, c);
    case FieldPredicate(_) =>
    case TextMatch(_, _, _) =>
    case RegexMatch(_, _) =>
    case Constant(_) =>
  }

  lemma ComparisonAccepted(d: Dialect, fs: Fields, n: nat, c: Condition)
    requires c.Comparison? && Tree(d, fs, n, c).Done?
    ensures ShapeAccepted(d, ComparisonTree(d, fs, n, c.lhs, c.cmp, c.rhs).shape)
  {
    if c.lhs.FieldRef? {
      GroupAccepted(d, Leaf(JsonIsTrue(c.lhs.name), []));
      GroupAccepted(d, Leaf(ExistsTemplate(d, c.lhs.name), []));
    }
  }

  lemma GroupAccepted(d: Dialect, e: Sql<Param>)
    ensures AcceptsAll(d, Negate(Group(e))) == AcceptsAll(d, e)
  {
    assert AcceptsAll(d, Group(e)) == AcceptsAll(d, e);
  }

  lemma ComprehensionAccepted(d: Dialect, n: nat, list: string, pred: ElementPredicate, kind: ComprehensionKind)
    ensures AcceptsAll(d, ComprehensionTree(d, list, kind, ElementTree(d, n, pred).0))
  {
    var e := ElementTree(d, n, pred).0;
    GroupAccepted(d, e);
    var none := NoMatchTree(d, list, Negate(Group(e)));
    assert d == MySQL || AcceptsAll(d, Exists(list, Negate(Group(e))));
    assert AcceptsAll(d, Count(list, Negate(Group(e)), Zero));
    assert AcceptsAll(d, none);
    assert AcceptsAll(d, Binary(AndOp, Leaf(ListNotEmpty(list), []), none));
  }

  /** Outside SQLite the text of a condition is refused exactly when it keeps an empty list. */
  lemma {:induction false} RenderedAccepted(d: Dialect, fs: Fields, n: nat, c: Condition)
    requires Tree(d, fs, n, c).Done?
    ensures ShapeAccepted(d, Tree(d, fs, n, c).shape) <==> d == SQLite || !KeepsEmptyList(c)
    decreases c
  {
    RenderedParams(d, fs, n, c);
    match c
    case Logical(_, l, r) =>
      RenderedAccepted(d, fs, n, l);
      var left := Tree(d, fs, n, l);
      RenderedAccepted(d, fs, n + |left.args|, r);
      RenderedParams(d, fs, n, l);
      RenderedParams(d, fs, n + |left.args|, r);
      CombinedAccepted(d, left.shape, Tree(d, fs, n + |left.args|, r).shape);
    case NotCondition(x) =>
      RenderedAccepted(d, fs, n, x);
      RenderedParams(d, fs, n, x);
      CombinedAccepted(d, Tree(d, fs, n, x).shape, Always);
    case _ => AtomAccepted(d, fs, n, c);
  }

  lemma CombinedAccepted(d: Dialect, l: Shape, r: Shape)
    ensures ShapeAccepted(d, NotShape(l)) == ShapeAccepted(d, l)
    ensures !l.Never? && !r.Never? ==> ShapeAccepted(d, AndShape(l, r)) == (ShapeAccepted(d, l) && ShapeAccepted(d, r))
    ensures !l.Always? && !r.Always? ==> ShapeAccepted(d, OrShape(l, r)) == (ShapeAccepted(d, l) && ShapeAccepted(d, r))
  {
    if l.Plain? {
      GroupAccepted(d, l.e);
      if r.Plain? {
        assert AcceptsAll(d, Binary(AndOp, l.e, r.e)) == AcceptsAll(d, Binary(OrOp, l.e, r.e)) ==
               (AcceptsAll(d, l.e) && AcceptsAll(d, r.e));
      }
    }
  }

  // ----- The query under construction -----

  datatype Query = Query(where: seq<Sentence>, args: seq<Value>)

  function CompileToStatement(fs: Fields, clock: Clock, d: Dialect, offset: nat, filter: Expr): Option<Statement> {
    match Build(fs, clock, filter)
    case None => None
    case Some(c) => StatementOf(d, fs, offset, c)
  }

  function WithStatement(q: Query, s: Statement): Query {
    if s.sql == [] then q else Query(q.where + [[Open] + s.sql + [Close]], q.args + s.args)
  }

  /** The query after all filters, and whether each of them compiled; the first failure stops. */
  function Appended(fs: Fields, clock: Clock, d: Dialect, q: Query, filters: seq<Expr>): (bool, Query)
    decreases |filters|
  {
    if filters == [] then (true, q)
    else match CompileToStatement(fs, clock, d, |q.args|, filters[0])
      case None => (false, q)
      case Some(s) => Appended(fs, clock, d, WithStatement(q, s), filters[1..])
  }

  /** The two slices that the caller hands over by reference. */
  class QueryParts {
    var where: seq<Sentence>
    var args: seq<Value>

    function Contents(): Query
      reads this
    {
      Query(where, args)
    }

    method AppendConditions(fields: Fields, clock: Clock, dialect: Dialect, filters: seq<Expr>) returns (ok: bool)
      modifies this
      ensures (ok, Contents()) == Appended(fields, clock, dialect, old(Contents()), filters)
    {
      for i := 0 to |filters|
        invariant Appended(fields, clock, dialect, Contents(), filters[i..]) ==
                  Appended(fields, clock, dialect, old(Contents()), filters)
      {
        assert filters[i..][1..] == filters[i + 1..];
        var condition := Build(fields, clock, filters[i]);
        if condition.None? {
          return false;
        }
        var renderer := new Rendering.Renderer(fields, dialect, |args|);
        var statement := renderer.Render(condition.value);
        if statement.None? {
          return false;
        }
        if statement.value.sql == [] {
          continue;
        }
        where := where + [[Open] + statement.value.sql + [Close]];
        args := args + statement.value.args;
      }
      return true;
    }
  }

  // ----- What the query selects -----

  /** The clauses joined by AND, as the drivers join them. */
  function JoinAnd(where: seq<Sentence>): Sentence {
    if where == [] then []
    else if |where| == 1 then where[0]
    else JoinAnd(where[..|where| - 1]) + [AndWord] + where[|where| - 1]
  }

  /** The query's text is the condition e, whose placeholders hold arguments of the query, and
      all of them exactly when `paired` holds. */
  ghost predicate Denotes(d: Dialect, q: Query, e: Sql<Param>, paired: bool) {
    && q.where != [] && JoinAnd(q.where) == Emit(d, 0, Print(e))
    && WellFormed(e) && Level(e) >= 1
    && HoldsArgs(ParamsOf(e), q.args, paired)
  }

  /** The placeholders receive the values they were minted for. */
  predicate BoundAsMinted(d: Dialect, ps: seq<Param>, args: seq<Value>, paired: bool) {
    if d == SQLite then Values(ps) <= args else paired
  }

  /** Executing such a query evaluates the condition if its placeholders receive what they were minted
      for and the dialect has syntax for all of it. Otherwise it is an error, but that SQLite binds the
      leading arguments all the same. */
  lemma DenotedExecutes(d: Dialect, q: Query, e: Sql<Param>, paired: bool, db: Database, row: Row)
    requires Denotes(d, q, e, paired)
    ensures BoundAsMinted(d, ParamsOf(e), q.args, paired) ==>
      Execute(d, db, row, JoinAnd(q.where), q.args) == if AcceptsAll(d, e) then Some(Eval(db, row, "", Filled(e))) else None
    ensures !BoundAsMinted(d, ParamsOf(e), q.args, paired) && d != SQLite ==>
      Execute(d, db, row, JoinAnd(q.where), q.args) == None
    ensures paired ==> Values(ParamsOf(e)) == q.args
    ensures d == SQLite ==> LeadingBound(q, Values(ParamsOf(e)))
  {
    hide Bind, Parse, HoldsArgs, BindLeading;
    HolesOfPrint(e);
    IntendedIsFilled(e);
    FilledAccepts(d, e);
    PrintParse(d, Filled(e));
    BindsIffPaired(d, Print(e), q.args, paired);
    if d == SQLite {
      LeadingBinds(Print(e), q.args);
    }
  }

  /** SQLite gives the placeholders minted for these values the leading arguments of the query. */
  predicate LeadingBound(q: Query, values: seq<Value>) {
    var bound := Bind(SQLite, JoinAnd(q.where), q.args);
    |values| <= |q.args| && bound.Some? && HolesIn(bound.value) == q.args[..|values|]
  }

  /** What one filter adds to the condition of the query. */
  function Extended(e: Sql<Param>, k: nat, s: Shape): Sql<Param> {
    match s
    case Always => e
    case Never => Binary(AndOp, e, Group(Leaf(Falsehood, [])))
    case Plain(f) => Binary(AndOp, e, Group(Moved(f, k)))
  }

  /** A filter leaves the placeholders paired: it is decided TRUE, and skipped with its
      arguments, or no part of it that constants decide bears an argument. */
  predicate KeepsPairing(d: Dialect, fs: Fields, c: Condition) {
    Verdict(c) == Some(true) || NoArgumentDropped(d, fs, c)
  }

  lemma JoinAndAppend(where: seq<Sentence>, s: Sentence)
    requires where != []
    ensures JoinAnd(where + [s]) == JoinAnd(where) + [AndWord] + s
  {
    assert (where + [s])[..|where|] == where;
  }

  lemma ParamsAppended(ps: seq<Param>, a: seq<Value>, paired: bool, qs: seq<Param>, b: seq<Value>, kept: bool)
    requires HoldsArgs(ps, a, paired) && MintedFrom(qs, 0, b)
    requires if kept then qs == Params(0, b) else |qs| < |b|
    ensures HoldsArgs(ps + MovedParams(qs, |a|), a + b, paired && kept)
  {
    assert MintedFrom(ps + MovedParams(qs, |a|), 0, a + b) by {
      MovedMinted(qs, |a|, b);
      MintedConcat(ps, MovedParams(qs, |a|), 0, a, b);
    }
    if paired && kept {
      AllAppended(a, b);
    }
  }

  lemma AllAppended(a: seq<Value>, b: seq<Value>)
    ensures Params(0, a) + MovedParams(Params(0, b), |a|) == Params(0, a + b)
  {
    ParamsSplit(0, a, b);
    assert MovedParams(Params(0, b), |a|) == Params(|a|, b);
  }

  lemma MovedMinted(qs: seq<Param>, k: nat, b: seq<Value>)
    requires MintedFrom(qs, 0, b)
    ensures MintedFrom(MovedParams(qs, k), k, b)
  {
    var moved := MovedParams(qs, k);
    forall i | 0 <= i < |moved|
      ensures k <= moved[i].slot < k + |b| && b[moved[i].slot - k] == moved[i].v
    {
      assert moved[i].slot == qs[i].slot + k && moved[i].v == qs[i].v;
    }
  }

  lemma TextAppended(d: Dialect, where: seq<Sentence>, e: Sql<Param>, k: nat, f: Sql<Param>)
    requires where != [] && JoinAnd(where) == Emit(d, 0, Print(e))
    ensures JoinAnd(where + [[Open] + Emit(d, k, Print(f)) + [Close]]) ==
            Emit(d, 0, Print(Binary(AndOp, e, Group(Moved(f, k)))))
  {
    var g := Moved(f, k);
    MovedText(d, k, f);
    Rendering.EmitGroup(d, 0, g);
    Rendering.EmitBinary(d, 0, AndOp, e, Group(g));
    JoinAndAppend(where, [Open] + Emit(d, k, Print(f)) + [Close]);
  }

  /** Conjoining a group of its own placeholders extends the denoted condition. */
  lemma ConjunctAppended(d: Dialect, q: Query, e: Sql<Param>, paired: bool, f: Sql<Param>, args: seq<Value>, kept: bool)
    requires Denotes(d, q, e, paired) && WellFormed(f)
    requires MintedFrom(ParamsOf(f), 0, args)
    requires if kept then ParamsOf(f) == Params(0, args) else |ParamsOf(f)| < |args|
    ensures Denotes(d, Query(q.where + [[Open] + Emit(d, |q.args|, Print(f)) + [Close]], q.args + args),
                    Binary(AndOp, e, Group(Moved(f, |q.args|))), paired && kept)
  {
    var g := Moved(f, |q.args|);
    MovedKeeps(d, |q.args|, f);
    TextAppended(d, q.where, e, |q.args|, f);
    ParamsAppended(ParamsOf(e), q.args, paired, ParamsOf(f), args, kept);
    assert ParamsOf(Group(g)) == ParamsOf(g);
    assert ParamsOf(Binary(AndOp, e, Group(g))) == ParamsOf(e) + ParamsOf(g);
    assert WellFormed(Group(g)) && Level(Group(g)) == 2;
  }

  lemma FilterAppended(d: Dialect, fs: Fields, q: Query, e: Sql<Param>, paired: bool, c: Condition)
    requires Denotes(d, q, e, paired) && Tree(d, fs, 0, c).Done?
    ensures var s := StatementOf(d, fs, |q.args|, c).value;
            Denotes(d, WithStatement(q, s), Extended(e, |q.args|, Tree(d, fs, 0, c).shape),
                    paired && KeepsPairing(d, fs, c))
  {
    hide Denotes, MintedFrom, NoArgumentDropped, BearsArgument, Verdict, Tree, ShapeStatement, Extended, WithStatement;
    var out := Tree(d, fs, 0, c);
    RenderedParams(d, fs, 0, c);
    RenderedIsUnit(d, fs, 0, c);
    ShapeAppended(d, q, e, paired, out.shape, out.args, KeepsPairing(d, fs, c));
  }

  lemma ShapeAppended(d: Dialect, q: Query, e: Sql<Param>, paired: bool, s: Shape, args: seq<Value>, kept: bool)
    requires Denotes(d, q, e, paired) && ShapeIsUnit(s) && MintedFrom(ShapeParams(s), 0, args)
    requires s.Always? ==> kept
    requires s.Never? ==> (kept <==> args == [])
    requires s.Plain? ==> if kept then ParamsOf(s.e) == Params(0, args) else |ParamsOf(s.e)| < |args|
    ensures Denotes(d, WithStatement(q, ShapeStatement(d, |q.args|, s, args)), Extended(e, |q.args|, s), paired && kept)
  {
    hide Denotes, MintedFrom;
    match s
    case Always =>
    case Never => NeverAppended(d, q, e, paired, args);
    case Plain(f) => ConjunctAppended(d, q, e, paired, f, args, kept);
  }

  lemma NeverAppended(d: Dialect, q: Query, e: Sql<Param>, paired: bool, args: seq<Value>)
    requires Denotes(d, q, e, paired)
    ensures Denotes(d, WithStatement(q, Statement([Text(Falsehood)], args)), Extended(e, |q.args|, Never), paired && args == [])
  {
    var no: Sql<Param> := Leaf(Falsehood, []);
    Rendering.EmitLeaf(d, |q.args|, Falsehood, []);
    assert Emit(d, |q.args|, Print(no)) == [Text(Falsehood)];
    assert Moved(no, |q.args|) == no;
    ConjunctAppended(d, q, e, paired, no, args, args == []);
  }

  // ----- The whole list of filters -----

  predicate AllCompile(fs: Fields, clock: Clock, d: Dialect, filters: seq<Expr>) {
    forall i :: 0 <= i < |filters| ==> Compiles(fs, clock, d, filters[i])
  }

  predicate Compiles(fs: Fields, clock: Clock, d: Dialect, filter: Expr) {
    Build(fs, clock, filter).Some? && Tree(d, fs, 0, Build(fs, clock, filter).value).Done?
  }

  /** No argument of the filter is dropped. */
  predicate Paired(fs: Fields, clock: Clock, d: Dialect, filter: Expr)
    requires Compiles(fs, clock, d, filter)
  {
    KeepsPairing(d, fs, Build(fs, clock, filter).value)
  }

  /** The dialect has syntax for the text of the filter. */
  predicate Accepted(fs: Fields, clock: Clock, d: Dialect, filter: Expr)
    requires Compiles(fs, clock, d, filter)
  {
    d == SQLite || !KeepsEmptyList(Build(fs, clock, filter).value)
  }

  predicate AllPaired(fs: Fields, clock: Clock, d: Dialect, filters: seq<Expr>)
    requires AllCompile(fs, clock, d, filters)
  {
    forall i :: 0 <= i < |filters| ==> Paired(fs, clock, d, filters[i])
  }

  predicate AllAccepted(fs: Fields, clock: Clock, d: Dialect, filters: seq<Expr>)
    requires AllCompile(fs, clock, d, filters)
  {
    forall i :: 0 <= i < |filters| ==> Accepted(fs, clock, d, filters[i])
  }

  /** A filter that the query can carry. */
  predicate Carried(fs: Fields, clock: Clock, d: Dialect, filter: Expr)
    requires Compiles(fs, clock, d, filter)
  {
    Paired(fs, clock, d, filter) && Accepted(fs, clock, d, filter)
  }

  predicate AllCarried(fs: Fields, clock: Clock, d: Dialect, filters: seq<Expr>)
    requires AllCompile(fs, clock, d, filters)
  {
    forall i :: 0 <= i < |filters| ==> Carried(fs, clock, d, filters[i])
  }

  /** The conjunction of the filters' meanings. */
  ghost function AllMeanings(db: Database, fs: Fields, clock: Clock, row: Row, filters: seq<Expr>): Truth {
    if filters == [] then True
    else And(CelTruth(db, fs, clock, row, filters[0]), AllMeanings(db, fs, clock, row, filters[1..]))
  }

  ghost predicate ServerFit(db: Database) {
    db.FoldKeepsMeta() && OrdersMirror(db)
  }

  /** The renderer and the parser are faithful to the filter on this row. */
  ghost predicate ExactOn(fs: Fields, clock: Clock, d: Dialect, row: Row, filter: Expr)
    requires Compiles(fs, clock, d, filter)
  {
    BuildsExactly(fs, clock, row, filter) && Faithful(d, fs, row, Build(fs, clock, filter).value)
  }

  lemma ExtendedMeaning(d: Dialect, fs: Fields, clock: Clock, db: Database, row: Row, e: Sql<Param>, k: nat, filter: Expr)
    requires WellFormed(e) && Level(e) >= 1 && ServerFit(db)
    requires Compiles(fs, clock, d, filter) && ExactOn(fs, clock, d, row, filter)
    ensures var x := Extended(e, k, Tree(d, fs, 0, Build(fs, clock, filter).value).shape);
      && WellFormed(x)
      && Eval(db, row, "", Filled(x)) == And(Eval(db, row, "", Filled(e)), CelTruth(db, fs, clock, row, filter))
      && (AcceptsAll(d, x) <==> AcceptsAll(d, e) && Accepted(fs, clock, d, filter))
  {
    hide Tree, Build, Eval, Filled, Extended, CelTruth, Meaning, AcceptsAll, KeepsEmptyList, ShapeAccepted, BuildsExactly, Faithful,
      ParamsAgree, WellFormed;
    var c := Build(fs, clock, filter).value;
    BuildPreservesMeaning(d, fs, clock, 0, db, row, filter, c);
    RenderPreservesMeaning(d, fs, 0, c, db, row);
    RenderedAccepted(d, fs, 0, c);
    RenderedParams(d, fs, 0, c);
    ShapeConjoined(d, db, row, e, k, Tree(d, fs, 0, c).shape);
  }

  lemma ShapeConjoined(d: Dialect, db: Database, row: Row, e: Sql<Param>, k: nat, s: Shape)
    requires WellFormed(e) && Level(e) >= 1 && ShapeIsUnit(s)
    ensures var x := Extended(e, k, s);
      && WellFormed(x)
      && Eval(db, row, "", Filled(x)) == And(Eval(db, row, "", Filled(e)), TruthOf(db, row, s))
      && (AcceptsAll(d, x) <==> AcceptsAll(d, e) && ShapeAccepted(d, s))
  {
    match s
    case Always => AndAssociates(Eval(db, row, "", Filled(e)), True, True);
    case Never =>
      var no: Sql<Param> := Leaf(Falsehood, []);
      assert Filled(no) == Leaf(Falsehood, []);
      GroupConjoined(d, db, row, e, no);
    case Plain(f) =>
      MovedKeeps(d, k, f);
      GroupConjoined(d, db, row, e, Moved(f, k));
  }

  lemma GroupConjoined(d: Dialect, db: Database, row: Row, e: Sql<Param>, f: Sql<Param>)
    requires WellFormed(e) && Level(e) >= 1 && WellFormed(f)
    ensures var x := Binary(AndOp, e, Group(f));
      && WellFormed(x)
      && Eval(db, row, "", Filled(x)) == And(Eval(db, row, "", Filled(e)), Eval(db, row, "", Filled(f)))
      && (AcceptsAll(d, x) <==> AcceptsAll(d, e) && AcceptsAll(d, f))
  {
    assert WellFormed(Group(f)) && AcceptsAll(d, Group(f)) == AcceptsAll(d, f);
    assert Filled(Group(f)) == Group(Filled(f));
    assert Eval(db, row, "", Group(Filled(f))) == Eval(db, row, "", Filled(f));
    assert Filled(Binary(AndOp, e, Group(f))) == Binary(AndOp, Filled(e), Group(Filled(f)));
  }

  lemma AndAssociates(a: Truth, b: Truth, c: Truth)
    ensures And(And(a, b), c) == And(a, And(b, c))
    ensures And(a, True) == a
  {}

  ghost predicate AllExactOn(fs: Fields, clock: Clock, d: Dialect, row: Row, filters: seq<Expr>)
    requires AllCompile(fs, clock, d, filters)
  {
    forall i :: 0 <= i < |filters| ==> ExactOn(fs, clock, d, row, filters[i])
  }

  /** The values that the undecided parts of the filters mint, in order. */
  function AllSurviving(fs: Fields, clock: Clock, d: Dialect, filters: seq<Expr>): seq<Value>
    requires AllCompile(fs, clock, d, filters)
    decreases |filters|
  {
    if filters == [] then []
    else
      assert Compiles(fs, clock, d, filters[0]);
      Surviving(d, fs, 0, Build(fs, clock, filters[0]).value) + AllSurviving(fs, clock, d, filters[1..])
  }

  lemma FiltersSplit(d: Dialect, fs: Fields, clock: Clock, row: Row, filters: seq<Expr>)
    requires filters != [] && AllCompile(fs, clock, d, filters)
    ensures Compiles(fs, clock, d, filters[0]) && AllCompile(fs, clock, d, filters[1..])
    ensures AllPaired(fs, clock, d, filters) <==>
            Paired(fs, clock, d, filters[0]) && AllPaired(fs, clock, d, filters[1..])
    ensures AllAccepted(fs, clock, d, filters) <==>
            Accepted(fs, clock, d, filters[0]) && AllAccepted(fs, clock, d, filters[1..])
    ensures AllExactOn(fs, clock, d, row, filters) <==>
            ExactOn(fs, clock, d, row, filters[0]) && AllExactOn(fs, clock, d, row, filters[1..])
  {
    hide Compiles, Paired, Accepted, ExactOn;
    assert Compiles(fs, clock, d, filters[0]);
    var rest := filters[1..];
    assert forall i :: 0 <= i < |rest| ==> rest[i] == filters[i + 1];
    assert forall i :: 0 < i < |filters| ==> filters[i] == rest[i - 1];
  }

  /** The condition of the query after all filters; `k` arguments stand before those of the first. */
  function AllExtended(fs: Fields, clock: Clock, d: Dialect, e: Sql<Param>, k: nat, filters: seq<Expr>): Sql<Param>
    requires AllCompile(fs, clock, d, filters)
    decreases |filters|
  {
    if filters == [] then e
    else
      assert Compiles(fs, clock, d, filters[0]);
      var out := Tree(d, fs, 0, Build(fs, clock, filters[0]).value);
      var next := if out.shape.Always? then k else k + |out.args|;
      AllExtended(fs, clock, d, Extended(e, k, out.shape), next, filters[1..])
  }

  lemma ExtendedValues(d: Dialect, fs: Fields, e: Sql<Param>, k: nat, c: Condition)
    requires Tree(d, fs, 0, c).Done?
    ensures Values(ParamsOf(Extended(e, k, Tree(d, fs, 0, c).shape))) == Values(ParamsOf(e)) + Surviving(d, fs, 0, c)
  {
    hide Tree, Surviving;
    SurvivingValues(d, fs, 0, c);
    match Tree(d, fs, 0, c).shape
    case Always =>
    case Never => NoParams(e);
    case Plain(f) =>
      MovedKeeps(d, k, f);
      MovedValues(e, f, k);
  }

  lemma NoParams(e: Sql<Param>)
    ensures Values(ParamsOf(Binary(AndOp, e, Group(Leaf(Falsehood, []))))) == Values(ParamsOf(e)) + []
  {
    assert ParamsOf(Group(Leaf(Falsehood, []))) == [];
  }

  lemma MovedValues(e: Sql<Param>, f: Sql<Param>, k: nat)
    requires ParamsOf(Moved(f, k)) == MovedParams(ParamsOf(f), k)
    ensures Values(ParamsOf(Binary(AndOp, e, Group(Moved(f, k))))) == Values(ParamsOf(e)) + Values(ParamsOf(f))
  {
    assert ParamsOf(Group(Moved(f, k))) == MovedParams(ParamsOf(f), k);
    assert Values(MovedParams(ParamsOf(f), k)) == Values(ParamsOf(f));
    ValuesConcat(ParamsOf(e), MovedParams(ParamsOf(f), k));
  }

  lemma ArgsAppended(d: Dialect, fs: Fields, q: Query, c: Condition)
    requires Tree(d, fs, 0, c).Done?
    ensures var out := Tree(d, fs, 0, c);
      |WithStatement(q, StatementOf(d, fs, |q.args|, c).value).args| ==
      if out.shape.Always? then |q.args| else |q.args| + |out.args|
  {
    hide Tree;
    var s := Tree(d, fs, 0, c).shape;
    if s.Plain? {
      assert |Emit(d, |q.args|, Print(s.e))| > 0;
    }
  }

  lemma AppendedStep(d: Dialect, fs: Fields, clock: Clock, q: Query, filters: seq<Expr>)
    requires filters != [] && Compiles(fs, clock, d, filters[0])
    ensures var c := Build(fs, clock, filters[0]).value;
      && StatementOf(d, fs, |q.args|, c).Some?
      && Appended(fs, clock, d, q, filters) ==
         Appended(fs, clock, d, WithStatement(q, StatementOf(d, fs, |q.args|, c).value), filters[1..])
  {}

  /** Appending the filters leads to a query that denotes the extended condition. */
  lemma {:induction false} FiltersAppended(d: Dialect, fs: Fields, clock: Clock, q: Query, e: Sql<Param>, paired: bool,
                                           filters: seq<Expr>, row: Row)
    requires Denotes(d, q, e, paired) && AllCompile(fs, clock, d, filters)
    ensures var (ok, after) := Appended(fs, clock, d, q, filters);
      var x := AllExtended(fs, clock, d, e, |q.args|, filters);
      && ok
      && Denotes(d, after, x, paired && AllPaired(fs, clock, d, filters))
      && Values(ParamsOf(x)) == Values(ParamsOf(e)) + AllSurviving(fs, clock, d, filters)
    decreases |filters|
  {
    hide Denotes, Tree, Build, Paired, ExactOn, Accepted, Extended, WithStatement, StatementOf, Surviving, ParamsOf;
    if filters != [] {
      FiltersSplit(d, fs, clock, row, filters);
      AppendedStep(d, fs, clock, q, filters);
      var c := Build(fs, clock, filters[0]).value;
      var q1 := WithStatement(q, StatementOf(d, fs, |q.args|, c).value);
      var next := Extended(e, |q.args|, Tree(d, fs, 0, c).shape);
      PairedIsKept(fs, clock, d, filters[0]);
      FilterAppended(d, fs, q, e, paired, c);
      ExtendedValues(d, fs, e, |q.args|, c);
      ArgsAppended(d, fs, q, c);
      FiltersAppended(d, fs, clock, q1, next, paired && KeepsPairing(d, fs, c), filters[1..], row);
      assert Values(ParamsOf(e)) + Surviving(d, fs, 0, c) + AllSurviving(fs, clock, d, filters[1..]) ==
             Values(ParamsOf(e)) + (Surviving(d, fs, 0, c) + AllSurviving(fs, clock, d, filters[1..]));
    }
  }

  lemma PairedIsKept(fs: Fields, clock: Clock, d: Dialect, filter: Expr)
    requires Compiles(fs, clock, d, filter)
    ensures Tree(d, fs, 0, Build(fs, clock, filter).value).Done?
    ensures Paired(fs, clock, d, filter) == KeepsPairing(d, fs, Build(fs, clock, filter).value)
  {}

  /** The extended condition means the conjunction of the filters' meanings. */
  lemma {:induction false} FiltersMean(d: Dialect, fs: Fields, clock: Clock, db: Database, row: Row,
                                       e: Sql<Param>, k: nat, filters: seq<Expr>)
    requires WellFormed(e) && Level(e) >= 1 && ServerFit(db)
    requires AllCompile(fs, clock, d, filters) && AllExactOn(fs, clock, d, row, filters)
    ensures var x := AllExtended(fs, clock, d, e, k, filters);
      && WellFormed(x)
      && Eval(db, row, "", Filled(x)) == And(Eval(db, row, "", Filled(e)), AllMeanings(db, fs, clock, row, filters))
      && (AcceptsAll(d, x) <==> AcceptsAll(d, e) && AllAccepted(fs, clock, d, filters))
    decreases |filters|
  {
    hide Tree, Build, Paired, ExactOn, Accepted, Extended, Eval, CelTruth, Filled, And;
    if filters == [] {
      AndTrue(Eval(db, row, "", Filled(e)));
    } else {
      FiltersSplit(d, fs, clock, row, filters);
      ExtendedMeaning(d, fs, clock, db, row, e, k, filters[0]);
      var out := Tree(d, fs, 0, Build(fs, clock, filters[0]).value);
      var next := if out.shape.Always? then k else k + |out.args|;
      ExtendedLevel(e, k, out.shape);
      FiltersMean(d, fs, clock, db, row, Extended(e, k, out.shape), next, filters[1..]);
      AndAssociates(Eval(db, row, "", Filled(e)), CelTruth(db, fs, clock, row, filters[0]),
                    AllMeanings(db, fs, clock, row, filters[1..]));
    }
  }

  lemma ExtendedLevel(e: Sql<Param>, k: nat, s: Shape)
    requires Level(e) >= 1
    ensures Level(Extended(e, k, s)) >= 1
  {}

  lemma AndTrue(a: Truth)
    ensures And(a, True) == a && And(True, a) == a
  {}

  /** A query starts from the clause `1 = 1`. Whatever filters are appended to it, executing the
      joined text with the collected arguments yields the conjunction of the meanings of the filter
      expressions on MySQL and Postgres exactly when every filter can be carried, and is an error
      otherwise. SQLite gives the placeholders the leading arguments without an error: it yields the
      conjunction when the values they were minted for lead the argument list, as they do when every
      filter can be carried, and otherwise some placeholder holds the value of another one. */
  lemma CompiledQueryExact(d: Dialect, fs: Fields, clock: Clock, db: Database, row: Row, filters: seq<Expr>)
    requires ServerFit(db) && AllCompile(fs, clock, d, filters) && AllExactOn(fs, clock, d, row, filters)
    ensures var (ok, q) := Appended(fs, clock, d, Query([[Text(Tautology)]], []), filters);
      var meant := Some(AllMeanings(db, fs, clock, row, filters));
      var minted := AllSurviving(fs, clock, d, filters);
      var result := Execute(d, db, row, JoinAnd(q.where), q.args);
      && ok
      && (AllCarried(fs, clock, d, filters) ==> result == meant && minted == q.args)
      && (!AllCarried(fs, clock, d, filters) && d != SQLite ==> result == None)
      && (d == SQLite ==> LeadingBound(q, minted) && (minted <= q.args ==> result == meant))
  {
    hide Denotes, Execute, AllExtended, Appended, LeadingBound, Eval, AllMeanings, AllSurviving, Compiles, ExactOn, Bind, JoinAnd;
    var start: Sql<Param> := Leaf(Tautology, []);
    StartDenotes(d, db, row);
    FiltersAppended(d, fs, clock, Query([[Text(Tautology)]], []), start, true, filters, row);
    FiltersMean(d, fs, clock, db, row, start, 0, filters);
    var (ok, q) := Appended(fs, clock, d, Query([[Text(Tautology)]], []), filters);
    var x := AllExtended(fs, clock, d, start, 0, filters);
    var minted := AllSurviving(fs, clock, d, filters);
    assert [] + minted == minted;
    DenotedExecutes(d, q, x, AllPaired(fs, clock, d, filters), db, row);
    AndTrue(AllMeanings(db, fs, clock, row, filters));
    CarriedIff(fs, clock, d, filters);
  }

  lemma StartDenotes(d: Dialect, db: Database, row: Row)
    ensures var start: Sql<Param> := Leaf(Tautology, []);
      && Denotes(d, Query([[Text(Tautology)]], []), start, true)
      && WellFormed(start) && Level(start) >= 1 && AcceptsAll(d, start)
      && Values(ParamsOf(start)) == [] && Eval(db, row, "", Filled(start)) == True
  {
    var start: Sql<Param> := Leaf(Tautology, []);
    Rendering.EmitLeaf(d, 0, Tautology, []);
    assert Filled(start) == Leaf(Tautology, []);
  }

  lemma CarriedIff(fs: Fields, clock: Clock, d: Dialect, filters: seq<Expr>)
    requires AllCompile(fs, clock, d, filters)
    ensures AllCarried(fs, clock, d, filters) <==> AllPaired(fs, clock, d, filters) && AllAccepted(fs, clock, d, filters)
    ensures d == SQLite ==> AllAccepted(fs, clock, d, filters)
  {
    hide Compiles, Build, KeepsPairing, KeepsEmptyList;
  }
}
