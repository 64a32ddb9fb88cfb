/** Rendered statements: what executing one yields. */
module Statements {
  import opened Kleene
  import opened Outcomes
  import opened Schema
  import opened SqlText
  import opened SqlEval
  import opened ConditionTree
  import opened Compile
  import opened RenderMeaning
  import opened Binding

  datatype Statement = Statement(sql: seq<Token<Placeholder>>, args: seq<Value>)

  /** Bind the arguments, read the text by the grammar, evaluate it on the row. */
  function Execute(d: Dialect, db: Database, row: Row, sql: seq<Token<Placeholder>>, args: seq<Value>): Option<Truth> {
    match Bind(d, sql, args)
    case None => None
    case Some(ts) =>
      match Parse(d, ts)
      case None => None
      case Some(e) => if WellFormed(e) then Some(Eval(db, row, "", e)) else None
  }

  /** On Postgres, every surviving `$k` reads the very value it was minted for, whatever was
      dropped, and wherever the statement's arguments sit in the argument list of the query. */
  lemma NumberedPlaceholdersExact(fs: Fields, c: Condition, before: seq<Value>, after: seq<Value>)
    requires Tree(Postgres, fs, 0, c).Done? && Tree(Postgres, fs, 0, c).shape.Plain?
    ensures var out := Tree(Postgres, fs, 0, c);
            ReadNumbered(Emit(Postgres, |before|, Print(out.shape.e)), before + out.args + after)
            == Some(Print(Filled(out.shape.e)))
  {
    var out := Tree(Postgres, fs, 0, c);
    var ts := Print(out.shape.e);
    RenderedParams(Postgres, fs, 0, c);
    HolesOfPrint(out.shape.e);
    HolesAreMinted(ts, out.args);
    IntendedIsFilled(out.shape.e);
    var all := before + out.args + after;
    assert all[|before|..|before| + |out.args|] == out.args;
    NumberedReadsMinted(ts, |before|, out.args, all);
  }

  /** A statement's own arguments are bound as minted if no part of the condition that constants
      decide bears an argument. Otherwise MySQL and Postgres refuse it, while SQLite gives the
      surviving placeholders the leading arguments, which are the minted ones exactly when the values
      of the undecided parts lead the argument list. */
  lemma PlaceholdersExact(d: Dialect, fs: Fields, c: Condition)
    requires Tree(d, fs, 0, c).Done? && Tree(d, fs, 0, c).shape.Plain?
    ensures var out := Tree(d, fs, 0, c);
      var bound := Bind(d, Emit(d, 0, Print(out.shape.e)), out.args);
      var minted := Print(Filled(out.shape.e));
      && (NoArgumentDropped(d, fs, c) ==> bound == Some(minted))
      && (!NoArgumentDropped(d, fs, c) && d != SQLite ==> bound.None?)
      && (d == SQLite ==>
            && |Surviving(d, fs, 0, c)| <= |out.args|
            && bound.Some? && HolesIn(bound.value) == out.args[..|Surviving(d, fs, 0, c)|]
            && (bound.value == minted <==> Surviving(d, fs, 0, c) <= out.args))
  {
    hide Bind, NoArgumentDropped, Surviving, Tree, BindLeading;
    var out := Tree(d, fs, 0, c);
    RenderedParams(d, fs, 0, c);
    SurvivingValues(d, fs, 0, c);
    HolesOfPrint(out.shape.e);
    IntendedIsFilled(out.shape.e);
    var ts := Print(out.shape.e);
    BindsIffPaired(d, ts, out.args, NoArgumentDropped(d, fs, c));
    if d == SQLite {
      LeadingBinds(ts, out.args);
    }
  }

  /** A tree on which the pairing fails: the conjunction with a constant FALSE is dropped, its
      argument is not. SQLite compares the creator with the visibility. */
  lemma DroppedArgumentBreaksPairing(d: Dialect, fs: Fields)
    requires "visibility" in fs && fs["visibility"].kind == Scalar && fs["visibility"].typ == StringType
    requires "creator_id" in fs && fs["creator_id"].kind == Scalar && fs["creator_id"].typ == IntType
    ensures var c := Logical(LogicalOr,
                             Logical(LogicalAnd, Comparison(FieldRef("visibility"), Eq, Literal(Str("PUBLIC"))), Constant(false)),
                             Comparison(FieldRef("creator_id"), Eq, Literal(Int(5))));
            var out := Tree(d, fs, 0, c);
      && out.Done? && out.shape.Plain?
      && out.args == [Str("PUBLIC"), Int(5)]
      && Emit(d, 0, Print(out.shape.e)) == [Text(ColumnCompare("creator_id", Eq)), Hole(PlaceholderFor(d, 0, 1))]
      && Bind(d, Emit(d, 0, Print(out.shape.e)), out.args) ==
         if d == SQLite then Some([Text(ColumnCompare("creator_id", Eq)), Hole(Str("PUBLIC"))]) else None
  {
    hide Bind, NoArgumentDropped, Tree, BindLeading, Surviving, HolesIn;
    var dropped := Logical(LogicalAnd, Comparison(FieldRef("visibility"), Eq, Literal(Str("PUBLIC"))), Constant(false));
    var kept := Comparison(FieldRef("creator_id"), Eq, Literal(Int(5)));
    var c := Logical(LogicalOr, dropped, kept);
    DroppedTree(d, fs, dropped);
    KeptTree(d, fs, kept);
    OrWithNever(d, fs, c);
    assert !NoArgumentDropped(d, fs, c) by {
      DroppedUndecided(d, fs, c);
    }
    PlaceholdersExact(d, fs, c);
    if d == SQLite {
      OneLeading(ColumnCompare("creator_id", Eq), [Str("PUBLIC"), Int(5)]);
    }
  }

  /** One question mark takes the first argument. */
  lemma OneLeading(t: Template, args: seq<Value>)
    requires args != []
    ensures Bind(SQLite, [Text(t), Hole(Question)], args) == Some([Text(t), Hole(args[0])])
  {
    var ts: seq<Token<Placeholder>> := [Text(t), Hole(Question)];
    var rest := ts[1..];
    assert rest == [Hole(Question)] && rest[1..] == [];
    assert HolesIn(rest) == [Question] && HolesIn(ts) == [Question];
    var first := args[..1];
    assert first[1..] == [] && first[0] == args[0] && |HolesIn(ts)| == 1;
    var none: seq<Token<Value>> := [];
    assert BindInOrder(rest[1..], first[1..]) == Some(none);
    assert BindInOrder(rest, first) == Some([Hole(args[0])] + none);
    assert BindInOrder(ts, first) == Some([Text(t)] + ([Hole(args[0])] + none));
    var bound: seq<Token<Value>> := [Text(t), Hole(args[0])];
    assert [Text(t)] + ([Hole(args[0])] + none) == bound;
  }

  lemma DroppedTree(d: Dialect, fs: Fields, c: Condition)
    requires c == Logical(LogicalAnd, Comparison(FieldRef("visibility"), Eq, Literal(Str("PUBLIC"))), Constant(false))
    requires "visibility" in fs && fs["visibility"].kind == Scalar && fs["visibility"].typ == StringType
    ensures Tree(d, fs, 0, c) == Done(Never, [Str("PUBLIC")])
  {
    assert Tree(d, fs, 0, c.left).Done? && Tree(d, fs, 0, c.left).args == [Str("PUBLIC")];
  }

  lemma KeptTree(d: Dialect, fs: Fields, c: Condition)
    requires c == Comparison(FieldRef("creator_id"), Eq, Literal(Int(5)))
    requires "creator_id" in fs && fs["creator_id"].kind == Scalar && fs["creator_id"].typ == IntType
    ensures Tree(d, fs, 1, c) == Done(Plain(Leaf(ColumnCompare("creator_id", Eq), [Param(1, Int(5))])), [Int(5)])
  {
    assert Params(1, [Int(5)]) == [Param(1, Int(5))];
  }

  lemma OrWithNever(d: Dialect, fs: Fields, c: Condition)
    requires c.Logical? && c.op == LogicalOr && Tree(d, fs, 0, c.left).Done? && Tree(d, fs, 0, c.left).shape.Never?
    requires var n := |Tree(d, fs, 0, c.left).args|; Tree(d, fs, n, c.right).Done? && Tree(d, fs, n, c.right).shape.Plain?
    ensures var left := Tree(d, fs, 0, c.left);
            var right := Tree(d, fs, |left.args|, c.right);
            Tree(d, fs, 0, c) == Done(right.shape, left.args + right.args)
  {}

  lemma DroppedUndecided(d: Dialect, fs: Fields, c: Condition)
    requires c.Logical? && c.op == LogicalOr && Verdict(c.right).None?
    requires Verdict(c.left) == Some(false) && BearsArgument(d, fs, c.left)
    ensures !NoArgumentDropped(d, fs, c)
  {}

  // ----- The statement of a condition -----

  function ShapeStatement(d: Dialect, offset: nat, s: Shape, args: seq<Value>): Statement {
    match s
    case Never => Statement([Text(Falsehood)], args)
    case Always => Statement([], args)
    case Plain(e) => Statement(Emit(d, offset, Print(e)), args)
  }

  function StatementOf(d: Dialect, fs: Fields, offset: nat, c: Condition): Option<Statement> {
    match Tree(d, fs, 0, c)
    case Failed => None
    case Done(shape, args) => Some(ShapeStatement(d, offset, shape, args))
  }
}
