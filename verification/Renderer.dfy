/** The renderer object: it appends arguments and counts placeholders while it builds text. */
module Rendering {
  import opened Outcomes
  import opened Schema
  import opened SqlText
  import opened ConditionTree
  import opened Compile
  import opened Binding
  import opened Statements
  import Like

  type Sentence = seq<Token<Placeholder>>

  datatype RenderResult = RenderResult(sql: Sentence, trivial: bool, unsatisfiable: bool)

  const TRIVIAL := RenderResult([], true, false)

  const UNSATISFIABLE := RenderResult([Text(Falsehood)], false, true)

  function Plainly(sql: Sentence): RenderResult {
    RenderResult(sql, false, false)
  }

  function CombineAnd(left: RenderResult, right: RenderResult): RenderResult {
    if left.unsatisfiable || right.unsatisfiable then UNSATISFIABLE
    else if left.trivial then right
    else if right.trivial then left
    else Plainly([Open] + left.sql + [AndWord] + right.sql + [Close])
  }

  function CombineOr(left: RenderResult, right: RenderResult): RenderResult {
    if left.trivial || right.trivial then TRIVIAL
    else if left.unsatisfiable then right
    else if right.unsatisfiable then left
    else Plainly([Open] + left.sql + [OrWord] + right.sql + [Close])
  }

  /** The texts joined by OR. */
  function JoinOr(parts: seq<Sentence>): Sentence {
    if parts == [] then []
    else if |parts| == 1 then parts[0]
    else JoinOr(parts[..|parts| - 1]) + [OrWord] + parts[|parts| - 1]
  }

  /** The text and the flags stand for the shape. The two flags never hold together, and a
      result that is not trivial has text. */
  ghost predicate Stands(d: Dialect, offset: nat, r: RenderResult, s: Shape) {
    match s
    case Always => r == TRIVIAL
    case Never => r == UNSATISFIABLE
    case Plain(e) => r == Plainly(Emit(d, offset, Print(e)))
  }

  lemma FlagsExclusive(d: Dialect, offset: nat, r: RenderResult, s: Shape)
    requires Stands(d, offset, r, s)
    ensures !(r.trivial && r.unsatisfiable)
    ensures !r.trivial ==> r.sql != []
  {
    if s.Plain? {
      assert |Print(s.e)| > 0;
    }
  }

  // ----- Emitting distributes over the pieces of a text -----

  lemma EmitLeaf(d: Dialect, offset: nat, t: Template, ps: seq<Param>)
    ensures Emit(d, offset, Print(Leaf(t, ps))) ==
            [Text(t)] + seq(|ps|, i requires 0 <= i < |ps| => Hole(PlaceholderFor(d, offset, ps[i].slot)))
  {}

  lemma EmitGroup(d: Dialect, offset: nat, e: Sql<Param>)
    ensures Emit(d, offset, Print(Group(e))) == [Open] + Emit(d, offset, Print(e)) + [Close]
    ensures Emit(d, offset, Print(Negate(e))) == [NotWord] + Emit(d, offset, Print(e))
  {}

  lemma EmitNegatedGroup(d: Dialect, offset: nat, e: Sql<Param>)
    ensures Emit(d, offset, Print(Negate(Group(e)))) == [NotWord, Open] + Emit(d, offset, Print(e)) + [Close]
  {
    EmitGroup(d, offset, e);
    EmitGroup(d, offset, Group(e));
    assert [NotWord] + ([Open] + Emit(d, offset, Print(e)) + [Close]) == [NotWord, Open] + Emit(d, offset, Print(e)) + [Close];
  }

  lemma EmitBinary(d: Dialect, offset: nat, op: Connective, l: Sql<Param>, r: Sql<Param>)
    ensures Emit(d, offset, Print(Binary(op, l, r))) == Emit(d, offset, Print(l)) + [Word(op)] + Emit(d, offset, Print(r))
  {}

  lemma EmitSubquery(d: Dialect, offset: nat, list: string, e: Sql<Param>, test: CountTest)
    ensures Emit(d, offset, Print(Exists(list, e))) == [ExistsOpen(list)] + Emit(d, offset, Print(e)) + [Close]
    ensures Emit(d, offset, Print(Count(list, e, test))) ==
            [CountOpen(list)] + Emit(d, offset, Print(e)) + [Close, CountTail(test)]
  {}

  lemma CombineStands(d: Dialect, offset: nat, a: RenderResult, s: Shape, b: RenderResult, t: Shape)
    requires Stands(d, offset, a, s) && Stands(d, offset, b, t)
    ensures Stands(d, offset, CombineAnd(a, b), AndShape(s, t))
    ensures Stands(d, offset, CombineOr(a, b), OrShape(s, t))
  {
    if s.Plain? && t.Plain? {
      EmitBinary(d, offset, AndOp, s.e, t.e);
      EmitBinary(d, offset, OrOp, s.e, t.e);
      EmitGroup(d, offset, Binary(AndOp, s.e, t.e));
      EmitGroup(d, offset, Binary(OrOp, s.e, t.e));
    }
  }

  lemma AnyMemberAppend(d: Dialect, n: nat, list: string, vs: seq<string>, v: string)
    ensures AnyMemberTree(d, n, list, vs + [v]) ==
            if vs == [] then MemberTree(d, n, list, v)
            else Binary(OrOp, AnyMemberTree(d, n, list, vs), MemberTree(d, n + |vs|, list, v))
  {
    assert (vs + [v])[..|vs|] == vs;
  }

  lemma StrValuesAppend(before: seq<Value>, vs: seq<string>, v: string)
    ensures before + StrValues(vs) + [Str(v)] == before + StrValues(vs + [v])
  {
    assert StrValues(vs + [v]) == StrValues(vs) + [Str(v)];
  }

  /** One more condition extends the joined text as one more membership extends the tree. */
  lemma MemberAdded(d: Dialect, offset: nat, n: nat, list: string, vs: seq<string>, v: string,
                    parts: seq<Sentence>, part: Sentence)
    requires |parts| == |vs|
    requires vs != [] ==> JoinOr(parts) == Emit(d, offset, Print(AnyMemberTree(d, n, list, vs)))
    requires part == Emit(d, offset, Print(MemberTree(d, n + |vs|, list, v)))
    ensures JoinOr(parts + [part]) == Emit(d, offset, Print(AnyMemberTree(d, n, list, vs + [v])))
  {
    AnyMemberAppend(d, n, list, vs, v);
    if vs != [] {
      assert (parts + [part])[..|parts|] == parts;
      EmitBinary(d, offset, OrOp, AnyMemberTree(d, n, list, vs), MemberTree(d, n + |vs|, list, v));
    }
  }

  lemma OnlyMember(d: Dialect, n: nat, list: string, vs: seq<string>, parts: seq<Sentence>)
    requires |vs| == |parts| == 1
    ensures AnyMemberTree(d, n, list, vs) == MemberTree(d, n, list, vs[0]) && JoinOr(parts) == parts[0]
  {}

  class Renderer {
    const fields: Fields
    const dialect: Dialect
    const placeholderOffset: nat
    var placeholderCounter: nat
    var args: seq<Value>

    constructor (fields: Fields, dialect: Dialect, placeholderOffset: nat)
      ensures this.fields == fields && this.dialect == dialect && this.placeholderOffset == placeholderOffset
      ensures Valid() && args == []
    {
      this.fields, this.dialect, this.placeholderOffset := fields, dialect, placeholderOffset;
      placeholderCounter, args := 0, [];
    }

    ghost predicate Valid()
      reads this
    {
      placeholderCounter == |args|
    }

    /** The result of a method that renders: it succeeds exactly when the tree exists, its text
        stands for the tree, and the arguments of the tree have been appended. */
    ghost predicate Rendered(before: seq<Value>, out: Outcome, ok: bool, r: RenderResult)
      reads this
    {
      && Valid()
      && ok == out.Done?
      && (ok ==> Stands(dialect, placeholderOffset, r, out.shape) && args == before + out.args)
    }

    method AddArg(v: Value) returns (p: Placeholder)
      requires Valid()
      modifies this`placeholderCounter, this`args
      ensures Valid() && args == old(args) + [v]
      ensures p == PlaceholderFor(dialect, placeholderOffset, |old(args)|)
    {
      placeholderCounter := placeholderCounter + 1;
      args := args + [v];
      if dialect == Postgres {
        return Dollar(placeholderOffset + placeholderCounter);
      }
      return Question;
    }

    /** Render a fixed text with one placeholder. */
    method RenderAtom(t: Template, v: Value) returns (r: RenderResult)
      requires Valid() && Arity(t) == 1
      modifies this`placeholderCounter, this`args
      ensures Rendered(old(args), Atom(t, |old(args)|, [v]), true, r)
    {
      var p := AddArg(v);
      r := Plainly([Text(t), Hole(p)]);
      EmitLeaf(dialect, placeholderOffset, t, Params(|old(args)|, [v]));
    }

    /** Render a fixed text without placeholders. */
    method RenderText(t: Template) returns (r: RenderResult)
      requires Valid()
      ensures Rendered(args, Atom(t, |args|, []), true, r)
    {
      r := Plainly([Text(t)]);
      EmitLeaf(dialect, placeholderOffset, t, Params(|args|, []));
      assert args == args + [];
    }

    // ----- Fields and comparisons -----

    method RenderFieldPredicate(f: string) returns (ok: bool, r: RenderResult)
      requires Valid()
      ensures Rendered(args, PredicateTree(dialect, fields, |args|, f), ok, r)
    {
      if f !in fields {
        return false, TRIVIAL;
      }
      match fields[f].kind
      case BoolColumn =>
        r := RenderText(FlagIsTrue(f));
        return true, r;
      case JsonBool =>
        r := RenderText(if dialect == MySQL then JsonCoalesceTrue(f) else JsonIsTrue(f));
        return true, r;
      case JsonExists =>
        r := RenderText(ExistsTemplate(dialect, f));
        return true, r;
      case _ => return false, TRIVIAL;
    }

    method RenderScalarComparison(f: string, typ: FieldType, op: CompareOp, rhs: ValueExpr) returns (ok: bool, r: RenderResult)
      requires Valid()
      modifies this`placeholderCounter, this`args
      ensures Rendered(old(args), ScalarComparison(|old(args)|, f, typ, op, rhs), ok, r)
    {
      if !rhs.Literal? {
        return false, TRIVIAL;
      }
      if rhs.v == Null {
        match op
        case Eq =>
          r := RenderText(ColumnIsNull(f));
          return true, r;
        case Neq =>
          r := RenderText(ColumnNotNull(f));
          return true, r;
        case _ => return false, TRIVIAL;
      }
      match typ
      case StringType =>
        if !rhs.v.Str? {
          return false, TRIVIAL;
        }
        r := RenderAtom(ColumnCompare(f, op), rhs.v);
        return true, r;
      case BoolType => return false, TRIVIAL;
      case _ =>
        match ToInt(rhs.v)
        case None => return false, TRIVIAL;
        case Some(i) =>
          r := RenderAtom(ColumnCompare(f, op), Int(i));
          return true, r;
    }

    method RenderJsonBoolComparison(f: string, op: CompareOp, rhs: ValueExpr) returns (ok: bool, r: RenderResult)
      requires Valid()
      modifies this`placeholderCounter, this`args
      ensures Rendered(old(args), JsonBoolComparison(dialect, |old(args)|, f, op, rhs), ok, r)
    {
      if !(rhs.Literal? && rhs.v.Bool?) {
        return false, TRIVIAL;
      }
      var value := rhs.v.b;
      match dialect
      case SQLite =>
        if op !in {Eq, Neq} {
          return false, TRIVIAL;
        }
        if f == TASK_LIST {
          r := RenderText(JsonDigit(f, op, value));
          return true, r;
        }
        var wanted := if op == Eq then value else !value;
        var text := [Text(JsonIsTrue(f))];
        r := Plainly(if wanted then text else [NotWord, Open] + text + [Close]);
        NegatedTextStands(JsonIsTrue(f));
        return true, r;
      case MySQL =>
        r := RenderText(JsonLiteral(f, op, value));
        return true, r;
      case Postgres =>
        r := RenderAtom(JsonCast(f, op), Bool(value));
        return true, r;
    }

    method RenderJsonExistsComparison(f: string, op: CompareOp, rhs: ValueExpr) returns (ok: bool, r: RenderResult)
      requires Valid()
      ensures Rendered(args, JsonExistsComparison(dialect, f, op, rhs), ok, r)
    {
      if !(rhs.Literal? && rhs.v.Bool?) {
        return false, TRIVIAL;
      }
      var want := rhs.v.b;
      match op {
        case Eq =>
        case Neq => want := !want;
        case _ => return false, TRIVIAL;
      }
      var text := [Text(ExistsTemplate(dialect, f))];
      r := Plainly(if want then text else [NotWord, Open] + text + [Close]);
      NegatedTextStands(ExistsTemplate(dialect, f));
      return true, r;
    }

    lemma NegatedTextStands(t: Template)
      ensures Emit(dialect, placeholderOffset, Print(Leaf(t, []))) == [Text(t)]
      ensures Emit(dialect, placeholderOffset, Print(Negate(Group(Leaf(t, []))))) == [NotWord, Open] + [Text(t)] + [Close]
      ensures args + [] == args
    {
      EmitLeaf(dialect, placeholderOffset, t, []);
      EmitGroup(dialect, placeholderOffset, Leaf(t, []));
      EmitGroup(dialect, placeholderOffset, Group(Leaf(t, [])));
    }

    method RenderFunctionComparison(fn: string, fnArgs: seq<ValueExpr>, op: CompareOp, rhs: ValueExpr)
      returns (ok: bool, r: RenderResult)
      requires Valid()
      modifies this`placeholderCounter, this`args
      ensures Rendered(old(args), SizeComparison(fields, |old(args)|, fn, fnArgs, op, rhs), ok, r)
    {
      if fn != "size" || |fnArgs| != 1 || !fnArgs[0].FieldRef? || fnArgs[0].name !in fields {
        return false, TRIVIAL;
      }
      var f := fnArgs[0].name;
      if fields[f].kind == VirtualAlias {
        match ResolveAlias(fields, f)
        case None => return false, TRIVIAL;
        case Some(target) => f := target;
      }
      match NumericLiteral(rhs)
      case None => return false, TRIVIAL;
      case Some(i) =>
        if fields[f].kind == JsonList {
          r := RenderAtom(ListSize(f, op), Int(i));
          return true, r;
        }
        if fields[f].kind == Scalar && fields[f].typ == StringType {
          r := RenderAtom(TextLength(f, op), Int(i));
          return true, r;
        }
        return false, TRIVIAL;
    }

    method RenderComparison(lhs: ValueExpr, op: CompareOp, rhs: ValueExpr) returns (ok: bool, r: RenderResult)
      requires Valid()
      modifies this`placeholderCounter, this`args
      ensures Rendered(old(args), ComparisonTree(dialect, fields, |old(args)|, lhs, op, rhs), ok, r)
    {
      match lhs
      case FieldRef(f) =>
        if f !in fields {
          return false, TRIVIAL;
        }
        match fields[f].kind {
          case BoolColumn =>
            if !(rhs.Literal? && rhs.v.Bool?) {
              return false, TRIVIAL;
            }
            r := RenderAtom(FlagCompare(f, op), BoolArg(dialect, rhs.v.b));
            return true, r;
          case JsonBool => ok, r := RenderJsonBoolComparison(f, op, rhs);
          case JsonExists => ok, r := RenderJsonExistsComparison(f, op, rhs);
          case Scalar => ok, r := RenderScalarComparison(f, fields[f].typ, op, rhs);
          case _ => return false, TRIVIAL;
        }
      case FunctionCall(fn, fnArgs) => ok, r := RenderFunctionComparison(fn, fnArgs, op, rhs);
      case FieldAccessor(f, accessor) =>
        if f !in fields || accessor !in ACCESSORS {
          return false, TRIVIAL;
        }
        match NumericLiteral(rhs) {
          case None => return false, TRIVIAL;
          case Some(i) =>
            r := RenderAtom(DatePart(f, accessor, op), Int(i));
            return true, r;
        }
      case Literal(_) => return false, TRIVIAL;
    }

    // ----- Tag lists -----

    method TagElementText(mode: Like.TextMode, v: string) returns (sql: Sentence)
      requires Valid()
      modifies this`placeholderCounter, this`args
      ensures Valid()
      ensures var (e, added) := ElementText(dialect, |old(args)|, mode, v);
              args == old(args) + added && sql == Emit(dialect, placeholderOffset, Print(e))
    {
      ghost var n := |args|;
      ghost var (e, added) := ElementText(dialect, n, mode, v);
      EmitLeaf(dialect, placeholderOffset, e.t, e.ps);
      if v == "" {
        return [Text(Tautology)];
      }
      if dialect != SQLite {
        var p := AddArg(Str(Like.Pattern(mode, v, '!')));
        return [Text(ElementLike), Hole(p)];
      }
      match mode
      case Prefix =>
        var p := AddArg(Str(v));
        return [Text(ElementStarts), Hole(p)];
      case Suffix =>
        var lengthValue := AddArg(Str(v));
        var compareValue := AddArg(Str(v));
        return [Text(ElementEnds), Hole(lengthValue), Hole(compareValue)];
      case Contains =>
        var p := AddArg(Str(v));
        return [Text(ElementHolds), Hole(p)];
    }

    method TagElementPredicate(pred: ElementPredicate) returns (sql: Sentence)
      requires Valid()
      modifies this`placeholderCounter, this`args
      ensures Valid()
      ensures var (e, added) := ElementTree(dialect, |old(args)|, pred);
              args == old(args) + added && sql == Emit(dialect, placeholderOffset, Print(e))
    {
      match pred
      case EqualsText(v) =>
        EmitLeaf(dialect, placeholderOffset, ElementEquals, Params(|args|, [Str(v)]));
        var p := AddArg(Str(v));
        return [Text(ElementEquals), Hole(p)];
      case StartsWith(v) => sql := TagElementText(Like.Prefix, v);
      case EndsWith(v) => sql := TagElementText(Like.Suffix, v);
      case HoldsText(v) => sql := TagElementText(Like.Contains, v);
    }

    function AnyMatch(list: string, cond: Sentence): Sentence {
      if dialect == MySQL then [CountOpen(list)] + cond + [Close, CountTail(Positive)]
      else [ExistsOpen(list)] + cond + [Close]
    }

    function NoMatch(list: string, cond: Sentence): Sentence {
      if dialect == MySQL then [CountOpen(list)] + cond + [Close, CountTail(Zero)]
      else [NotWord] + ([ExistsOpen(list)] + cond + [Close])
    }

    lemma MatchStands(list: string, e: Sql<Param>)
      ensures AnyMatch(list, Emit(dialect, placeholderOffset, Print(e))) ==
              Emit(dialect, placeholderOffset, Print(AnyMatchTree(dialect, list, e)))
      ensures NoMatch(list, Emit(dialect, placeholderOffset, Print(e))) ==
              Emit(dialect, placeholderOffset, Print(NoMatchTree(dialect, list, e)))
    {
      EmitSubquery(dialect, placeholderOffset, list, e, Positive);
      EmitSubquery(dialect, placeholderOffset, list, e, Zero);
      EmitGroup(dialect, placeholderOffset, Exists(list, e));
    }

    method RenderTagComprehension(list: string, pred: ElementPredicate, kind: ComprehensionKind) returns (r: RenderResult)
      requires Valid()
      modifies this`placeholderCounter, this`args
      ensures Rendered(old(args), Comprehension(dialect, |old(args)|, list, pred, kind), true, r)
    {
      ghost var e := ElementTree(dialect, |args|, pred).0;
      var cond := TagElementPredicate(pred);
      match kind
      case SomeElement =>
        MatchStands(list, e);
        r := Plainly(AnyMatch(list, cond));
      case AllElements =>
        var none := NoMatch(list, [NotWord, Open] + cond + [Close]);
        r := Plainly([Open] + [Text(ListNotEmpty(list))] + [AndWord] + none + [Close]);
        AllStands(list, e);
      case OneElement =>
        EmitSubquery(dialect, placeholderOffset, list, e, One);
        r := Plainly([CountOpen(list)] + cond + [Close, CountTail(One)]);
    }

    lemma AllStands(list: string, e: Sql<Param>)
      ensures var cond := Emit(dialect, placeholderOffset, Print(e));
              [Open] + [Text(ListNotEmpty(list))] + [AndWord] + NoMatch(list, [NotWord, Open] + cond + [Close]) + [Close]
              == Emit(dialect, placeholderOffset, Print(ComprehensionTree(dialect, list, AllElements, e)))
    {
      var nonEmpty: Sql<Param> := Leaf(ListNotEmpty(list), []);
      var none := NoMatchTree(dialect, list, Negate(Group(e)));
      EmitLeaf(dialect, placeholderOffset, ListNotEmpty(list), []);
      EmitNegatedGroup(dialect, placeholderOffset, e);
      MatchStands(list, Negate(Group(e)));
      EmitBinary(dialect, placeholderOffset, AndOp, nonEmpty, none);
      EmitGroup(dialect, placeholderOffset, Binary(AndOp, nonEmpty, none));
    }

    method RenderTagInList(values: seq<ValueExpr>) returns (ok: bool, r: RenderResult)
      requires Valid()
      modifies this`placeholderCounter, this`args
      ensures Rendered(old(args), TagIn(dialect, fields, |old(args)|, values), ok, r)
    {
      hide JoinOr, AnyMemberTree, Emit, Print, ResolveAlias;
      var list: string;
      match ResolveAlias(fields, TAG) {
        case None => return false, TRIVIAL;
        case Some(target) => list := target;
      }
      ghost var before := args;
      ghost var done: seq<string> := [];
      var conditions: seq<Sentence> := [];
      var i := 0;
      while i < |values|
        invariant 0 <= i <= |values| && Valid()
        invariant |done| == |conditions| == i
        invariant forall k :: 0 <= k < i ==> values[k] == Literal(Str(done[k]))
        invariant args == before + StrValues(done)
        invariant i == 0 || JoinOr(conditions) == Emit(dialect, placeholderOffset, Print(AnyMemberTree(dialect, |before|, list, done)))
      {
        if !(values[i].Literal? && values[i].v.Str?) {
          NotAllTexts(values, i);
          return false, TRIVIAL;
        }
        var text := values[i].v.s;
        var condition := RenderTagComprehension(list, EqualsText(text), SomeElement);
        MemberAdded(dialect, placeholderOffset, |before|, list, done, text, conditions, condition.sql);
        StrValuesAppend(before, done, text);
        conditions := conditions + [condition.sql];
        done := done + [text];
        i := i + 1;
      }
      AllTexts(values, done);
      if |conditions| == 0 {
        r := RenderText(Falsehood);
        return true, r;
      }
      if |conditions| == 1 {
        OnlyMember(dialect, |before|, list, done, conditions);
        return true, Plainly(conditions[0]);
      }
      EmitGroup(dialect, placeholderOffset, AnyMemberTree(dialect, |before|, list, done));
      return true, Plainly([Open] + JoinOr(conditions) + [Close]);
    }

    method RenderScalarInCondition(f: string, typ: FieldType, values: seq<ValueExpr>) returns (ok: bool, r: RenderResult)
      requires Valid()
      modifies this`placeholderCounter, this`args
      ensures Rendered(old(args),
                       (match ListedValues(typ, values)
                        case Some(vs) => Atom(ColumnIn(f, |vs|), |old(args)|, vs)
                        case None => Failed), ok, r)
    {
      ghost var before := args;
      ghost var listed: seq<Value> := [];
      var placeholders: seq<Placeholder> := [];
      var i := 0;
      while i < |values|
        invariant 0 <= i <= |values| && Valid()
        invariant |listed| == |placeholders| == i
        invariant forall k :: 0 <= k < i ==> ListedValue(typ, values[k]) == Some(listed[k])
        invariant forall k :: 0 <= k < i ==> placeholders[k] == PlaceholderFor(dialect, placeholderOffset, |before| + k)
        invariant args == before + listed
      {
        match ListedValue(typ, values[i]) {
          case None =>
            NotAllListed(typ, values, i);
            return false, TRIVIAL;
          case Some(v) =>
            var p := AddArg(v);
            placeholders := placeholders + [p];
            listed := listed + [v];
        }
        i := i + 1;
      }
      AllListed(typ, values, listed);
      EmitLeaf(dialect, placeholderOffset, ColumnIn(f, |listed|), Params(|before|, listed));
      return true, Plainly([Text(ColumnIn(f, |placeholders|))] + Holes(placeholders));
    }

    method RenderInCondition(subject: ValueExpr, values: seq<ValueExpr>) returns (ok: bool, r: RenderResult)
      requires Valid()
      modifies this`placeholderCounter, this`args
      ensures Rendered(old(args), InTree(dialect, fields, |old(args)|, subject, values), ok, r)
    {
      if !subject.FieldRef? {
        return false, TRIVIAL;
      }
      if subject.name == TAG {
        ok, r := RenderTagInList(values);
        return;
      }
      if subject.name !in fields || fields[subject.name].kind != Scalar {
        return false, TRIVIAL;
      }
      ok, r := RenderScalarInCondition(subject.name, fields[subject.name].typ, values);
    }

    // ----- Conditions -----

    /** Rendering refines the compilation of the condition to a tree. */
    method RenderCondition(c: Condition) returns (ok: bool, r: RenderResult)
      requires Valid()
      modifies this`placeholderCounter, this`args
      ensures Rendered(old(args), Tree(dialect, fields, |old(args)|, c), ok, r)
      decreases c
    {
      match c
      case Logical(op, left, right) =>
        ghost var before := args;
        var lok, l := RenderCondition(left);
        if !lok {
          return false, TRIVIAL;
        }
        var rok, rr := RenderCondition(right);
        if !rok {
          return false, TRIVIAL;
        }
        ghost var lt := Tree(dialect, fields, |before|, left);
        ghost var rt := Tree(dialect, fields, |before| + |lt.args|, right);
        CombineStands(dialect, placeholderOffset, l, lt.shape, rr, rt.shape);
        assert before + lt.args + rt.args == before + (lt.args + rt.args);
        match op {
          case LogicalAnd => r := CombineAnd(l, rr);
          case LogicalOr => r := CombineOr(l, rr);
        }
        return true, r;
      case NotCondition(child) =>
        ghost var n := |args|;
        var cok, inner := RenderCondition(child);
        if !cok {
          return false, TRIVIAL;
        }
        ghost var shape := Tree(dialect, fields, n, child).shape;
        FlagsExclusive(dialect, placeholderOffset, inner, shape);
        if inner.trivial {
          return true, UNSATISFIABLE;
        }
        if inner.unsatisfiable {
          return true, TRIVIAL;
        }
        EmitGroup(dialect, placeholderOffset, shape.e);
        EmitGroup(dialect, placeholderOffset, Group(shape.e));
        return true, Plainly([NotWord] + ([Open] + inner.sql + [Close]));
      case FieldPredicate(f) => ok, r := RenderFieldPredicate(f);
      case Comparison(lhs, op, rhs) => ok, r := RenderComparison(lhs, op, rhs);
      case InValues(subject, values) => ok, r := RenderInCondition(subject, values);
      case ElementIn(element, list) =>
        if !(list in fields && fields[list].kind == JsonList && element.Literal? && element.v.Str?) {
          return false, TRIVIAL;
        }
        r := RenderTagComprehension(list, EqualsText(element.v.s), SomeElement);
        return true, r;
      case TextMatch(f, mode, text) =>
        if f !in fields {
          return false, TRIVIAL;
        }
        r := RenderAtom(ColumnLike(f), Str(Like.Pattern(mode, text, '\\')));
        return true, r;
      case RegexMatch(f, pattern) =>
        if f !in fields {
          return false, TRIVIAL;
        }
        r := RenderAtom(ColumnRegex(f), Str(pattern));
        return true, r;
      case ListComprehension(kind, list, pred) =>
        if !(list in fields && fields[list].kind == JsonList) {
          return false, TRIVIAL;
        }
        r := RenderTagComprehension(list, pred, kind);
        return true, r;
      case Constant(b) =>
        assert args == args + [];
        return true, if b then TRIVIAL else UNSATISFIABLE;
    }

    /** The statement of a fresh renderer. */
    method Render(c: Condition) returns (s: Option<Statement>)
      requires Valid() && args == []
      modifies this`placeholderCounter, this`args
      ensures s == StatementOf(dialect, fields, placeholderOffset, c)
    {
      var ok, result := RenderCondition(c);
      if !ok {
        return None;
      }
      ghost var out := Tree(dialect, fields, 0, c);
      assert args == out.args;
      FlagsExclusive(dialect, placeholderOffset, result, out.shape);
      if result.unsatisfiable {
        return Some(Statement([Text(Falsehood)], args));
      } else if result.trivial {
        return Some(Statement([], args));
      }
      assert out.shape.Plain?;
      return Some(Statement(result.sql, args));
    }
  }

  // ----- The loops' view of the listed values -----

  lemma {:induction false} AllTexts(values: seq<ValueExpr>, done: seq<string>)
    requires |done| == |values|
    requires forall k :: 0 <= k < |values| ==> values[k] == Literal(Str(done[k]))
    ensures Texts(values) == Some(done)
  {
    if values != [] {
      AllTexts(values[1..], done[1..]);
      assert done == [done[0]] + done[1..];
    }
  }

  lemma {:induction false} NotAllTexts(values: seq<ValueExpr>, k: nat)
    requires k < |values| && !(values[k].Literal? && values[k].v.Str?)
    ensures Texts(values).None?
    decreases k
  {
    if k > 0 {
      NotAllTexts(values[1..], k - 1);
    }
  }

  lemma {:induction false} AllListed(typ: FieldType, values: seq<ValueExpr>, listed: seq<Value>)
    requires |listed| == |values|
    requires forall k :: 0 <= k < |values| ==> ListedValue(typ, values[k]) == Some(listed[k])
    ensures ListedValues(typ, values) == Some(listed)
  {
    if values != [] {
      AllListed(typ, values[1..], listed[1..]);
      assert listed == [listed[0]] + listed[1..];
    }
  }

  lemma {:induction false} NotAllListed(typ: FieldType, values: seq<ValueExpr>, k: nat)
    requires k < |values| && ListedValue(typ, values[k]).None?
    ensures ListedValues(typ, values).None?
    decreases k
  {
    if k > 0 {
      NotAllListed(typ, values[1..], k - 1);
    }
  }
}
