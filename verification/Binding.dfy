/** How the placeholders of an emitted text are bound to the argument list. */
module Binding {
  import opened Outcomes
  import opened Schema
  import opened SqlText
  import opened ConditionTree
  import opened Compile
  import opened RenderMeaning

  datatype Placeholder = Question | Dollar(k: nat)

  /** The text minted for argument number `slot` of a statement that starts after `offset` arguments. */
  function PlaceholderFor(d: Dialect, offset: nat, slot: nat): Placeholder {
    if d == Postgres then Dollar(offset + slot + 1) else Question
  }

  /** Replace what stands in the holes of a text. */
  function MapHole<P, Q>(t: Token<P>, f: P -> Q): Token<Q> {
    match t
    case Open => Open
    case Close => Close
    case AndWord => AndWord
    case OrWord => OrWord
    case NotWord => NotWord
    case Text(x) => Text(x)
    case Hole(p) => Hole(f(p))
    case ExistsOpen(list) => ExistsOpen(list)
    case CountOpen(list) => CountOpen(list)
    case CountTail(test) => CountTail(test)
  }

  function MapHoles<P, Q>(ts: seq<Token<P>>, f: P -> Q): (r: seq<Token<Q>>)
    ensures |r| == |ts| && forall i {:trigger r[i]} :: 0 <= i < |ts| ==> r[i] == MapHole(ts[i], f)
  {
    seq(|ts|, i requires 0 <= i < |ts| => MapHole(ts[i], f))
  }

  /** The emitted text. */
  function Emit(d: Dialect, offset: nat, ts: seq<Token<Param>>): seq<Token<Placeholder>> {
    MapHoles(ts, (p: Param) => PlaceholderFor(d, offset, p.slot))
  }

  /** The text with every placeholder replaced by the value it was minted for. */
  function Intended(ts: seq<Token<Param>>): seq<Token<Value>> {
    MapHoles(ts, (p: Param) => p.v)
  }

  // ----- What a database does with a text and its arguments -----

  /** `$k` takes argument number k. */
  function ReadNumbered(ts: seq<Token<Placeholder>>, args: seq<Value>): Option<seq<Token<Value>>> {
    if ts == [] then Some([])
    else match ReadNumbered(ts[1..], args)
      case None => None
      case Some(rest) =>
        if !ts[0].Hole? then Some([MapHole(ts[0], (p: Placeholder) => Null)] + rest)
        else if ts[0].p.Dollar? && 1 <= ts[0].p.k <= |args| then Some([Hole(args[ts[0].p.k - 1])] + rest)
        else None
  }

  /** Every number up to n occurs. */
  predicate AllUsed(ps: seq<Placeholder>, n: nat) {
    forall k :: 1 <= k <= n ==> Dollar(k) in ps
  }

  /** The server refuses a text that leaves a number unused, and arguments beyond the last number. */
  function BindNumbered(ts: seq<Token<Placeholder>>, args: seq<Value>): Option<seq<Token<Value>>> {
    if AllUsed(HolesIn(ts), |args|) then ReadNumbered(ts, args) else None
  }

  /** The i-th `?` takes the i-th argument, and arguments beyond the last `?` are ignored. */
  function BindLeading(ts: seq<Token<Placeholder>>, args: seq<Value>): Option<seq<Token<Value>>> {
    var n := |HolesIn(ts)|;
    if n <= |args| then BindInOrder(ts, args[..n]) else None
  }

  /** The i-th `?` takes the i-th argument, and both lists must end together. */
  function BindInOrder(ts: seq<Token<Placeholder>>, args: seq<Value>): Option<seq<Token<Value>>> {
    if ts == [] then if args == [] then Some([]) else None
    else if !ts[0].Hole? then
      match BindInOrder(ts[1..], args)
      case Some(rest) => Some([MapHole(ts[0], (p: Placeholder) => Null)] + rest)
      case None => None
    else if ts[0].p.Question? && args != [] then
      match BindInOrder(ts[1..], args[1..])
      case Some(rest) => Some([Hole(args[0])] + rest)
      case None => None
    else None
  }

  function Bind(d: Dialect, ts: seq<Token<Placeholder>>, args: seq<Value>): Option<seq<Token<Value>>> {
    match d
    case Postgres => BindNumbered(ts, args)
    case MySQL => BindInOrder(ts, args)
    case SQLite => BindLeading(ts, args)
  }

  /** The placeholders of a text, in order. */
  function HolesIn<P>(ts: seq<Token<P>>): seq<P> {
    if ts == [] then [] else (if ts[0].Hole? then [ts[0].p] else []) + HolesIn(ts[1..])
  }

  // ----- Numbered placeholders -----

  /** Every placeholder of the text names a slot that holds its value. */
  predicate Minted(ts: seq<Token<Param>>, args: seq<Value>) {
    forall i :: 0 <= i < |ts| && ts[i].Hole? ==> ts[i].p.slot < |args| && args[ts[i].p.slot] == ts[i].p.v
  }

  lemma {:induction false} NumberedReadsMinted(ts: seq<Token<Param>>, offset: nat, args: seq<Value>, all: seq<Value>)
    requires Minted(ts, args)
    requires offset + |args| <= |all| && all[offset..offset + |args|] == args
    ensures ReadNumbered(Emit(Postgres, offset, ts), all) == Some(Intended(ts))
  {
    hide ReadNumbered, Emit, Intended;
    EmitFirst(Postgres, offset, ts);
    IntendedFirst(ts);
    if ts == [] {
      ReadNothing(all);
    } else {
      assert forall i :: 0 <= i < |ts| - 1 ==> ts[1..][i] == ts[i + 1];
      NumberedReadsMinted(ts[1..], offset, args, all);
      if ts[0].Hole? {
        assert all[offset + ts[0].p.slot] == all[offset..offset + |args|][ts[0].p.slot];
      }
      ReadFirst(ts[0], offset, Emit(Postgres, offset, ts[1..]), all, Intended(ts[1..]));
    }
  }

  lemma EmitFirst(d: Dialect, offset: nat, ts: seq<Token<Param>>)
    ensures ts == [] ==> Emit(d, offset, ts) == []
    ensures ts != [] ==>
      Emit(d, offset, ts) == [MapHole(ts[0], (p: Param) => PlaceholderFor(d, offset, p.slot))] + Emit(d, offset, ts[1..])
  {}

  lemma IntendedFirst(ts: seq<Token<Param>>)
    ensures ts == [] ==> Intended(ts) == []
    ensures ts != [] ==> Intended(ts) == [MapHole(ts[0], (p: Param) => p.v)] + Intended(ts[1..])
  {}

  lemma ReadNothing(all: seq<Value>)
    ensures ReadNumbered([], all) == Some([])
  {}

  /** One token more is read in front of the others. */
  lemma ReadFirst(t: Token<Param>, offset: nat, rest: seq<Token<Placeholder>>, all: seq<Value>, read: seq<Token<Value>>)
    requires ReadNumbered(rest, all) == Some(read)
    requires t.Hole? ==> offset + t.p.slot < |all| && all[offset + t.p.slot] == t.p.v
    ensures ReadNumbered([MapHole(t, (p: Param) => PlaceholderFor(Postgres, offset, p.slot))] + rest, all)
         == Some([MapHole(t, (p: Param) => p.v)] + read)
  {
    var ts := [MapHole(t, (p: Param) => PlaceholderFor(Postgres, offset, p.slot))] + rest;
    assert ts[1..] == rest;
  }

  lemma {:induction false} EmittedHoles(d: Dialect, offset: nat, ts: seq<Token<Param>>)
    ensures |HolesIn(Emit(d, offset, ts))| == |HolesIn(ts)|
    ensures forall i :: 0 <= i < |HolesIn(ts)| ==>
      HolesIn(Emit(d, offset, ts))[i] == PlaceholderFor(d, offset, HolesIn(ts)[i].slot)
  {
    hide Emit, HolesIn;
    EmitFirst(d, offset, ts);
    if ts == [] {
      NoHoles<Param>();
      NoHoles<Placeholder>();
    } else {
      EmittedHoles(d, offset, ts[1..]);
      HolesInFirst(ts);
      HolesInFirst(Emit(d, offset, ts));
      assert Emit(d, offset, ts)[1..] == Emit(d, offset, ts[1..]);
    }
  }

  /** No text uses more numbers than it has placeholders. */
  lemma {:induction false} UsedAtMost(ps: seq<Placeholder>, n: nat)
    requires AllUsed(ps, n)
    ensures n <= |ps|
    decreases n
  {
    if n > 0 {
      var i :| 0 <= i < |ps| && ps[i] == Dollar(n);
      var rest := ps[..i] + ps[i + 1..];
      forall k | 1 <= k <= n - 1 ensures Dollar(k) in rest {
        var j :| 0 <= j < |ps| && ps[j] == Dollar(k);
        assert rest[if j < i then j else j - 1] == Dollar(k);
      }
      UsedAtMost(rest, n - 1);
    }
  }

  /** Minted placeholders are all used when they hold all the arguments, and not when there are too few of them. */
  lemma UsedIffAll(ts: seq<Token<Param>>, args: seq<Value>)
    ensures HolesIn(ts) == Params(0, args) ==> AllUsed(HolesIn(Emit(Postgres, 0, ts)), |args|)
    ensures |HolesIn(ts)| < |args| ==> !AllUsed(HolesIn(Emit(Postgres, 0, ts)), |args|)
  {
    EmittedHoles(Postgres, 0, ts);
    var ps := HolesIn(Emit(Postgres, 0, ts));
    if HolesIn(ts) == Params(0, args) {
      forall k | 1 <= k <= |args| ensures Dollar(k) in ps {
        assert ps[k - 1] == Dollar(k);
      }
    }
    if AllUsed(ps, |args|) {
      UsedAtMost(ps, |args|);
    }
  }

  // ----- Positional placeholders -----

  lemma {:induction false} HolesInConcat<P>(a: seq<Token<P>>, b: seq<Token<P>>)
    ensures HolesIn(a + b) == HolesIn(a) + HolesIn(b)
  {
    hide HolesIn;
    if a == [] {
      assert a + b == b;
      NoHoles<P>();
    } else {
      HolesInConcat(a[1..], b);
      assert (a + b)[0] == a[0] && (a + b)[1..] == a[1..] + b;
      HolesInFirst(a);
      HolesInFirst(a + b);
    }
  }

  lemma NoHoles<P>()
    ensures HolesIn<P>([]) == []
  {}

  lemma HolesInFirst<P>(ts: seq<Token<P>>)
    requires ts != []
    ensures HolesIn(ts) == (if ts[0].Hole? then [ts[0].p] else []) + HolesIn(ts[1..])
  {}

  lemma {:induction false} HolesInHoles<P>(ps: seq<P>)
    ensures HolesIn(Holes(ps)) == ps
  {
    if ps != [] {
      HolesInHoles(ps[1..]);
      assert Holes(ps)[1..] == Holes(ps[1..]);
    }
  }

  lemma {:induction false} InOrderBinds(d: Dialect, ts: seq<Token<Param>>, offset: nat, args: seq<Value>)
    requires d != Postgres
    ensures |HolesIn(ts)| != |args| ==> BindInOrder(Emit(d, offset, ts), args).None?
    ensures Values(HolesIn(ts)) == args ==> BindInOrder(Emit(d, offset, ts), args) == Some(Intended(ts))
  {
    hide Emit, Intended, HolesIn;
    EmitFirst(d, offset, ts);
    IntendedFirst(ts);
    if ts == [] {
      NoHoles<Param>();
    } else {
      HolesInFirst(ts);
      assert Emit(d, offset, ts)[1..] == Emit(d, offset, ts[1..]);
      if ts[0].Hole? {
        if args != [] {
          InOrderBinds(d, ts[1..], offset, args[1..]);
          assert Values(HolesIn(ts))[1..] == Values(HolesIn(ts[1..]));
          if Values(HolesIn(ts)) == args {
            assert args[0] == ts[0].p.v;
          }
        }
      } else {
        InOrderBinds(d, ts[1..], offset, args);
      }
    }
  }

  // ----- All placeholders of a text -----

  lemma {:induction false} HolesAreMinted(ts: seq<Token<Param>>, args: seq<Value>)
    requires MintedFrom(HolesIn(ts), 0, args)
    ensures Minted(ts, args)
  {
    if ts != [] {
      var k := if ts[0].Hole? then 1 else 0;
      assert forall i :: 0 <= i < |HolesIn(ts[1..])| ==> HolesIn(ts[1..])[i] == HolesIn(ts)[i + k];
      assert ts[0].Hole? ==> HolesIn(ts)[0] == ts[0].p;
      HolesAreMinted(ts[1..], args);
      forall i | 0 <= i < |ts| && ts[i].Hole?
        ensures ts[i].p.slot < |args| && args[ts[i].p.slot] == ts[i].p.v
      {
        if i > 0 {
          assert ts[1..][i - 1] == ts[i];
        }
      }
    }
  }

  /** The placeholders hold arguments; either they are all of them, or there are fewer. */
  predicate HoldsArgs(ps: seq<Param>, args: seq<Value>, paired: bool) {
    MintedFrom(ps, 0, args) && if paired then ps == Params(0, args) else |ps| < |args|
  }

  lemma {:induction false} BoundInOrder(d: Dialect, ts: seq<Token<Param>>, offset: nat, args: seq<Value>)
    requires d != Postgres && |HolesIn(ts)| == |args|
    ensures var bound := BindInOrder(Emit(d, offset, ts), args); bound.Some? && HolesIn(bound.value) == args
    decreases |ts|
  {
    hide Emit, HolesIn;
    EmitFirst(d, offset, ts);
    if ts == [] {
      NoHoles<Param>();
      NoHoles<Value>();
    } else {
      HolesInFirst(ts);
      assert Emit(d, offset, ts)[1..] == Emit(d, offset, ts[1..]);
      BoundInOrder(d, ts[1..], offset, if ts[0].Hole? then args[1..] else args);
      HolesInFirst(BindInOrder(Emit(d, offset, ts), args).value);
    }
  }

  lemma {:induction false} IntendedHoles(ts: seq<Token<Param>>)
    ensures HolesIn(Intended(ts)) == Values(HolesIn(ts))
  {
    hide Intended, HolesIn;
    IntendedFirst(ts);
    if ts == [] {
      NoHoles<Param>();
      NoHoles<Value>();
    } else {
      IntendedHoles(ts[1..]);
      HolesInFirst(ts);
      HolesInFirst(Intended(ts));
    }
  }

  /** On SQLite the surviving placeholders take the leading arguments, whatever they were minted for:
      never an error, and the intended binding exactly when their values lead the arguments. */
  lemma LeadingBinds(ts: seq<Token<Param>>, args: seq<Value>)
    requires |HolesIn(ts)| <= |args|
    ensures var bound := BindLeading(Emit(SQLite, 0, ts), args);
      && bound.Some?
      && HolesIn(bound.value) == args[..|HolesIn(ts)|]
      && (bound.value == Intended(ts) <==> Values(HolesIn(ts)) <= args)
  {
    hide Emit, Intended, HolesIn;
    var n := |HolesIn(ts)|;
    EmittedHoles(SQLite, 0, ts);
    BoundInOrder(SQLite, ts, 0, args[..n]);
    IntendedHoles(ts);
    if Values(HolesIn(ts)) == args[..n] {
      InOrderBinds(SQLite, ts, 0, args[..n]);
    }
  }

  /** A text binds as it was minted when its placeholders hold all of the arguments; otherwise MySQL and
      Postgres refuse it, and SQLite binds the leading arguments. */
  lemma BindsIffPaired(d: Dialect, ts: seq<Token<Param>>, args: seq<Value>, paired: bool)
    requires HoldsArgs(HolesIn(ts), args, paired)
    ensures paired ==> Bind(d, Emit(d, 0, ts), args) == Some(Intended(ts))
    ensures !paired && d != SQLite ==> Bind(d, Emit(d, 0, ts), args).None?
    ensures d == SQLite ==> |HolesIn(ts)| <= |args| && Bind(d, Emit(d, 0, ts), args) == BindLeading(Emit(SQLite, 0, ts), args)
    ensures paired ==> Values(HolesIn(ts)) == args
  {
    hide HolesIn, Emit, Intended, BindInOrder, ReadNumbered, AllUsed, MintedFrom, BindLeading;
    ValuesOfParams(0, args);
    match d
    case Postgres =>
      UsedIffAll(ts, args);
      HolesAreMinted(ts, args);
      assert args[0..0 + |args|] == args;
      NumberedReadsMinted(ts, 0, args, args);
    case MySQL => InOrderBinds(d, ts, 0, args);
    case SQLite => LeadingBinds(ts, args);
  }

  // ----- Printing the intended condition -----

  lemma {:induction false} IntendedIsFilled(e: Sql<Param>)
    ensures Intended(Print(e)) == Print(Filled(e))
  {
    hide Intended, Print, Filled;
    match e
    case Leaf(t, ps) => IntendedLeaf(t, ps);
    case Negate(x) =>
      IntendedIsFilled(x);
      IntendedNegate(x);
    case Binary(op, l, r) =>
      IntendedIsFilled(l);
      IntendedIsFilled(r);
      IntendedBinary(op, l, r);
    case Group(x) =>
      IntendedIsFilled(x);
      IntendedGroup(x);
    case Exists(list, x) =>
      IntendedIsFilled(x);
      IntendedExists(list, x);
    case Count(list, x, test) =>
      IntendedIsFilled(x);
      IntendedCount(list, x, test);
  }

  lemma IntendedLeaf(t: Template, ps: seq<Param>)
    ensures Intended(Print(Leaf(t, ps))) == Print(Filled(Leaf(t, ps)))
  {
    var ts := Print(Leaf(t, ps));
    forall i | 0 <= i < |ts| ensures Intended(ts)[i] == Print(Filled(Leaf(t, ps)))[i] {
      if i > 0 {
        assert ts[i] == Hole(ps[i - 1]);
      }
    }
  }

  lemma IntendedNegate(x: Sql<Param>)
    requires Intended(Print(x)) == Print(Filled(x))
    ensures Intended(Print(Negate(x))) == Print(Filled(Negate(x)))
  {
    IntendedConcat([NotWord], Print(x), []);
    assert Print(Negate(x)) == [NotWord] + Print(x) + [];
  }

  lemma IntendedBinary(op: Connective, l: Sql<Param>, r: Sql<Param>)
    requires Intended(Print(l)) == Print(Filled(l)) && Intended(Print(r)) == Print(Filled(r))
    ensures Intended(Print(Binary(op, l, r))) == Print(Filled(Binary(op, l, r)))
  {
    hide Intended, Filled;
    IntendedConcat(Print(l), [Word(op)], Print(r));
    IntendedFixed(Word(op));
    FilledBinary(op, l, r);
    assert Print(Binary(op, l, r)) == Print(l) + [Word(op)] + Print(r);
  }

  lemma FilledBinary(op: Connective, l: Sql<Param>, r: Sql<Param>)
    ensures Filled(Binary(op, l, r)) == Binary(op, Filled(l), Filled(r))
  {}

  lemma IntendedFixed(t: Token<Param>)
    requires !t.Hole?
    ensures Intended([t]) == [MapHole(t, (p: Param) => p.v)]
  {}

  lemma IntendedClosing(test: CountTest)
    ensures Intended([Close, CountTail(test)]) == [Close, CountTail(test)]
  {}

  lemma IntendedGroup(x: Sql<Param>)
    requires Intended(Print(x)) == Print(Filled(x))
    ensures Intended(Print(Group(x))) == Print(Filled(Group(x)))
  {
    hide Intended;
    IntendedConcat([Open], Print(x), [Close]);
    IntendedFixed(Open);
    IntendedFixed(Close);
  }

  lemma IntendedExists(list: string, x: Sql<Param>)
    requires Intended(Print(x)) == Print(Filled(x))
    ensures Intended(Print(Exists(list, x))) == Print(Filled(Exists(list, x)))
  {
    hide Intended;
    IntendedConcat([ExistsOpen(list)], Print(x), [Close]);
    IntendedFixed(ExistsOpen(list));
    IntendedFixed(Close);
  }

  lemma IntendedCount(list: string, x: Sql<Param>, test: CountTest)
    requires Intended(Print(x)) == Print(Filled(x))
    ensures Intended(Print(Count(list, x, test))) == Print(Filled(Count(list, x, test)))
  {
    hide Intended;
    IntendedConcat([CountOpen(list)], Print(x), [Close, CountTail(test)]);
    IntendedFixed(CountOpen(list));
    IntendedClosing(test);
  }

  lemma IntendedConcat(a: seq<Token<Param>>, b: seq<Token<Param>>, c: seq<Token<Param>>)
    ensures Intended(a + b + c) == Intended(a) + Intended(b) + Intended(c)
  {}

  lemma FilledAccepts(d: Dialect, e: Sql<Param>)
    ensures AcceptsAll(d, Filled(e)) == AcceptsAll(d, e)
  {}

  // ----- The placeholders of a rendered condition -----

  /** The placeholders of a condition, in the order of its text. */
  function ParamsOf(e: Sql<Param>): seq<Param> {
    match e
    case Leaf(_, ps) => ps
    case Negate(x) => ParamsOf(x)
    case Binary(_, l, r) => ParamsOf(l) + ParamsOf(r)
    case Group(x) => ParamsOf(x)
    case Exists(_, x) => ParamsOf(x)
    case Count(_, x, _) => ParamsOf(x)
  }

  lemma {:induction false} HolesOfPrint(e: Sql<Param>)
    ensures HolesIn(Print(e)) == ParamsOf(e)
  {
    hide HolesIn;
    match e
    case Leaf(t, ps) =>
      HolesInHoles(ps);
      NoHoles<Param>();
      HolesInside(Text(t), Holes(ps), []);
      assert Print(e) == [Text(t)] + Holes(ps) + [];
    case Negate(x) =>
      HolesOfPrint(x);
      NoHoles<Param>();
      HolesInside(NotWord, Print(x), []);
      assert Print(e) == [NotWord] + Print(x) + [];
    case Binary(op, l, r) =>
      HolesOfPrint(l);
      HolesOfPrint(r);
      FixedHasNoHole(Word(op));
      HolesBetween(Print(l), [Word(op)], Print(r));
    case Group(x) =>
      HolesOfPrint(x);
      FixedHasNoHole(Close);
      HolesInside(Open, Print(x), [Close]);
    case Exists(list, x) =>
      HolesOfPrint(x);
      FixedHasNoHole(Close);
      HolesInside(ExistsOpen(list), Print(x), [Close]);
    case Count(list, x, test) =>
      HolesOfPrint(x);
      ClosingHasNoHoles(test);
      HolesInside(CountOpen(list), Print(x), [Close, CountTail(test)]);
  }

  lemma FixedHasNoHole(t: Token<Param>)
    requires !t.Hole?
    ensures HolesIn([t]) == []
  {
    var rest: seq<Token<Param>> := [t][1..];
    assert rest == [];
  }

  lemma ClosingHasNoHoles(test: CountTest)
    ensures HolesIn<Param>([Close, CountTail(test)]) == []
  {
    hide HolesIn;
    var closing: seq<Token<Param>> := [Close, CountTail(test)];
    HolesInFirst(closing);
    assert closing[1..] == [CountTail(test)];
    FixedHasNoHole(CountTail(test));
  }

  lemma HolesInside(a: Token<Param>, b: seq<Token<Param>>, c: seq<Token<Param>>)
    requires !a.Hole? && HolesIn(c) == []
    ensures HolesIn([a] + b + c) == HolesIn(b)
  {
    hide HolesIn;
    HolesBetween([a], b, c);
    FixedHasNoHole(a);
  }

  lemma HolesBetween(a: seq<Token<Param>>, b: seq<Token<Param>>, c: seq<Token<Param>>)
    ensures HolesIn(a + b + c) == HolesIn(a) + HolesIn(b) + HolesIn(c)
  {
    HolesInConcat(a, b);
    HolesInConcat(a + b, c);
  }

  /** Each placeholder holds the argument it was minted for. */
  predicate MintedFrom(ps: seq<Param>, n: nat, args: seq<Value>) {
    forall i :: 0 <= i < |ps| ==> n <= ps[i].slot < n + |args| && args[ps[i].slot - n] == ps[i].v
  }

  function ShapeParams(s: Shape): seq<Param> {
    if s.Plain? then ParamsOf(s.e) else []
  }

  // ----- Which conditions keep all of their arguments -----

  /** The outcome of a condition that constants alone decide. */
  function Verdict(c: Condition): Option<bool> {
    match c
    case Constant(b) => Some(b)
    case NotCondition(x) => (match Verdict(x) case Some(b) => Some(!b) case None => None)
    case Logical(op, l, r) =>
      // FALSE decides a conjunction, TRUE a disjunction
      var decisive := op == LogicalOr;
      if Verdict(l) == Some(decisive) || Verdict(r) == Some(decisive) then Some(decisive)
      else if Verdict(l) == Some(!decisive) then Verdict(r)
      else if Verdict(r) == Some(!decisive) then Verdict(l)
      else None
    case _ => None
  }

  /** Whether rendering the condition mints an argument. */
  predicate BearsArgument(d: Dialect, fs: Fields, c: Condition) {
    match c
    case Logical(_, l, r) => BearsArgument(d, fs, l) || BearsArgument(d, fs, r)
    case NotCondition(x) => BearsArgument(d, fs, x)
    case FieldPredicate(_) => false
    case Comparison(FieldRef(f), _, rhs) =>
      f in fs && (match fs[f].kind
                  case JsonBool => d == Postgres
                  case JsonExists => false
                  case _ => rhs != Literal(Null))
    case Comparison(_, _, _) => true
    case InValues(_, values) => values != []
    case ListComprehension(_, _, EqualsText(_)) => true
    case ListComprehension(_, _, StartsWith(v)) => v != ""
    case ListComprehension(_, _, EndsWith(v)) => v != ""
    case ListComprehension(_, _, HoldsText(v)) => v != ""
    case Constant(_) => false
    case _ => true
  }

  /** No part of the condition that constants decide bears an argument. A caller can check this
      on the tree before rendering it. */
  predicate NoArgumentDropped(d: Dialect, fs: Fields, c: Condition) {
    if Verdict(c).Some? then !BearsArgument(d, fs, c)
    else match c
      case Logical(_, l, r) => NoArgumentDropped(d, fs, l) && NoArgumentDropped(d, fs, r)
      case NotCondition(x) => NoArgumentDropped(d, fs, x)
      case _ => true
  }

  ghost predicate ShapeAgrees(s: Shape, verdict: Option<bool>) {
    && (s.Always? <==> verdict == Some(true))
    && (s.Never? <==> verdict == Some(false))
  }

  lemma {:induction false} AnyMemberParams(d: Dialect, n: nat, list: string, vs: seq<string>)
    requires vs != []
    ensures ParamsOf(AnyMemberTree(d, n, list, vs)) == Params(n, StrValues(vs))
    decreases |vs|
  {
    var k := |vs| - 1;
    if k > 0 {
      AnyMemberParams(d, n, list, vs[..k]);
      assert ParamsOf(MemberTree(d, n + k, list, vs[k])) == [Param(n + k, Str(vs[k]))];
    }
  }

  lemma AtomParams(d: Dialect, fs: Fields, n: nat, c: Condition)
    requires !c.Logical? && !c.NotCondition? && Tree(d, fs, n, c).Done?
    ensures var out := Tree(d, fs, n, c);
      && ShapeAgrees(out.shape, Verdict(c))
      && (BearsArgument(d, fs, c) <==> out.args != [])
      && ShapeParams(out.shape) == Params(n, out.args)
  {
    match c
    case InValues(_, _) => InParams(d, fs, n, c);
    case ListComprehension(kind, list, pred) =>
      hide ComprehensionTree;
      ComprehensionParams(d, n, list, pred, kind);
    case ElementIn(element, list) =>
      hide ComprehensionTree;
      ComprehensionParams(d, n, list, EqualsText(element.v.s), SomeElement);
    case Comparison(_, _, _) => ComparisonParams(d, fs, n, c);
    case FieldPredicate(_) =>
    case TextMatch(_, _, _) =>
    case RegexMatch(_, _) =>
    case Constant(_) =>
  }

  lemma ComparisonParams(d: Dialect, fs: Fields, n: nat, c: Condition)
    requires c.Comparison? && Tree(d, fs, n, c).Done?
    ensures var out := Tree(d, fs, n, c);
      && out.shape.Plain?
      && (BearsArgument(d, fs, c) <==> out.args != [])
      && ParamsOf(out.shape.e) == Params(n, out.args)
  {
    if c.lhs.FieldRef? {
      NegatedLeafParams(JsonIsTrue(c.lhs.name));
      NegatedLeafParams(ExistsTemplate(d, c.lhs.name));
    }
  }

  lemma InParams(d: Dialect, fs: Fields, n: nat, c: Condition)
    requires c.InValues? && Tree(d, fs, n, c).Done?
    ensures var out := Tree(d, fs, n, c);
            out.shape.Plain? && |out.args| == |c.values| && ParamsOf(out.shape.e) == Params(n, out.args)
  {
    if c.subject.name == TAG {
      var list, vs := ResolveAlias(fs, TAG).value, Texts(c.values).value;
      if vs != [] {
        AnyMemberParams(d, n, list, vs);
      }
    }
  }

  lemma NegatedLeafParams(t: Template)
    ensures ParamsOf(Negate(Group(Leaf(t, [])))) == []
  {
    assert ParamsOf(Group(Leaf(t, []))) == [];
  }

  lemma ComprehensionParams(d: Dialect, n: nat, list: string, pred: ElementPredicate, kind: ComprehensionKind)
    ensures var (e, args) := ElementTree(d, n, pred);
            ParamsOf(ComprehensionTree(d, list, kind, e)) == Params(n, args)
  {
    var (e, args) := ElementTree(d, n, pred);
    assert ParamsOf(e) == Params(n, args);
    var none := NoMatchTree(d, list, Negate(Group(e)));
    assert ParamsOf(Exists(list, Negate(Group(e)))) == ParamsOf(Negate(Group(e))) == ParamsOf(Group(e));
    assert ParamsOf(none) == Params(n, args);
    assert ParamsOf(Binary(AndOp, Leaf(ListNotEmpty(list), []), none)) == ParamsOf(none);
  }

  lemma ParamsSplit(n: nat, a: seq<Value>, b: seq<Value>)
    ensures Params(n, a + b) == Params(n, a) + Params(n + |a|, b)
  {}

  lemma MintedConcat(p: seq<Param>, q: seq<Param>, n: nat, a: seq<Value>, b: seq<Value>)
    requires MintedFrom(p, n, a) && MintedFrom(q, n + |a|, b)
    ensures MintedFrom(p, n, a + b) && MintedFrom(q, n, a + b) && MintedFrom(p + q, n, a + b)
  {}

  ghost predicate ParamsAgree(d: Dialect, fs: Fields, n: nat, c: Condition, s: Shape, args: seq<Value>) {
    && ShapeAgrees(s, Verdict(c))
    && (BearsArgument(d, fs, c) <==> args != [])
    && MintedFrom(ShapeParams(s), n, args)
    && |ShapeParams(s)| <= |args|
    && (if NoArgumentDropped(d, fs, c) then ShapeParams(s) == Params(n, args) else |ShapeParams(s)| < |args|)
  }

  /** Every surviving placeholder holds the value it was minted for; the surviving placeholders
      are all the minted ones exactly when no part decided by constants bears an argument. */
  lemma {:induction false} RenderedParams(d: Dialect, fs: Fields, n: nat, c: Condition)
    requires Tree(d, fs, n, c).Done?
    ensures ParamsAgree(d, fs, n, c, Tree(d, fs, n, c).shape, Tree(d, fs, n, c).args)
    decreases c
  {
    if c.Logical? {
      hide ParamsAgree, AndShape, OrShape;
      RenderedParams(d, fs, n, c.left);
      var left := Tree(d, fs, n, c.left);
      var right := Tree(d, fs, n + |left.args|, c.right);
      RenderedParams(d, fs, n + |left.args|, c.right);
      LogicalTree(d, fs, n, c, left, right);
      LogicalParams(d, fs, n, c, left.shape, left.args, right.shape, right.args);
    } else if c.NotCondition? {
      RenderedParams(d, fs, n, c.child);
      NotParams(d, fs, n, c.child, Tree(d, fs, n, c.child).shape, Tree(d, fs, n, c.child).args);
    } else {
      AtomParamsAgree(d, fs, n, c);
    }
  }

  // ----- The values of the placeholders that survive -----

  /** The arguments minted for the parts of the condition that constants do not decide, in order. */
  function Surviving(d: Dialect, fs: Fields, n: nat, c: Condition): seq<Value>
    decreases c
  {
    if Verdict(c).Some? then []
    else match c
      case Logical(_, l, r) =>
        var left := Tree(d, fs, n, l);
        Surviving(d, fs, n, l) + Surviving(d, fs, n + if left.Done? then |left.args| else 0, r)
      case NotCondition(x) => Surviving(d, fs, n, x)
      case _ => (match Tree(d, fs, n, c) case Done(_, args) => args case Failed => [])
  }

  /** The surviving placeholders are those of the undecided parts. */
  lemma {:induction false} SurvivingValues(d: Dialect, fs: Fields, n: nat, c: Condition)
    requires Tree(d, fs, n, c).Done?
    ensures Values(ShapeParams(Tree(d, fs, n, c).shape)) == Surviving(d, fs, n, c)
    decreases c
  {
    hide Tree, Surviving, Values, ShapeParams, Verdict, AndShape, OrShape, NotShape;
    if c.Logical? {
      LogicalParts(d, fs, n, c);
      SurvivingParts(d, fs, n, c);
      var left := Tree(d, fs, n, c.left);
      var right := Tree(d, fs, n + |left.args|, c.right);
      SurvivingValues(d, fs, n, c.left);
      SurvivingValues(d, fs, n + |left.args|, c.right);
      LogicalTree(d, fs, n, c, left, right);
      ShapeVerdict(d, fs, n, c.left);
      ShapeVerdict(d, fs, n + |left.args|, c.right);
      LogicalSurvives(c, left.shape, right.shape);
    } else if c.NotCondition? {
      NegatedSurvives(d, fs, n, c);
      SurvivingValues(d, fs, n, c.child);
    } else {
      AtomSurvives(d, fs, n, c);
    }
  }

  lemma ShapeVerdict(d: Dialect, fs: Fields, n: nat, c: Condition)
    requires Tree(d, fs, n, c).Done?
    ensures ShapeAgrees(Tree(d, fs, n, c).shape, Verdict(c))
  {
    RenderedParams(d, fs, n, c);
  }

  lemma LogicalParts(d: Dialect, fs: Fields, n: nat, c: Condition)
    requires c.Logical? && Tree(d, fs, n, c).Done?
    ensures var left := Tree(d, fs, n, c.left); left.Done? && Tree(d, fs, n + |left.args|, c.right).Done?
  {}

  lemma SurvivingParts(d: Dialect, fs: Fields, n: nat, c: Condition)
    requires c.Logical? && Tree(d, fs, n, c.left).Done?
    ensures Surviving(d, fs, n, c) ==
      if Verdict(c).Some? then []
      else Surviving(d, fs, n, c.left) + Surviving(d, fs, n + |Tree(d, fs, n, c.left).args|, c.right)
  {
    hide Tree, Verdict;
  }

  lemma LogicalSurvives(c: Condition, l: Shape, r: Shape)
    requires c.Logical? && ShapeAgrees(l, Verdict(c.left)) && ShapeAgrees(r, Verdict(c.right))
    ensures var out := if c.op == LogicalAnd then AndShape(l, r) else OrShape(l, r);
      Values(ShapeParams(out)) == if Verdict(c).Some? then [] else Values(ShapeParams(l)) + Values(ShapeParams(r))
  {
    hide AndShape, OrShape, Values, ShapeParams;
    CombinedParams(l, r);
    UndecidedParams(l);
    UndecidedParams(r);
    ValuesConcat(ShapeParams(l), ShapeParams(r));
    LogicalVerdict(c, l, r);
    assert !l.Plain? && !r.Plain? ==> ShapeParams(l) + ShapeParams(r) == [];
  }

  /** A connective is decided when one side decides it or both sides are decided. */
  lemma LogicalVerdict(c: Condition, l: Shape, r: Shape)
    requires c.Logical? && ShapeAgrees(l, Verdict(c.left)) && ShapeAgrees(r, Verdict(c.right))
    ensures Verdict(c).Some? <==>
      (if c.op == LogicalAnd then l.Never? || r.Never? else l.Always? || r.Always?) || (!l.Plain? && !r.Plain?)
  {
    DecidedEitherWay(Verdict(c.left));
    DecidedEitherWay(Verdict(c.right));
  }

  lemma DecidedEitherWay(verdict: Option<bool>)
    ensures verdict.None? || verdict == Some(true) || verdict == Some(false)
  {
    if verdict.Some? && verdict.value {
      assert verdict == Some(true);
    }
  }

  lemma NegatedSurvives(d: Dialect, fs: Fields, n: nat, c: Condition)
    requires c.NotCondition? && Tree(d, fs, n, c).Done?
    ensures Tree(d, fs, n, c.child).Done? && Surviving(d, fs, n, c) == Surviving(d, fs, n, c.child)
    ensures ShapeParams(Tree(d, fs, n, c).shape) == ShapeParams(Tree(d, fs, n, c.child).shape)
  {
    CombinedParams(Tree(d, fs, n, c.child).shape, Always);
  }

  lemma UndecidedParams(s: Shape)
    ensures !s.Plain? ==> ShapeParams(s) == []
  {}

  lemma ValuesConcat(p: seq<Param>, q: seq<Param>)
    ensures Values(p + q) == Values(p) + Values(q)
    ensures Values([]) == []
  {}

  lemma AtomSurvives(d: Dialect, fs: Fields, n: nat, c: Condition)
    requires !c.Logical? && !c.NotCondition? && Tree(d, fs, n, c).Done?
    ensures Values(ShapeParams(Tree(d, fs, n, c).shape)) == Surviving(d, fs, n, c)
  {
    hide Tree;
    AtomParams(d, fs, n, c);
    ValuesOfParams(n, Tree(d, fs, n, c).args);
    if Verdict(c).Some? {
      DecidedAtom(d, fs, n, c);
    }
  }

  lemma DecidedAtom(d: Dialect, fs: Fields, n: nat, c: Condition)
    requires !c.Logical? && !c.NotCondition? && Verdict(c).Some?
    ensures Tree(d, fs, n, c).Done? && Tree(d, fs, n, c).args == []
  {}

  lemma LogicalTree(d: Dialect, fs: Fields, n: nat, c: Condition, left: Outcome, right: Outcome)
    requires c.Logical? && Tree(d, fs, n, c).Done?
    requires left == Tree(d, fs, n, c.left) && left.Done? && right == Tree(d, fs, n + |left.args|, c.right)
    ensures right.Done?
    ensures Tree(d, fs, n, c) ==
      Done(if c.op == LogicalAnd then AndShape(left.shape, right.shape) else OrShape(left.shape, right.shape),
           left.args + right.args)
  {}

  lemma AtomParamsAgree(d: Dialect, fs: Fields, n: nat, c: Condition)
    requires !c.Logical? && !c.NotCondition? && Tree(d, fs, n, c).Done?
    ensures ParamsAgree(d, fs, n, c, Tree(d, fs, n, c).shape, Tree(d, fs, n, c).args)
  {
    AtomParams(d, fs, n, c);
    AtomDropsNothing(d, fs, c);
    ParamsAreMinted(n, Tree(d, fs, n, c).args);
  }

  lemma AtomDropsNothing(d: Dialect, fs: Fields, c: Condition)
    requires !c.Logical? && !c.NotCondition?
    ensures NoArgumentDropped(d, fs, c)
  {}

  lemma ParamsAreMinted(n: nat, args: seq<Value>)
    ensures MintedFrom(Params(n, args), n, args)
  {}

  lemma NotParams(d: Dialect, fs: Fields, n: nat, x: Condition, s: Shape, args: seq<Value>)
    requires ParamsAgree(d, fs, n, x, s, args)
    ensures ParamsAgree(d, fs, n, NotCondition(x), NotShape(s), args)
  {
    CombinedParams(s, Always);
  }

  lemma LogicalParams(d: Dialect, fs: Fields, n: nat, c: Condition, l: Shape, la: seq<Value>, r: Shape, ra: seq<Value>)
    requires c.Logical?
    requires ParamsAgree(d, fs, n, c.left, l, la) && ParamsAgree(d, fs, n + |la|, c.right, r, ra)
    ensures ParamsAgree(d, fs, n, c, if c.op == LogicalAnd then AndShape(l, r) else OrShape(l, r), la + ra)
  {
    ParamsSplit(n, la, ra);
    MintedConcat(ShapeParams(l), ShapeParams(r), n, la, ra);
    CombinedParams(l, r);
  }

  lemma CombinedParams(l: Shape, r: Shape)
    ensures ShapeParams(NotShape(l)) == ShapeParams(l)
    ensures ShapeParams(AndShape(l, r)) == if l.Never? || r.Never? then [] else ShapeParams(l) + ShapeParams(r)
    ensures ShapeParams(OrShape(l, r)) == if l.Always? || r.Always? then [] else ShapeParams(l) + ShapeParams(r)
  {
    if l.Plain? && r.Plain? {
      assert ParamsOf(Binary(AndOp, l.e, r.e)) == ParamsOf(Binary(OrOp, l.e, r.e)) == ParamsOf(l.e) + ParamsOf(r.e);
    }
    if l.Plain? {
      assert ParamsOf(Group(l.e)) == ParamsOf(l.e);
    }
  }
}
