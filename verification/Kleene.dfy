/** Three-valued logic of SQL conditions. */
module Kleene {

  datatype Truth = True | False | Unknown

  function OfBool(b: bool): Truth {
    if b then True else False
  }

  function Not(a: Truth): Truth {
    match a
    case True => False
    case False => True
    case Unknown => Unknown
  }

  function And(a: Truth, b: Truth): Truth {
    if a == False || b == False then False
    else if a == True && b == True then True
    else Unknown
  }

  function Or(a: Truth, b: Truth): Truth {
    Not(And(Not(a), Not(b)))
  }

  /** The truth value may turn out to be p. */
  predicate MayBe(a: Truth, p: bool) {
    a == Unknown || a == OfBool(p)
  }

  /** A connective is definite exactly when it has that value whatever its UNKNOWN operands turn out to be. */
  lemma ConnectivesExact(a: Truth, b: Truth, v: bool)
    ensures And(a, b) == OfBool(v) <==> forall p, q :: MayBe(a, p) && MayBe(b, q) ==> (p && q) == v
    ensures Or(a, b) == OfBool(v) <==> forall p, q :: MayBe(a, p) && MayBe(b, q) ==> (p || q) == v
    ensures Not(a) == OfBool(v) <==> forall p :: MayBe(a, p) ==> !p == v
  {
    assert MayBe(a, true) <==> a != False;
    assert MayBe(a, false) <==> a != True;
    assert MayBe(b, true) <==> b != False;
    assert MayBe(b, false) <==> b != True;
  }
}

/** Optional values and failing computations. */
module Outcomes {
  datatype Option<+T> = None | Some(value: T)
}
