/** Counting along injections between finite sets of numbers. */
module Counting {

  ghost predicate InjectiveInto(f: nat -> nat, from: set<nat>, to: set<nat>)
  {
    && (forall x :: x in from ==> f(x) in to)
    && (forall x, y :: x in from && y in from && f(x) == f(y) ==> x == y)
  }

  lemma {:induction false} InjectionBounds(f: nat -> nat, from: set<nat>, to: set<nat>)
    requires InjectiveInto(f, from, to)
    ensures |from| <= |to|
    decreases from
  {
    if from != {} {
      var x :| x in from;
      InjectionBounds(f, from - {x}, to - {f(x)});
      assert |from - {x}| == |from| - 1 && |to - {f(x)}| == |to| - 1;
    }
  }

  /** The numbers below `n`. */
  function UpTo(n: nat): (all: set<nat>)
    ensures |all| == n
    ensures forall k: nat :: k in all <==> k < n
  {
    if n == 0 then {} else UpTo(n - 1) + {n - 1}
  }
}
