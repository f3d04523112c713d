/** Sums over finite sets. The source accumulates `+=` while iterating over
    dictionary keys in an order the model does not fix; a sum over the key
    SET states the result independently of that order. */
module Sums {

  ghost function SetSum<T>(s: set<T>, f: T -> real): real
    decreases |s|
  {
    if s == {} then 0.0 else var x :| x in s; f(x) + SetSum(s - {x}, f)
  }

  /** Any element can be taken out first: the sum does not depend on the
      order in which the set is traversed. */
  lemma {:induction false} SetSumRemove<T>(s: set<T>, y: T, f: T -> real)
    requires y in s
    ensures SetSum(s, f) == f(y) + SetSum(s - {y}, f)
    decreases |s|
  {
    var x :| x in s && SetSum(s, f) == f(x) + SetSum(s - {x}, f);
    if x != y {
      SetSumRemove(s - {x}, y, f);
      SetSumRemove(s - {y}, x, f);
      assert s - {x} - {y} == s - {y} - {x};
    }
  }

  /** Adding one new element adds its value: the step of an accumulating loop. */
  lemma SetSumAdd<T>(s: set<T>, y: T, f: T -> real)
    requires y !in s
    ensures SetSum(s + {y}, f) == SetSum(s, f) + f(y)
  {
    SetSumRemove(s + {y}, y, f);
    assert s + {y} - {y} == s;
  }

  /** A sum of zeros is zero. */
  lemma {:induction false} SetSumZero<T>(s: set<T>, f: T -> real)
    requires forall x :: x in s ==> f(x) == 0.0
    ensures SetSum(s, f) == 0.0
    decreases |s|
  {
    if s != {} {
      var x :| x in s && SetSum(s, f) == f(x) + SetSum(s - {x}, f);
      SetSumZero(s - {x}, f);
    }
  }

  /** Sums of functions that agree on the set are equal. */
  lemma {:induction false} SetSumEqual<T>(s: set<T>, f: T -> real, g: T -> real)
    requires forall x :: x in s ==> f(x) == g(x)
    ensures SetSum(s, f) == SetSum(s, g)
    decreases |s|
  {
    if s != {} {
      var x :| x in s && SetSum(s, f) == f(x) + SetSum(s - {x}, f);
      SetSumRemove(s, x, g);
      SetSumEqual(s - {x}, f, g);
    }
  }
}
