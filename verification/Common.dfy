// Small vocabulary shared by the models: optional values and facts about
// finite sets that the solver does not find on its own.
module Common {

  datatype Option<+T> = None | Some(value: T)

  function Max(a: int, b: int): int {
    if a < b then b else a
  }

  function Min(a: int, b: int): int {
    if a < b then a else b
  }

  // A strictly smaller set has strictly fewer elements.
  lemma StrictSubsetIsSmaller<T>(a: set<T>, b: set<T>, x: T)
    requires a <= b && x in b && x !in a
    ensures |a| < |b|
  {
    assert a <= b - {x};
    SubsetIsNoLarger(a, b - {x});
  }

  lemma {:induction false} SubsetIsNoLarger<T>(a: set<T>, b: set<T>)
    requires a <= b
    ensures |a| <= |b|
  {
    if a != {} {
      var x :| x in a;
      SubsetIsNoLarger(a - {x}, b - {x});
    }
  }

  ghost predicate Distinct<T>(xs: seq<T>) {
    forall i, j | 0 <= i < j < |xs| :: xs[i] != xs[j]
  }

  function Sum(xs: seq<int>): (sum: int)
    ensures (forall i | 0 <= i < |xs| :: xs[i] >= 0) ==> sum >= 0
  {
    if xs == [] then 0 else Sum(xs[..|xs| - 1]) + xs[|xs| - 1]
  }

  // The times of a history never go back.
  ghost predicate ClockGoesForward<T>(history: seq<T>, time: T -> int) {
    forall i, j | 0 <= i < j < |history| :: time(history[i]) <= time(history[j])
  }
}
