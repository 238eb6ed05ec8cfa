/** Small optional-value datatype shared by the other modules. */
module Wrappers {
  datatype Option<+T> = None | Some(value: T)

  /** A subset is no larger than its superset. */
  lemma {:induction false} SubsetCard<T>(a: set<T>, b: set<T>)
    requires a <= b
    ensures |a| <= |b|
  {
    assert b == a + (b - a);
  }
}
