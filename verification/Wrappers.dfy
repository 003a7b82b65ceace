/** Shared by the models: the option type, and the size of a subset. */
module Wrappers {
  datatype Option<+T> = None | Some(value: T)

  lemma {:induction false} SubsetIsSmaller<T>(a: set<T>, b: set<T>)
    requires a <= b
    ensures |a| <= |b|
  {
    if a != {} {
      var x :| x in a;
      SubsetIsSmaller(a - {x}, b - {x});
    }
  }
}
