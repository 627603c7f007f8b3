/** Shared definitions. */
module Wrappers {
  datatype Option<+T> = None | Some(value: T)

  lemma OnlyElement<T>(s: set<T>, x: T)
    requires |s| == 1 && x in s
    ensures s == {x}
  {
    assert |s - {x}| == 0;
  }
}
