/** Option and the members of sequences and sets, shared by the other modules. */
module Prelude {

  datatype Option<+T> = None | Some(value: T)

  /** The members of a sequence. */
  function Elements<T(==)>(s: seq<T>): set<T> {
    set x | x in s
  }

  lemma SomeElement<T>(elements: set<T>) returns (e: T)
    requires elements != {}
    ensures e in elements
  {
    e :| e in elements;
  }
}
