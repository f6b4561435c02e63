/** The optional value returned by the matchers and parsers of this model, and a sequence fact the folds share. */
module Wrappers {

  /** `None` is a failed match or parse, `Some(v)` a successful one. */
  datatype Option<+T> = None | Some(value: T)

  /** Concatenation is associative; stated once, for sequences of any element type. */
  lemma AppendAssoc<T>(a: seq<T>, b: seq<T>, c: seq<T>)
    ensures a + (b + c) == (a + b) + c
  {
  }
}
