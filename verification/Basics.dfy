/** Small shared types and facts. */
module Basics {
  datatype Option<+T> = None | Some(value: T)

  lemma {:induction false} Regroup<T>(a: seq<T>, b: seq<T>, c: seq<T>)
    ensures a + b + c == a + (b + c)
  {
  }
}
