/** Optional values, used where the source has `None` or where a C++ call throws; and one fact about sequences. */
module Wrappers {
  datatype Option<T> = None | Some(value: T)

  /** Concatenation regroups freely; stated once so that large proofs need not rediscover it. */
  lemma Regroup<T>(a: seq<T>, b: seq<T>, c: seq<T>)
    ensures (a + b) + c == a + (b + c)
  {
  }
}
