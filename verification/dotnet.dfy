/** The pieces of the .NET base library the ordered dictionary relies on:
    the exceptions it lets escape, the way a call on a mutable object ends,
    and the duplicate check of `Dictionary<TKey,TValue>.Add`. */
module DotNet {

  datatype Option<+T> = None | Some(value: T)

  /** The exception types the class can raise. */
  datatype Exception =
    | ArgumentOutOfRange  // a position outside the range the call accepts
    | Argument            // a key already present, or a copy target too small
    | ArgumentNull        // a null destination array
    | KeyNotFound         // the key indexer read with an absent key

  /** How a call ended: it returned a value or it threw. */
  datatype Result<+T> = Returned(value: T) | Threw(exception: Exception)

  /** A call on a mutable object: the object's state once the call is over,
      and how the call ended. After a throw the state keeps every change the
      call made before the exception was raised. */
  datatype Step<+S, +T> = Step(state: S, result: Result<T>)

  /** `Dictionary.Add`: a present key raises ArgumentException and leaves the
      map as it was; a fresh key is bound and nothing else changes. */
  function DictionaryAdd<K, X>(m: map<K, X>, key: K, x: X): (r: Step<map<K, X>, ()>)
    ensures r.result.Threw? <==> key in m
    ensures r.result.Threw? ==> r.result.exception == Argument && r.state == m
    ensures r.result.Returned? ==>
              && r.state.Keys == m.Keys + {key}
              && r.state[key] == x
              && forall k :: k in m ==> r.state[k] == m[k]
  {
    if key in m then Step(m, Threw(Argument)) else Step(m[key := x], Returned(()))
  }
}
