/** Small value wrappers standing in for Java's nullable references and exceptions. */
module Wrappers {

  /** A Java reference that may be null: None is null. */
  datatype Option<+T> = None | Some(value: T)

  /** The result of a call into a collaborator that may throw: Threw is an exception. */
  datatype Fallible<+T> = Ok(value: T) | Threw

  /** Java's Map.get: null when the key is absent. */
  function Get<K, V>(m: map<K, V>, k: K): (r: Option<V>)
    ensures r.Some? <==> k in m
    ensures r.Some? ==> r.value == m[k]
  {
    if k in m then Some(m[k]) else None
  }

  /** A configuration or environment value that is neither null nor empty. */
  predicate IsSet(v: Option<string>)
  {
    v.Some? && v.value != ""
  }
}
