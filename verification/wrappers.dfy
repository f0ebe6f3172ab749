/** Optional values, used where the scripts return or store Python's `None`. */
module Wrappers {

  datatype Option<+T> = None | Some(value: T)

  /** Looks a key up in a map the way `dict.get` does: `None` when the key is absent. */
  function Get<K, V>(m: map<K, V>, k: K): (r: Option<V>)
    ensures r.Some? <==> k in m
    ensures r.Some? ==> r.value == m[k]
  {
    if k in m then Some(m[k]) else None
  }
}
