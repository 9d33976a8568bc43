/** The optional value used for JavaScript's `undefined` results (a missing map key,
    a response without a rate-limit header, a callback without an error). */
module Wrappers {

  datatype Option<+T> = None | Some(value: T)

  /** Looking a key up in a map the way `obj[key]` does: absent keys give None. */
  function Lookup<K, V>(m: map<K, V>, k: K): (r: Option<V>)
    ensures r.Some? <==> k in m
    ensures r.Some? ==> r.value == m[k]
  {
    if k in m then Some(m[k]) else None
  }
}
