/** Option, standing for a nullable reference of the modelled program,
    and a map lookup that answers with one. */
module Wrappers {

  /** `None` is the source's `null`. */
  datatype Option<+T> = None | Some(value: T)

  /** Looking a key up in a table whose missing keys answer `null`
      (`Properties.getProperty`, `System.getenv`). */
  function Lookup<K, V>(m: map<K, V>, key: K): (r: Option<V>)
    ensures r.Some? <==> key in m
    ensures r.Some? ==> r.value == m[key]
  {
    if key in m then Some(m[key]) else None
  }
}
