/** Failure-carrying wrappers shared by the whole model. */
module Base {

  datatype Option<T> = None | Some(value: T)

  /** The outcome of an operation the script would either complete or abort with an exception. */
  datatype Result<T, E> = Ok(value: T) | Err(error: E)

  /** `dict.get(k, None)`: the value stored under `k`, or None when the key is absent. */
  function Lookup<K, V>(m: map<K, V>, k: K): Option<V>
  {
    if k in m then Some(m[k]) else None
  }

  /** Two maps that agree on every lookup are the same map. */
  lemma LookupExtensional<K, V>(a: map<K, V>, b: map<K, V>)
    requires forall k :: Lookup(a, k) == Lookup(b, k)
    ensures a == b
  {
    assert a.Keys == b.Keys by {
      forall k ensures k in a <==> k in b {
        assert Lookup(a, k) == Lookup(b, k);
      }
    }
    forall k | k in a ensures a[k] == b[k] {
      assert Lookup(a, k) == Lookup(b, k);
    }
  }
}
