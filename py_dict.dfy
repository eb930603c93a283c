/** The part of a Python dict that copyNormals relies on: a finite mapping whose
    keys are visited by `for k in d` in insertion order (Python 3.7 and later). */
module PyDict {

  /** A dict from vertex index to vertex index: `keys` lists its keys in
      insertion order and `at` holds the mapping. */
  datatype Dict = Dict(keys: seq<nat>, at: map<nat, nat>) {

    /** Every key is listed once, and the listed keys are the mapping's keys. */
    ghost predicate Valid()
    {
      && (forall p, q :: 0 <= p < q < |keys| ==> keys[p] != keys[q])
      && (forall k :: k in at <==> k in keys)
    }

    /** `d[k] = v`: a new key goes after all existing ones; an existing key keeps its
        place and only its value is replaced. */
    function Put(k: nat, v: nat): (r: Dict)
      requires Valid()
      ensures r.Valid()
      ensures r.at == at[k := v]
      ensures k in at ==> r.keys == keys
      ensures k !in at ==> r.keys == keys + [k]
    {
      if k in at then Dict(keys, at[k := v]) else Dict(keys + [k], at[k := v])
    }
  }

  /** `{}` */
  const Empty: Dict := Dict([], map[])
}
