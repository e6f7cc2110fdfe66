/** A Python `dict`: a map together with its keys in first-insertion order.
    Assigning to a key already present replaces its value and keeps its
    position; iteration (`.keys()`, `.values()`, `.items()`) follows `keys`. */
module OrderedDict {

  datatype Dict<K, V> = Dict(keys: seq<K>, entries: map<K, V>)

  /** The keys are listed once each, and exactly the keys of the map. */
  ghost predicate Valid<K(!new), V>(d: Dict<K, V>) {
    && (forall i, j :: 0 <= i < j < |d.keys| ==> d.keys[i] != d.keys[j])
    && (forall k :: k in d.entries <==> k in d.keys)
  }

  function Empty<K(!new), V>(): (d: Dict<K, V>)
    ensures Valid(d) && d.keys == [] && d.entries == map[]
  {
    Dict([], map[])
  }

  /** `d[k] = v` */
  function Put<K(!new), V>(d: Dict<K, V>, k: K, v: V): (r: Dict<K, V>)
    requires Valid(d)
    ensures Valid(r)
    ensures r.entries == d.entries[k := v]
    ensures k in d.entries ==> r.keys == d.keys
    ensures k !in d.entries ==> r.keys == d.keys + [k]
  {
    if k in d.entries then Dict(d.keys, d.entries[k := v])
    else Dict(d.keys + [k], d.entries[k := v])
  }

  /** Writing back the value a key already has changes nothing. */
  lemma PutSame<K(!new), V>(d: Dict<K, V>, k: K)
    requires Valid(d) && k in d.entries
    ensures Put(d, k, d.entries[k]) == d
  {
  }

  /** `list(d.values())` */
  function Values<K(!new), V>(d: Dict<K, V>): (vs: seq<V>)
    requires Valid(d)
    ensures |vs| == |d.keys|
    ensures forall i :: 0 <= i < |d.keys| ==> vs[i] == d.entries[d.keys[i]]
  {
    seq(|d.keys|, i requires 0 <= i < |d.keys| => d.entries[d.keys[i]])
  }

  /** A value is listed exactly when some key holds it, at the position of
      that key in the insertion order. */
  lemma ValuesHas<K(!new), V>(d: Dict<K, V>, v: V)
    requires Valid(d)
    ensures v in Values(d) <==> exists k :: k in d.entries && d.entries[k] == v
  {
    var vs := Values(d);
    if v in vs {
      var i :| 0 <= i < |vs| && vs[i] == v;
      assert d.keys[i] in d.entries && d.entries[d.keys[i]] == v;
    }
    if exists k :: k in d.entries && d.entries[k] == v {
      var k :| k in d.entries && d.entries[k] == v;
      var i :| 0 <= i < |d.keys| && d.keys[i] == k;
      assert vs[i] == v;
    }
  }
}
