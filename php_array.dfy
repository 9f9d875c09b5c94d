/**
 * PHP's ordered array with string keys and string values, iterated in
 * insertion order. Catalog values are taken as strings too; `+` never reads
 * a value, so a nested array in a loaded catalog would be carried the same.
 */
module PhpArray {

  /** No key is listed twice. */
  predicate Distinct(s: seq<string>) {
    forall i, j :: 0 <= i < j < |s| ==> s[i] != s[j]
  }

  /** The keys of `ks`, in order, that are not in `dom`. */
  function Missing(ks: seq<string>, dom: set<string>): (r: seq<string>)
    ensures forall k :: k in r <==> k in ks && k !in dom
    ensures |r| <= |ks|
    decreases |ks|
  {
    if ks == [] then []
    else
      var prev := Missing(ks[..|ks| - 1], dom);
      var k := ks[|ks| - 1];
      assert forall x :: x in ks <==> x in ks[..|ks| - 1] || x == k;
      if k in dom then prev else prev + [k]
  }

  lemma {:induction false} MissingDistinct(ks: seq<string>, dom: set<string>)
    requires Distinct(ks)
    ensures Distinct(Missing(ks, dom))
    decreases |ks|
  {
    if ks != [] {
      MissingDistinct(ks[..|ks| - 1], dom);
    }
  }

  /**
   * An insertion-ordered array: `keys` lists every key once, in the order
   * it was first stored, and `values` holds what each key maps to.
   */
  datatype OrderedMap = OrderedMap(keys: seq<string>, values: map<string, string>) {

    ghost predicate Valid() {
      Distinct(keys) && forall k :: k in keys <==> k in values
    }

    /** The values in iteration order, as `foreach ($a as $v)` visits them. */
    function Values(): (r: seq<string>)
      requires Valid()
      ensures |r| == |keys|
      ensures forall i :: 0 <= i < |keys| ==> r[i] == values[keys[i]]
    {
      seq(|keys|, i requires 0 <= i < |keys| => values[keys[i]])
    }

    /**
     * `$a[$k] = $v`: an existing key keeps its place and gets the new value;
     * a new key goes to the end.
     */
    function Put(k: string, v: string): (r: OrderedMap)
      requires Valid()
      ensures r.Valid()
      ensures k in r.values && r.values[k] == v
      ensures forall x :: x != k ==> (x in r.values <==> x in values)
      ensures forall x :: x != k && x in values ==> r.values[x] == values[x]
      ensures k in values ==> r.keys == keys
      ensures k !in values ==> r.keys == keys + [k]
    {
      if k in values then OrderedMap(keys, values[k := v])
      else OrderedMap(keys + [k], values[k := v])
    }

    /**
     * `$a + $b`: every entry of `$a` stays as it is; each key of `$b` that
     * `$a` lacks is appended with `$b`'s value, in `$b`'s order.
     */
    function Union(b: OrderedMap): (r: OrderedMap)
      requires Valid() && b.Valid()
      ensures r.Valid()
      ensures r.keys == keys + Missing(b.keys, values.Keys)
      ensures forall x :: x in r.values <==> x in values || x in b.values
      ensures forall x :: x in values ==> r.values[x] == values[x]
      ensures forall x :: x in b.values && x !in values ==> r.values[x] == b.values[x]
    {
      var added := Missing(b.keys, values.Keys);
      var r := OrderedMap(keys + added,
                          map x | x in values.Keys + b.values.Keys ::
                            if x in values then values[x] else b.values[x]);
      MissingDistinct(b.keys, values.Keys);
      assert forall x :: x in added ==> x !in keys;
      DistinctAppend(keys, added);
      r
    }
  }

  lemma DistinctAppend(a: seq<string>, b: seq<string>)
    requires Distinct(a) && Distinct(b)
    requires forall x :: x in b ==> x !in a
    ensures Distinct(a + b)
  {
    var c := a + b;
    forall i, j | 0 <= i < j < |c| ensures c[i] != c[j] {
      if j >= |a| && i < |a| {
        assert c[j] == b[j - |a|] && c[j] in b;
        assert c[i] == a[i] && c[i] in a;
      } else if i >= |a| {
        assert c[i] == b[i - |a|] && c[j] == b[j - |a|];
      }
    }
  }

  const Empty: OrderedMap := OrderedMap([], map[])
}
