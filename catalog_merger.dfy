/**
 * Folding the scan's keys into every existing `messages.php` catalog with
 * PHP's array union: what a catalog already holds is never touched, and
 * each key it lacks is added, mapped to itself, after the existing entries.
 */
module CatalogMerger {

  import opened PhpArray
  import KeyRegistry

  /**
   * `appendTranslations` on catalogs already loaded: each one, in the order
   * they are found, becomes `$currentStrings + $translations`.
   */
  method AppendTranslations(catalogs: seq<OrderedMap>, translations: OrderedMap)
    returns (updated: seq<OrderedMap>)
    requires forall i :: 0 <= i < |catalogs| ==> catalogs[i].Valid()
    requires translations.Valid()
    ensures |updated| == |catalogs|
    ensures forall i :: 0 <= i < |catalogs| ==> updated[i] == catalogs[i].Union(translations)
  {
    updated := [];
    for i := 0 to |catalogs|
      invariant |updated| == i
      invariant forall j :: 0 <= j < i ==> updated[j] == catalogs[j].Union(translations)
    {
      var currentStrings := catalogs[i];
      currentStrings := currentStrings.Union(translations);
      updated := updated + [currentStrings];
    }
  }

  /** The keys of `a + b` missing from a set are those of `a`, then those of `b`. */
  lemma {:induction false} MissingAppend(a: seq<string>, b: seq<string>, dom: set<string>)
    ensures Missing(a + b, dom) == Missing(a, dom) + Missing(b, dom)
    decreases |b|
  {
    if b == [] {
      assert a + b == a;
    } else {
      var init := b[..|b| - 1];
      assert (a + b)[..|a + b| - 1] == a + init;
      assert (a + b)[|a + b| - 1] == b[|b| - 1];
      MissingAppend(a, init, dom);
    }
  }

  /**
   * Merging the scan result into a catalog keeps the catalog's entries, in
   * their places and with their values, and appends exactly the scanned
   * keys the catalog lacks, in scan order, each mapped to itself.
   */
  lemma MergeKeepsCatalog(catalog: OrderedMap, reg: KeyRegistry.Registry)
    requires catalog.Valid() && reg.Valid()
    ensures var r := catalog.Union(reg.translations);
            && r.keys[..|catalog.keys|] == catalog.keys
            && r.keys[|catalog.keys|..] == Missing(reg.translations.keys, catalog.values.Keys)
            && (forall k :: k in catalog.values ==> r.values[k] == catalog.values[k])
            && (forall k :: k in r.values && k !in catalog.values ==>
                  k in reg.translations.values && r.values[k] == k)
            && (forall k :: k in reg.translations.values ==> k in r.values)
  {
    var r := catalog.Union(reg.translations);
    assert r.keys == catalog.keys + Missing(reg.translations.keys, catalog.values.Keys);
  }

  /** Appending the same scan result a second time changes nothing. */
  lemma MergeIdempotent(catalog: OrderedMap, translations: OrderedMap)
    requires catalog.Valid() && translations.Valid()
    ensures catalog.Union(translations).Union(translations) == catalog.Union(translations)
  {
    var m := catalog.Union(translations);
    var r := m.Union(translations);
    MissingAllPresent(translations.keys, m.values.Keys);
    SameMap(r.values, m.values);
    assert r == OrderedMap(m.keys, m.values);
  }

  lemma {:induction false} MissingAllPresent(ks: seq<string>, dom: set<string>)
    requires forall k :: k in ks ==> k in dom
    ensures Missing(ks, dom) == []
    decreases |ks|
  {
    if ks != [] {
      assert forall k :: k in ks[..|ks| - 1] ==> k in ks;
      MissingAllPresent(ks[..|ks| - 1], dom);
    }
  }

  lemma SameMap(a: map<string, string>, b: map<string, string>)
    requires forall x :: x in a <==> x in b
    requires forall x :: x in a ==> a[x] == b[x]
    ensures a == b
  {
  }

  /** A catalog that holds nothing yet receives the scan result as it is. */
  lemma MergeIntoEmpty(catalog: OrderedMap, translations: OrderedMap)
    requires catalog.keys == [] && catalog.values == map[]
    requires translations.Valid()
    ensures catalog.Union(translations) == translations
  {
    var r := catalog.Union(translations);
    MissingNone(translations.keys, catalog.values.Keys);
    assert r.keys == translations.keys;
    SameMap(r.values, translations.values);
  }

  lemma {:induction false} MissingNone(ks: seq<string>, dom: set<string>)
    requires forall k :: k in ks ==> k !in dom
    ensures Missing(ks, dom) == ks
    decreases |ks|
  {
    if ks != [] {
      var init := ks[..|ks| - 1];
      assert forall k :: k in init ==> k in ks;
      MissingNone(init, dom);
      assert init + [ks[|ks| - 1]] == ks;
    }
  }

  /**
   * A catalog translating one key `g` (say "greeting") receives the other
   * key `f` (say "farewell") from a scan that found both, and keeps its own
   * translation of `g`.
   */
  lemma ExistingTranslationKept(g: string, f: string, translated: string)
    requires g != f
    ensures OrderedMap([g], map[g := translated]).Union(OrderedMap([g, f], map[g := g, f := f])) ==
            OrderedMap([g, f], map[g := translated, f := f])
  {
    var catalog := OrderedMap([g], map[g := translated]);
    var scanned := OrderedMap([g, f], map[g := g, f := f]);
    assert catalog.Valid() && scanned.Valid();
    var r := catalog.Union(scanned);
    assert r.keys == [g, f] by {
      NewKeyAfter(g, f, catalog.values.Keys);
    }
    assert r.values == map[g := translated, f := f] by {
      SameMap(r.values, map[g := translated, f := f]);
    }
  }

  lemma NewKeyAfter(g: string, f: string, dom: set<string>)
    requires g in dom && f !in dom
    ensures Missing([g, f], dom) == [f]
  {
    assert [g, f] == [g] + [f];
    MissingAppend([g], [f], dom);
    MissingAllPresent([g], dom);
    MissingNone([f], dom);
  }
}
