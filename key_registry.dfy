/**
 * The per-scan accumulation of keys: `$translations` (an ordered array
 * mapping each key to itself), `$translationLocations` (each key's most
 * recent `path:offset`) and `$duplicate` (one entry per repeated sighting).
 */
module KeyRegistry {

  import opened Wrappers
  import opened PhpArray
  import opened PhpStrings
  import KeyExtractor

  /** One sighting of a key: the unescaped key and where its group starts. */
  datatype Occurrence = Occurrence(key: string, location: string)

  datatype Registry = Registry(
    translations: OrderedMap,
    locations: map<string, string>,
    duplicate: seq<string>)
  {
    /**
     * Every key maps to itself, every key has a location and nothing else
     * does, and every duplicate is a key.
     */
    ghost predicate Valid() {
      && translations.Valid()
      && (forall k :: k in translations.values ==> translations.values[k] == k)
      && locations.Keys == translations.values.Keys
      && (forall d :: d in duplicate ==> d in translations.values)
    }
  }

  const EmptyRegistry: Registry := Registry(PhpArray.Empty, map[], [])

  /**
   * One pass of the inner loop: a key seen before is appended to the
   * duplicates and keeps its place; a new key is appended to the keys; the
   * location is overwritten either way.
   */
  function Record(reg: Registry, o: Occurrence): (r: Registry)
    requires reg.Valid()
    ensures r.Valid()
    ensures o.key in r.translations.values
    ensures o.key in reg.translations.values ==>
              r.translations.keys == reg.translations.keys && r.duplicate == reg.duplicate + [o.key]
    ensures o.key !in reg.translations.values ==>
              r.translations.keys == reg.translations.keys + [o.key] && r.duplicate == reg.duplicate
    ensures r.locations == reg.locations[o.key := o.location]
  {
    var translations := reg.translations.Put(o.key, o.key);
    var duplicate := if o.key in reg.translations.values then reg.duplicate + [o.key] else reg.duplicate;
    assert translations.values.Keys == reg.translations.values.Keys + {o.key};
    assert forall d :: d in duplicate ==> d in reg.duplicate || d == o.key;
    Registry(translations, reg.locations[o.key := o.location], duplicate)
  }

  /** Recording a sequence of sightings, first to last. */
  function RecordAll(reg: Registry, os: seq<Occurrence>): (r: Registry)
    requires reg.Valid()
    ensures r.Valid()
    decreases |os|
  {
    if os == [] then reg else Record(RecordAll(reg, os[..|os| - 1]), os[|os| - 1])
  }

  lemma {:induction false} RecordAllAppend(reg: Registry, a: seq<Occurrence>, b: seq<Occurrence>)
    requires reg.Valid()
    ensures RecordAll(reg, a + b) == RecordAll(RecordAll(reg, a), b)
    decreases |b|
  {
    if b == [] {
      assert a + b == a;
    } else {
      var init := b[..|b| - 1];
      var o := b[|b| - 1];
      SplitLast(a, b);
      RecordAllLast(reg, a + b);
      RecordAllLast(RecordAll(reg, a), b);
      RecordAllAppend(reg, a, init);
    }
  }

  lemma SplitLast(a: seq<Occurrence>, b: seq<Occurrence>)
    requires b != []
    ensures (a + b)[..|a + b| - 1] == a + b[..|b| - 1] && (a + b)[|a + b| - 1] == b[|b| - 1]
  {
  }

  lemma RecordAllLast(reg: Registry, os: seq<Occurrence>)
    requires reg.Valid() && os != []
    ensures RecordAll(reg, os) == Record(RecordAll(reg, os[..|os| - 1]), os[|os| - 1])
  {
  }

  // Reference definitions over the plain list of keys seen.

  function Keys(os: seq<Occurrence>): (ks: seq<string>)
    ensures |ks| == |os| && forall i :: 0 <= i < |os| ==> ks[i] == os[i].key
  {
    seq(|os|, i requires 0 <= i < |os| => os[i].key)
  }

  /** Each key of `ks` once, at the place of its first sighting. */
  function FirstSeen(ks: seq<string>): seq<string>
    decreases |ks|
  {
    if ks == [] then []
    else if ks[|ks| - 1] in ks[..|ks| - 1] then FirstSeen(ks[..|ks| - 1])
    else FirstSeen(ks[..|ks| - 1]) + [ks[|ks| - 1]]
  }

  /** Every sighting of a key after its first, in order. */
  function Repeats(ks: seq<string>): seq<string>
    decreases |ks|
  {
    if ks == [] then []
    else if ks[|ks| - 1] in ks[..|ks| - 1] then Repeats(ks[..|ks| - 1]) + [ks[|ks| - 1]]
    else Repeats(ks[..|ks| - 1])
  }

  /** The position of the first sighting of `x`. */
  function FirstIndex(ks: seq<string>, x: string): (i: nat)
    requires x in ks
    ensures i < |ks| && ks[i] == x && x !in ks[..i]
  {
    if ks[0] == x then 0
    else
      assert x in ks[1..];
      var j := FirstIndex(ks[1..], x);
      assert ks[..j + 1] == [ks[0]] + ks[1..][..j];
      j + 1
  }

  lemma InPrefix(s: seq<string>, t: nat, k: nat)
    ensures k < t <= |s| ==> s[k] in s[..t]
  {
    if k < t <= |s| {
      assert s[..t][k] == s[k];
    }
  }

  /** The location of the last sighting of `k`, if there is one. */
  function LastLocation(os: seq<Occurrence>, k: string): Option<string>
    decreases |os|
  {
    if os == [] then None
    else if os[|os| - 1].key == k then Some(os[|os| - 1].location)
    else LastLocation(os[..|os| - 1], k)
  }

  lemma {:induction false} FirstIndexOfPrefix(ks: seq<string>, n: nat, x: string)
    requires n <= |ks| && x in ks[..n]
    ensures FirstIndex(ks[..n], x) == FirstIndex(ks, x)
  {
    var i := FirstIndex(ks[..n], x);
    var j := FirstIndex(ks, x);
    assert ks[..n][..i] == ks[..i];
    assert ks[..n][i] == ks[i];
    InPrefix(ks, i, j);
    InPrefix(ks, j, i);
  }

  /**
   * FirstSeen lists each key that was seen exactly once, in the order of
   * first sighting, and with Repeats it accounts for every sighting.
   */
  lemma {:induction false} FirstSeenMeaning(ks: seq<string>)
    ensures Distinct(FirstSeen(ks))
    ensures forall x :: x in FirstSeen(ks) <==> x in ks
    ensures forall i, j :: 0 <= i < j < |FirstSeen(ks)| ==>
              FirstIndex(ks, FirstSeen(ks)[i]) < FirstIndex(ks, FirstSeen(ks)[j])
    ensures forall x :: x in Repeats(ks) ==> x in ks
    ensures |FirstSeen(ks)| + |Repeats(ks)| == |ks|
    decreases |ks|
  {
    if ks != [] {
      var init := ks[..|ks| - 1];
      var last := ks[|ks| - 1];
      FirstSeenMeaning(init);
      assert forall x :: x in ks <==> x in init || x == last;
      var f := FirstSeen(init);
      forall x | x in f ensures FirstIndex(ks, x) == FirstIndex(init, x) {
        FirstIndexOfPrefix(ks, |ks| - 1, x);
      }
      if last !in init {
        assert FirstIndex(ks, last) == |ks| - 1;
        var g := f + [last];
        assert forall i :: 0 <= i < |f| ==> g[i] == f[i];
        forall i | 0 <= i < |f| ensures FirstIndex(ks, g[i]) < FirstIndex(ks, last) {
          assert g[i] in init;
        }
      }
    }
  }

  lemma KeysSnoc(os: seq<Occurrence>)
    requires os != []
    ensures Keys(os)[..|os| - 1] == Keys(os[..|os| - 1])
    ensures Keys(os)[|os| - 1] == os[|os| - 1].key
  {
  }

  /** The registry holds exactly the keys seen. */
  lemma {:induction false} RecordAllDomain(os: seq<Occurrence>)
    ensures forall k :: k in RecordAll(EmptyRegistry, os).translations.values <==> k in Keys(os)
    decreases |os|
  {
    if os != [] {
      var ks := Keys(os);
      RecordAllDomain(os[..|os| - 1]);
      KeysSnoc(os);
      assert ks == ks[..|ks| - 1] + [ks[|ks| - 1]];
    }
  }

  /** The keys are the distinct keys seen, in first-seen order. */
  lemma {:induction false} RecordAllKeys(os: seq<Occurrence>)
    ensures RecordAll(EmptyRegistry, os).translations.keys == FirstSeen(Keys(os))
    decreases |os|
  {
    if os != [] {
      RecordAllKeys(os[..|os| - 1]);
      RecordAllDomain(os[..|os| - 1]);
      KeysSnoc(os);
    }
  }

  /** The duplicates are every sighting of a key after its first. */
  lemma {:induction false} RecordAllDuplicates(os: seq<Occurrence>)
    ensures RecordAll(EmptyRegistry, os).duplicate == Repeats(Keys(os))
    decreases |os|
  {
    if os != [] {
      RecordAllDuplicates(os[..|os| - 1]);
      RecordAllDomain(os[..|os| - 1]);
      KeysSnoc(os);
    }
  }

  /** Each seen key's location is that of its last sighting. */
  lemma {:induction false} RecordAllLocations(os: seq<Occurrence>)
    ensures forall k :: k in RecordAll(EmptyRegistry, os).locations ==>
              LastLocation(os, k) == Some(RecordAll(EmptyRegistry, os).locations[k])
    decreases |os|
  {
    if os != [] {
      RecordAllLocations(os[..|os| - 1]);
    }
  }

  /** `in_array($ext, ['php'])`: the extensions whose files are scanned. */
  const Extensions: seq<string> := ["php"]

  /** `$relativePathname . ':' . $offset` */
  function Location(path: string, offset: nat): (r: string)
    ensures |r| > |path| + 1 && r[..|path|] == path && r[|path|] == ':'
    ensures forall i :: |path| < i < |r| ==> IsDigit(r[i])
  {
    path + ":" + IntToString(offset)
  }

  /** The last position of `c` in `s`, if any. */
  function LastIndexOf(s: string, c: char): (r: Option<nat>)
    ensures r.None? ==> c !in s
    ensures r.Some? ==> r.value < |s| && s[r.value] == c && c !in s[r.value + 1..]
    decreases |s|
  {
    if s == [] then None
    else if s[|s| - 1] == c then Some(|s| - 1)
    else
      var r := LastIndexOf(s[..|s| - 1], c);
      assert forall x :: x in s <==> x in s[..|s| - 1] || x == s[|s| - 1];
      if r.Some? then
        assert s[r.value + 1..] == s[..|s| - 1][r.value + 1..] + [s[|s| - 1]];
        r
      else r
  }

  lemma InSuffix(s: string, t: nat, k: nat)
    ensures t <= k < |s| ==> s[k] in s[t..]
  {
    if t <= k < |s| {
      assert s[t..][k - t] == s[k];
    }
  }

  /** Reads a location back: the path before the last `:` and the offset after it. */
  function SplitLocation(loc: string): Option<(string, nat)> {
    match LastIndexOf(loc, ':')
    case None => None
    case Some(i) =>
      var digits := loc[i + 1..];
      if digits != [] && forall j :: 0 <= j < |digits| ==> IsDigit(digits[j])
      then Some((loc[..i], ParseDecimal(digits)))
      else None
  }

  /** A location gives back its path and offset, whatever `:` the path holds. */
  lemma LocationRoundTrip(path: string, offset: nat)
    ensures SplitLocation(Location(path, offset)) == Some((path, offset))
  {
    var d := IntToString(offset);
    var loc := Location(path, offset);
    assert loc[|path| + 1..] == d;
    assert loc[..|path|] == path;
    assert loc[|path|] == ':';
    assert ':' !in d;
    var r := LastIndexOf(loc, ':');
    assert r.Some?;
    InSuffix(loc, r.value + 1, |path|);
    InSuffix(loc, |path| + 1, r.value);
    DecimalRoundTrip(offset);
  }

  /** A file-system entry as the directory iterator yields it. */
  datatype Entry = Entry(relativePathname: string, isFile: bool, extension: string, content: string)

  /** The records one entry contributes: none unless it is a `.php` file. */
  function FileOccurrences(e: Entry): (os: seq<Occurrence>)
    ensures !e.isFile || e.extension !in Extensions ==> os == []
  {
    if !e.isFile || e.extension !in Extensions then []
    else
      var caps := KeyExtractor.Extract(e.content);
      seq(|caps|, i requires 0 <= i < |caps| =>
        Occurrence(StripSlashes(caps[i].text), Location(e.relativePathname, caps[i].offset)))
  }

  /** The records of a whole scan, file after file. */
  function Occurrences(es: seq<Entry>): (os: seq<Occurrence>)
    ensures (forall e :: e in es ==> !e.isFile || e.extension !in Extensions) ==> os == []
    decreases |es|
  {
    if es == [] then []
    else
      assert forall e :: e in es[..|es| - 1] ==> e in es;
      Occurrences(es[..|es| - 1]) + FileOccurrences(es[|es| - 1])
  }

  /** The registry a scan of `es` ends with. */
  function Collect(es: seq<Entry>): (r: Registry)
    ensures r.Valid()
  {
    RecordAll(EmptyRegistry, Occurrences(es))
  }

  /**
   * A directory or other non-file, a file with another extension, and a
   * file without any capture leave the registry as it was.
   */
  lemma SkippedEntry(es: seq<Entry>, e: Entry)
    requires !e.isFile || e.extension !in Extensions || KeyExtractor.Extract(e.content) == []
    ensures Collect(es + [e]) == Collect(es)
  {
    assert (es + [e])[..|es|] == es;
    assert FileOccurrences(e) == [];
    assert Occurrences(es + [e]) == Occurrences(es);
  }

  /**
   * The scan loop: for each `.php` file, `preg_match_all` with the pattern,
   * then for each capture `stripslashes`, the duplicate check, and the two
   * array writes.
   */
  method ScanDirectory(entries: seq<Entry>)
    returns (translations: OrderedMap, translationLocations: map<string, string>, duplicate: seq<string>)
    ensures Registry(translations, translationLocations, duplicate) == Collect(entries)
    ensures forall k :: k in translations.values ==> translations.values[k] == k
    ensures translations.keys == FirstSeen(Keys(Occurrences(entries)))
    ensures duplicate == Repeats(Keys(Occurrences(entries)))
    ensures forall k :: k in translationLocations <==> k in Keys(Occurrences(entries))
    ensures forall k :: k in translationLocations ==>
              LastLocation(Occurrences(entries), k) == Some(translationLocations[k])
  {
    translations, translationLocations, duplicate := PhpArray.Empty, map[], [];
    assert entries[..0] == [];
    for i := 0 to |entries|
      invariant Registry(translations, translationLocations, duplicate) == Collect(entries[..i])
    {
      var file := entries[i];
      OccurrencesSnoc(entries, i);
      if !file.isFile {
        SkippedEntry(entries[..i], file);
        continue;
      }
      if file.extension !in Extensions {
        SkippedEntry(entries[..i], file);
        continue;
      }
      var matches := KeyExtractor.Extract(file.content);
      if matches == [] {
        SkippedEntry(entries[..i], file);
        continue;
      }
      ghost var before := Registry(translations, translationLocations, duplicate);
      ghost var fileOccurrences := FileOccurrences(file);
      assert |fileOccurrences| == |matches|;
      assert fileOccurrences[..0] == [];
      for j := 0 to |matches|
        invariant Registry(translations, translationLocations, duplicate) ==
                  RecordAll(before, fileOccurrences[..j])
      {
        var str := StripSlashes(matches[j].text);
        var offset := matches[j].offset;
        ghost var current := Registry(translations, translationLocations, duplicate);
        assert fileOccurrences[j] == Occurrence(str, Location(file.relativePathname, offset));
        RecordAllSnoc(before, fileOccurrences, j);
        if str in translations.values {
          duplicate := duplicate + [str];
        }
        translations := translations.Put(str, str);
        translationLocations := translationLocations[str := Location(file.relativePathname, offset)];
        assert Registry(translations, translationLocations, duplicate) == Record(current, fileOccurrences[j]);
      }
      assert fileOccurrences[..|matches|] == fileOccurrences;
      RecordAllAppend(EmptyRegistry, Occurrences(entries[..i]), fileOccurrences);
    }
    assert entries[..|entries|] == entries;
    RecordAllDomain(Occurrences(entries));
    RecordAllKeys(Occurrences(entries));
    RecordAllDuplicates(Occurrences(entries));
    RecordAllLocations(Occurrences(entries));
  }

  lemma RecordAllSnoc(reg: Registry, os: seq<Occurrence>, j: nat)
    requires reg.Valid() && j < |os|
    ensures RecordAll(reg, os[..j + 1]) == Record(RecordAll(reg, os[..j]), os[j])
  {
    assert os[..j + 1][..j] == os[..j];
  }

  lemma OccurrencesSnoc(es: seq<Entry>, i: nat)
    requires i < |es|
    ensures es[..i + 1] == es[..i] + [es[i]]
    ensures Occurrences(es[..i + 1]) == Occurrences(es[..i]) + FileOccurrences(es[i])
  {
    assert es[..i + 1][..i] == es[..i];
  }
}
