/**
 * The generated catalog: one `  'key' => 'key',` line per registry entry,
 * optionally followed by a `// path:offset` comment, inside `[` ... `]` and
 * the `return ...;` banner.
 */
module CatalogSerializer {

  import opened Wrappers
  import opened PhpArray
  import opened PhpStrings
  import KeyExtractor
  import KeyRegistry

  const Rule: string := "////////////////////////////////////////////"

  /** Everything of the main wrapper before its `%s`. */
  const Banner: string :=
    "<?php\n\n" + Rule + "\n// THIS FILE IS GENERATED. DO NOT CHANGE IT.\n" + Rule + "\n\nreturn "

  /** `sprintf($mainWrapper, $arrayDump)` */
  function MainWrapper(arrayDump: string): (r: string)
    ensures |r| == |Banner| + |arrayDump| + 1
    ensures r[..|Banner|] == Banner && r[|Banner|..|r| - 1] == arrayDump && r[|r| - 1] == ';'
  {
    Banner + arrayDump + ";"
  }

  /** `sprintf($arrayWrapper, $dataLines)` */
  function ArrayWrapper(dataLines: string): (r: string)
    ensures |r| == |dataLines| + 4
    ensures r[..2] == "[\n" && r[2..|r| - 2] == dataLines && r[|r| - 2..] == "\n]"
  {
    "[\n" + dataLines + "\n]"
  }

  /** `$translationLocations[$string]`; a missing entry reads as null, printed as nothing. */
  function LocationOf(locations: map<string, string>, k: string): (r: string)
    ensures k in locations ==> r == locations[k]
    ensures k !in locations ==> r == ""
  {
    if k in locations then locations[k] else ""
  }

  /** One formatted line for the value `v`, with or without its location comment. */
  function Line(v: string, locations: map<string, string>, withLocation: bool): (r: string)
    ensures |r| >= 2 && r[..2] == "  " && r[|r| - 1] == '\n'
  {
    if withLocation then "  " + Export(v) + " => " + Export(v) + ", // " + LocationOf(locations, v) + "\n"
    else "  " + Export(v) + " => " + Export(v) + ",\n"
  }

  /** The lines for `vs`, one per value. */
  function Lines(vs: seq<string>, locations: map<string, string>, withLocation: bool): (ls: seq<string>)
    ensures |ls| == |vs| && forall i :: 0 <= i < |vs| ==> ls[i] == Line(vs[i], locations, withLocation)
  {
    seq(|vs|, i requires 0 <= i < |vs| => Line(vs[i], locations, withLocation))
  }

  /** The strings of `ls` joined in order. */
  function Concat(ls: seq<string>): string
    decreases |ls|
  {
    if ls == [] then "" else ls[0] + Concat(ls[1..])
  }

  lemma {:induction false} ConcatAppend(a: seq<string>, b: seq<string>)
    ensures Concat(a + b) == Concat(a) + Concat(b)
    decreases |a|
  {
    if a == [] {
      assert a + b == b;
    } else {
      ConcatAppend(a[1..], b);
      assert (a + b)[0] == a[0] && (a + b)[1..] == a[1..] + b;
    }
  }

  /** `$dataLines` once every value has been formatted. */
  function DataLines(vs: seq<string>, locations: map<string, string>, withLocation: bool): string {
    Concat(Lines(vs, locations, withLocation))
  }

  lemma DataLinesSnoc(vs: seq<string>, v: string, locations: map<string, string>, withLocation: bool)
    ensures DataLines(vs + [v], locations, withLocation) ==
            DataLines(vs, locations, withLocation) + Line(v, locations, withLocation)
  {
    LinesSnoc(vs, v, locations, withLocation);
    ConcatSnoc(Lines(vs, locations, withLocation), Line(v, locations, withLocation));
  }

  lemma LinesSnoc(vs: seq<string>, v: string, locations: map<string, string>, withLocation: bool)
    ensures Lines(vs + [v], locations, withLocation) ==
            Lines(vs, locations, withLocation) + [Line(v, locations, withLocation)]
  {
  }

  lemma ConcatSnoc(ls: seq<string>, l: string)
    ensures Concat(ls + [l]) == Concat(ls) + l
  {
    ConcatAppend(ls, [l]);
    assert [l][1..] == [];
  }

  lemma DataLinesCons(vs: seq<string>, locations: map<string, string>, withLocation: bool)
    requires vs != []
    ensures DataLines(vs, locations, withLocation) ==
            Line(vs[0], locations, withLocation) + DataLines(vs[1..], locations, withLocation)
  {
    assert Lines(vs, locations, withLocation)[1..] == Lines(vs[1..], locations, withLocation);
  }

  lemma DataLinesPrefix(vs: seq<string>, i: nat, locations: map<string, string>, withLocation: bool)
    requires i < |vs|
    ensures DataLines(vs[..i + 1], locations, withLocation) ==
            DataLines(vs[..i], locations, withLocation) + Line(vs[i], locations, withLocation)
  {
    assert vs[..i + 1] == vs[..i] + [vs[i]];
    DataLinesSnoc(vs[..i], vs[i], locations, withLocation);
  }

  /** The whole generated file for a registry. */
  function Dump(translations: OrderedMap, locations: map<string, string>, withLocation: bool): (r: string)
    requires translations.Valid()
    ensures |r| >= |Banner| + 5 && r[..|Banner|] == Banner && r[|Banner|] == '[' && r[|r| - 1] == ';'
  {
    MainWrapper(ArrayWrapper(DataLines(translations.Values(), locations, withLocation)))
  }

  /**
   * `dumpTranslations` without the file write: the lines are built by
   * concatenation in a loop over the values of `$translations`.
   */
  method DumpTranslations(translations: OrderedMap, translationLocations: map<string, string>, withLocation: bool)
    returns (contents: string)
    requires translations.Valid()
    ensures contents == Dump(translations, translationLocations, withLocation)
    ensures !withLocation || LocationsCommentSafe(translationLocations) ==>
              ParseDump(contents) == Some(Pairs(translations.Values()))
  {
    ghost var vs := translations.Values();
    var dataLines := "";
    assert vs[..0] == [];
    for i := 0 to |translations.keys|
      invariant dataLines == DataLines(vs[..i], translationLocations, withLocation)
    {
      var str := translations.values[translations.keys[i]];
      var line := Line(str, translationLocations, withLocation);
      DataLinesPrefix(vs, i, translationLocations, withLocation);
      dataLines := dataLines + line;
    }
    assert vs[..|translations.keys|] == vs;
    var arrayDump := ArrayWrapper(dataLines);
    contents := MainWrapper(arrayDump);
    if !withLocation || LocationsCommentSafe(translationLocations) {
      DumpRoundTrip(translations, translationLocations, withLocation);
    }
  }

  // Reading the generated file back, as PHP would evaluate it.

  predicate StartsWith(s: string, prefix: string) {
    |prefix| <= |s| && s[..|prefix|] == prefix
  }

  /**
   * The rest of a `//` comment: PHP ends it at a line feed (consumed here),
   * and also at a carriage return or `?>`, which the generated file must
   * not contain, so those read as a failure.
   */
  function SkipComment(s: string): (r: Option<string>)
    ensures r.Some? ==> |r.value| < |s|
    decreases |s|
  {
    if s == [] then None
    else if s[0] == '\n' then Some(s[1..])
    else if s[0] == '\r' then None
    else if |s| >= 2 && s[0] == '?' && s[1] == '>' then None
    else SkipComment(s[1..])
  }

  /** The end of one entry line: `,` and a line feed, or `, // comment` and a line feed. */
  function SkipLineEnd(s: string): (r: Option<string>)
    ensures r.Some? ==> |r.value| < |s|
  {
    if StartsWith(s, ",\n") then Some(s[2..])
    else if StartsWith(s, ", //") then SkipComment(s[4..])
    else None
  }

  /** The entry lines between `[` and `]`: pairs of literals joined by `=>`. */
  function ParseEntries(s: string): Option<seq<(string, string)>>
    decreases |s|
  {
    if s == [] then Some([])
    else if !StartsWith(s, "  ") then None
    else
      match ParseLiteral(s[2..])
      case None => None
      case Some((k, afterKey)) =>
        if !StartsWith(afterKey, " => ") then None
        else
          match ParseLiteral(afterKey[4..])
          case None => None
          case Some((v, afterValue)) =>
            match SkipLineEnd(afterValue)
            case None => None
            case Some(rest) =>
              match ParseEntries(rest)
              case None => None
              case Some(entries) => Some([(k, v)] + entries)
  }

  /** The entries of a generated file, or None if it does not have that shape. */
  function ParseDump(text: string): Option<seq<(string, string)>> {
    var open := Banner + "[\n";
    if |text| >= |open| + 3 && text[..|open|] == open && text[|text| - 3..] == "\n];"
    then ParseEntries(text[|open|..|text| - 3])
    else None
  }

  /** No line break and no `?>` in a location, so its comment runs to the line's end. */
  predicate CommentSafe(loc: string) {
    && '\n' !in loc && '\r' !in loc
    && forall i :: 0 <= i < |loc| - 1 ==> !(loc[i] == '?' && loc[i + 1] == '>')
  }

  predicate LocationsCommentSafe(locations: map<string, string>) {
    forall k :: k in locations ==> CommentSafe(locations[k])
  }

  /** Each value written as both key and value of its entry. */
  function Pairs(vs: seq<string>): (r: seq<(string, string)>)
    ensures |r| == |vs| && forall i :: 0 <= i < |vs| ==> r[i] == (vs[i], vs[i])
  {
    seq(|vs|, i requires 0 <= i < |vs| => (vs[i], vs[i]))
  }

  lemma {:induction false} SkipSafeComment(loc: string, rest: string)
    requires CommentSafe(loc)
    ensures SkipComment(loc + "\n" + rest) == Some(rest)
    decreases |loc|
  {
    var s := loc + "\n" + rest;
    if loc == [] {
      assert s == "\n" + rest;
    } else {
      assert s[1..] == loc[1..] + "\n" + rest;
      assert loc[0] != '\n' && loc[0] != '\r';
      if |loc| >= 2 {
        assert !(loc[0] == '?' && loc[1] == '>');
      }
      assert |loc| == 1 ==> s[1] == '\n';
      assert CommentSafe(loc[1..]) by {
        forall i | 0 <= i < |loc[1..]| - 1
          ensures !(loc[1..][i] == '?' && loc[1..][i + 1] == '>')
        {
          assert loc[1..][i] == loc[i + 1] && loc[1..][i + 1] == loc[i + 2];
        }
      }
      SkipSafeComment(loc[1..], rest);
    }
  }

  /** An entry line whose end is well formed reads back as its two literals. */
  lemma ParseEntryLine(k: string, v: string, tail: string, rest: string)
    requires SkipLineEnd(tail) == Some(rest)
    ensures ParseEntries("  " + (Export(k) + (" => " + (Export(v) + tail)))) ==
            match ParseEntries(rest)
            case None => None
            case Some(entries) => Some([(k, v)] + entries)
  {
    var afterKey := " => " + (Export(v) + tail);
    var s := "  " + (Export(k) + afterKey);
    assert s[..2] == "  " && s[2..] == Export(k) + afterKey;
    ExportRoundTrip(k, afterKey);
    assert afterKey[..4] == " => " && afterKey[4..] == Export(v) + tail;
    ExportRoundTrip(v, tail);
  }

  /** The line written for `v` reads back as the entry `(v, v)`. */
  lemma ParseLine(v: string, locations: map<string, string>, withLocation: bool, rest: string)
    requires withLocation ==> CommentSafe(LocationOf(locations, v))
    ensures ParseEntries(Line(v, locations, withLocation) + rest) ==
            match ParseEntries(rest)
            case None => None
            case Some(entries) => Some([(v, v)] + entries)
  {
    var e := Export(v);
    if withLocation {
      var loc := LocationOf(locations, v);
      var tail := ", // " + loc + "\n" + rest;
      Regroup7("  ", e, " => ", e, ", // ", loc, "\n", rest);
      CommentLineEnd(loc, rest);
      ParseEntryLine(v, v, tail, rest);
    } else {
      Regroup5("  ", e, " => ", e, ",\n", rest);
      PlainLineEnd(rest);
      ParseEntryLine(v, v, ",\n" + rest, rest);
    }
  }

  lemma Regroup5(p: string, a: string, q: string, b: string, c: string, r: string)
    ensures p + a + q + b + c + r == p + (a + (q + (b + (c + r))))
  {
  }

  lemma Regroup7(p: string, a: string, q: string, b: string, c: string, d: string, f: string, r: string)
    ensures p + a + q + b + c + d + f + r == p + (a + (q + (b + (c + d + f + r))))
  {
  }

  lemma PlainLineEnd(rest: string)
    ensures SkipLineEnd(",\n" + rest) == Some(rest)
  {
    var t := ",\n" + rest;
    assert t[..2] == ",\n" && t[2..] == rest;
  }

  lemma CommentLineEnd(loc: string, rest: string)
    requires CommentSafe(loc)
    ensures SkipLineEnd(", // " + loc + "\n" + rest) == Some(rest)
  {
    var t := ", // " + loc + "\n" + rest;
    assert t[1] == ' ' && t[..4] == ", //";
    assert !StartsWith(t, ",\n");
    assert t[4..] == " " + loc + "\n" + rest;
    assert CommentSafe(" " + loc) by {
      var c := " " + loc;
      forall i | 0 <= i < |c| - 1 ensures !(c[i] == '?' && c[i + 1] == '>') {
        if i > 0 {
          assert c[i] == loc[i - 1] && c[i + 1] == loc[i];
        }
      }
    }
    SkipSafeComment(" " + loc, rest);
  }

  lemma {:induction false} ParseDataLines(vs: seq<string>, locations: map<string, string>, withLocation: bool)
    requires withLocation ==> LocationsCommentSafe(locations)
    ensures ParseEntries(DataLines(vs, locations, withLocation)) == Some(Pairs(vs))
    decreases |vs|
  {
    if vs != [] {
      DataLinesCons(vs, locations, withLocation);
      ParseDataLines(vs[1..], locations, withLocation);
      ParseLine(vs[0], locations, withLocation, DataLines(vs[1..], locations, withLocation));
      assert Pairs(vs) == [(vs[0], vs[0])] + Pairs(vs[1..]);
    }
  }

  lemma Regroup(x: string, y: string, d: string, z: string, w: string)
    ensures x + (y + d + z) + w == (x + y) + d + (z + w)
  {
  }

  lemma Split(a: string, b: string, c: string)
    ensures var t := a + b + c;
            |t| >= |a| + |c| && t[..|a|] == a && t[|t| - |c|..] == c && t[|a|..|t| - |c|] == b
  {
  }

  /**
   * Reading back a generated catalog gives one entry per registry value, in
   * registry order, each mapping the exact value to itself.
   */
  lemma DumpRoundTrip(translations: OrderedMap, locations: map<string, string>, withLocation: bool)
    requires translations.Valid()
    requires withLocation ==> LocationsCommentSafe(locations)
    ensures ParseDump(Dump(translations, locations, withLocation)) == Some(Pairs(translations.Values()))
  {
    var d := DataLines(translations.Values(), locations, withLocation);
    var open := Banner + "[\n";
    Regroup(Banner, "[\n", d, "\n]", ";");
    assert "\n]" + ";" == "\n];";
    Split(open, d, "\n];");
    ParseDataLines(translations.Values(), locations, withLocation);
  }

  /**
   * For a scan result, the generated catalog reads back as one entry per
   * key, in first-seen order, each key mapped to itself.
   */
  lemma RegistryDumpRoundTrip(reg: KeyRegistry.Registry, withLocation: bool)
    requires reg.Valid()
    requires withLocation ==> LocationsCommentSafe(reg.locations)
    ensures ParseDump(Dump(reg.translations, reg.locations, withLocation)) == Some(Pairs(reg.translations.keys))
  {
    DumpRoundTrip(reg.translations, reg.locations, withLocation);
    assert reg.translations.Values() == reg.translations.keys;
  }

  /** A location is safe in a comment when its path is: the offset adds only `:` and digits. */
  lemma LocationCommentSafe(path: string, offset: nat)
    requires CommentSafe(path)
    ensures CommentSafe(KeyRegistry.Location(path, offset))
  {
    var d := IntToString(offset);
    var loc := KeyRegistry.Location(path, offset);
    assert loc == path + ([':'] + d);
    forall i | |path| <= i < |loc| ensures loc[i] != '?' && loc[i] != '\n' && loc[i] != '\r' {
      if i > |path| {
        assert loc[i] == d[i - |path| - 1];
      }
    }
    forall i | 0 <= i < |loc| - 1 ensures !(loc[i] == '?' && loc[i + 1] == '>') {
      if i < |path| - 1 {
        assert loc[i] == path[i] && loc[i + 1] == path[i + 1];
      }
    }
    forall i | 0 <= i < |path| ensures loc[i] != '\n' && loc[i] != '\r' {
      assert loc[i] == path[i];
    }
  }

  /** Every sighting in `os` is at a comment-safe location. */
  predicate SightingsCommentSafe(os: seq<KeyRegistry.Occurrence>) {
    forall i :: 0 <= i < |os| ==> CommentSafe(os[i].location)
  }

  /** Sightings at comment-safe locations leave every stored location comment-safe. */
  lemma {:induction false} RecordAllCommentSafe(reg: KeyRegistry.Registry, os: seq<KeyRegistry.Occurrence>)
    requires reg.Valid() && LocationsCommentSafe(reg.locations)
    requires SightingsCommentSafe(os)
    ensures LocationsCommentSafe(KeyRegistry.RecordAll(reg, os).locations)
    decreases |os|
  {
    if os != [] {
      var init := os[..|os| - 1];
      assert forall i :: 0 <= i < |init| ==> init[i] == os[i];
      RecordAllCommentSafe(reg, init);
      assert CommentSafe(os[|os| - 1].location);
    }
  }

  /** Every sighting of a scan is located in a file whose path is comment-safe. */
  lemma {:induction false} OccurrencesCommentSafe(es: seq<KeyRegistry.Entry>)
    requires forall e :: e in es ==> CommentSafe(e.relativePathname)
    ensures SightingsCommentSafe(KeyRegistry.Occurrences(es))
    decreases |es|
  {
    if es != [] {
      var init := es[..|es| - 1];
      var e := es[|es| - 1];
      assert forall x :: x in init ==> x in es;
      OccurrencesCommentSafe(init);
      var prev := KeyRegistry.Occurrences(init);
      var fo := KeyRegistry.FileOccurrences(e);
      forall i | 0 <= i < |fo| ensures CommentSafe(fo[i].location) {
        var caps := KeyExtractor.Extract(e.content);
        LocationCommentSafe(e.relativePathname, caps[i].offset);
      }
      SightingsAppend(prev, fo);
    }
  }

  lemma SightingsAppend(a: seq<KeyRegistry.Occurrence>, b: seq<KeyRegistry.Occurrence>)
    requires SightingsCommentSafe(a) && SightingsCommentSafe(b)
    ensures SightingsCommentSafe(a + b)
  {
    forall i | 0 <= i < |a + b| ensures CommentSafe((a + b)[i].location) {
      if i < |a| {
        assert (a + b)[i] == a[i];
      } else {
        assert (a + b)[i] == b[i - |a|];
      }
    }
  }

  /** A scan of files with comment-safe paths stores only comment-safe locations. */
  lemma CollectLocationsCommentSafe(es: seq<KeyRegistry.Entry>)
    requires forall e :: e in es ==> CommentSafe(e.relativePathname)
    ensures LocationsCommentSafe(KeyRegistry.Collect(es).locations)
  {
    OccurrencesCommentSafe(es);
    RecordAllCommentSafe(KeyRegistry.EmptyRegistry, KeyRegistry.Occurrences(es));
  }

  /**
   * End to end: the catalog generated for a scan reads back as the distinct
   * keys seen, in first-seen order, each mapped to itself, provided the
   * scanned paths cannot end a location comment early.
   */
  lemma ScanDumpRoundTrip(es: seq<KeyRegistry.Entry>, withLocation: bool)
    requires withLocation ==> forall e :: e in es ==> CommentSafe(e.relativePathname)
    ensures var reg := KeyRegistry.Collect(es);
            ParseDump(Dump(reg.translations, reg.locations, withLocation)) ==
            Some(Pairs(KeyRegistry.FirstSeen(KeyRegistry.Keys(KeyRegistry.Occurrences(es)))))
  {
    var reg := KeyRegistry.Collect(es);
    if withLocation {
      CollectLocationsCommentSafe(es);
    }
    RegistryDumpRoundTrip(reg, withLocation);
    KeyRegistry.RecordAllKeys(KeyRegistry.Occurrences(es));
  }
}
