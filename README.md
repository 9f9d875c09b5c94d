# Translation key collector, modelled in Dafny

The `translation:collect` command of laravel-translations-collector walks a
Laravel application's sources, finds what a regular expression takes for
`trans('...')` / `trans("...")` calls in `.php` files, and records each key
in a registry. The registry keeps
each key once, in first-seen order, mapped to itself. It also keeps where each
key was most recently seen (`path:offset`) and one duplicate entry per
repeated sighting. The command writes the keys as a generated PHP catalog,
`return [ 'key' => 'key', ... ];`, optionally with a `// path:offset` comment
per line. It can also fold the keys into each existing `messages.php`
catalog, using PHP's array union.

The model follows the four pieces of `src/Console/TranslationCollect.php`:

- `key_extractor.dfy` (`KeyExtractor`): the extraction pattern as a
  deterministic left-to-right scanner. It is proved equal to the pattern's
  meaning (`PatternMatchesAt`), and its results are proved to be the unique
  leftmost, non-overlapping sequence of matches.
- `key_registry.dfy` (`KeyRegistry`): the registry.
  - One step (`Record`) and a whole scan (`Collect`) are written as
    functions.
  - The scan loop itself (`ScanDirectory`) is an imperative method with
    nested loops, proved to compute `Collect`.
  - Reference definitions (`FirstSeen`, `Repeats`, `LastLocation`) describe
    what the registry ends with.
- `catalog_serializer.dfy` (`CatalogSerializer`): the generated catalog,
  built by a loop as `dumpTranslations` builds it. A reader of PHP's
  single-quoted literals and `//` comments proves that the file reads back
  as exactly the registry's keys.
- `catalog_merger.dfy` (`CatalogMerger`): `appendTranslations` on catalogs
  already loaded, with the properties of `+` on arrays.
- `php_array.dfy` (`PhpArray`): PHP's insertion-ordered array, with string
  keys and values. `Put` is `$a[$k] = $v`; `Union` is `$a + $b`.
- `php_strings.dfy` (`PhpStrings`): `stripslashes`, `var_export` of a
  string, PHP's reading of single-quoted literals, and decimal printing of
  offsets.

File content is a sequence of characters, each standing for one byte, so
positions are byte offsets. `\w` and `\s` are their ASCII classes. The file
system is replaced by a sequence of entries: relative path, whether it is a
file, extension and content.

Some consequences of the code, which the model follows:

- A captured key goes through `stripslashes` (`:118`). This drops every
  backslash that escapes a character, turns `\0` into NUL and drops a
  trailing lone backslash (`PhpStrings.StripSlashes`). It is not limited to
  escaped quotes.
- The pattern (`:20`) puts both quotes and the comma in its character class,
  and it accepts either quote at either end. A call with two literals,
  `trans('a', 'b')`, therefore yields one key, `a', 'b`, spanning both
  literals (`KeyExtractor.TwoArgumentsReadAsOneKey`). A call with mismatched
  quotes, `trans('x")`, yields `x` (`KeyExtractor.SingleLiteralCaptured`).
- A key holding a character outside the class is not collected at all:
  `trans('a/b')` yields nothing (`KeyExtractor.SlashKeyIgnored`). The same
  goes for `%`, `(`, `;`, any byte outside ASCII (`\w` is ASCII here), and a
  space between `(` and the quote.
- The pattern has no word boundary before `trans`, so any name ending in
  `trans` counts as a call: `mytrans('x')` yields `x` at offset 9
  (`KeyExtractor.PrefixedNameMatches`).
- Only catalogs named exactly `messages.php` (`:213`) take part in the merge.
  Each one is `include`d as it is, with no handling of a catalog that fails
  to load.

## Model

| member | source | states |
|---|---|---|
| KeyExtractor.RunLength | src/Console/TranslationCollect.php:20 | the greedy class run: every character in it is a class character (word, space, `_-.!?:,\'"`), and the character after it is not |
| KeyExtractor.MatchAt | src/Console/TranslationCollect.php:19-21 | a match found at `p` captures from offset `p+7`, and the whole match (closing quote and `)`) lies within the content |
| KeyExtractor.MatchAtIsPattern | src/Console/TranslationCollect.php:19-21 | the scanner matches at `p` with a group of `k` characters exactly when the pattern does: `trans(` in any case, a quote, `k>=1` class characters, a quote of either kind, `)`. The group is then those characters |
| KeyExtractor.MatchAtComplete | src/Console/TranslationCollect.php:19-21 | whenever the pattern can match at `p`, the scanner reports that match, with its text and the offset of the group |
| KeyExtractor.MatchAtSound | src/Console/TranslationCollect.php:19-21 | every match the scanner reports satisfies the pattern, and its text is the content between the quotes |
| KeyExtractor.Scan | src/Console/TranslationCollect.php:106 | definition of `preg_match_all` from a position: try the pattern at each position in turn and resume after each match. Its meaning is proved by ScanIsLeftmost and LeftmostMatchesUnique |
| KeyExtractor.Extract | src/Console/TranslationCollect.php:106 | definition: the scan of a whole file. Its meaning is proved by ExtractInOrder and ExtractEmptyIffNoMatch |
| KeyExtractor.ScanIsLeftmost | src/Console/TranslationCollect.php:106 | the scan's captures are matches at their own starts; each starts after the previous match ended; no match starts in any gap the scan passed over |
| KeyExtractor.LeftmostMatchesUnique | src/Console/TranslationCollect.php:106 | any sequence that is leftmost and non-overlapping in that sense is the scan's result |
| KeyExtractor.ExtractEmptyIffNoMatch | src/Console/TranslationCollect.php:106-113 | a file yields no captures exactly when the pattern matches nowhere in it |
| KeyExtractor.LeftmostInOrder | src/Console/TranslationCollect.php:106 | the captures of a leftmost sequence are real matches, pairwise in increasing order, and each starts after the end of every earlier match |
| KeyExtractor.ExtractInOrder | src/Console/TranslationCollect.php:106-117 | every capture of a file is a match at its offset, and captures are reported left to right without overlap |
| KeyExtractor.SingleLiteralCaptured | src/Console/TranslationCollect.php:19-21 | `trans(` + quote + a non-empty run of class characters + quote + `)` yields that run as the first capture, at offset 7, whatever quotes are used |
| KeyExtractor.UpperCaseCall | src/Console/TranslationCollect.php:19-21 | `TRANS('x')` yields the single capture `x` at offset 7 |
| KeyExtractor.EmptyLiteralIgnored | src/Console/TranslationCollect.php:19-21 | `trans('')` yields no capture |
| KeyExtractor.SlashKeyIgnored | src/Console/TranslationCollect.php:20 | `trans('a/b')` yields no capture, because `/` is not a class character |
| KeyExtractor.PrefixedNameMatches | src/Console/TranslationCollect.php:20 | `mytrans('x')` yields the capture `x` at offset 9, because nothing is required before `trans` |
| KeyExtractor.TwoArgumentsReadAsOneKey | src/Console/TranslationCollect.php:19-21 | `trans('a', 'b')` yields one capture, `a', 'b`, because quotes and commas are class characters |
| PhpStrings.StripSlashes | src/Console/TranslationCollect.php:118 | the unescaped key is never longer than the capture, and a capture without a backslash is kept as it is |
| PhpStrings.StripSlashesEscape | src/Console/TranslationCollect.php:118 | a backslash followed by any character other than `0` (`\'`, `\"`, `\\` among them) is replaced by that character |
| PhpStrings.StripSlashesUndoesAddSlashes | src/Console/TranslationCollect.php:118 | `stripslashes` inverts `addslashes` on every string |
| PhpStrings.EscapeChar | src/Console/TranslationCollect.php:192-194 | definition of `var_export`'s escaping of one character (`\` and `'` get a backslash before them). Its meaning is proved by ParseEscapedBody |
| PhpStrings.EscapeSingleQuoted | src/Console/TranslationCollect.php:192-194 | the escaped body is never shorter than the string, and a string with no `\` or `'` is unchanged. Its meaning is proved by ParseEscapedBody |
| PhpStrings.Export | src/Console/TranslationCollect.php:192-194 | `var_export` of a string is a literal opened and closed by `'` |
| PhpStrings.ParseEscapedBody | src/Console/TranslationCollect.php:192-194 | the escaped body, its closing quote and any following text read back as the original string and that text |
| PhpStrings.ExportRoundTrip | src/Console/TranslationCollect.php:192-194 | the literal `var_export` prints reads back as exactly the original string, whatever follows it |
| PhpStrings.IntToString | src/Console/TranslationCollect.php:125 | an offset prints as at least one decimal digit with no leading zero |
| PhpStrings.DecimalRoundTrip | src/Console/TranslationCollect.php:125 | the printed offset reads back as the offset |
| PhpArray.OrderedMap.Values | src/Console/TranslationCollect.php:190 | definition: the values in the order `foreach` visits them. Its meaning is proved by RegistryDumpRoundTrip, where the values are the keys |
| PhpArray.OrderedMap.Put | src/Console/TranslationCollect.php:124 | `$a[$k] = $v` maps `k` to `v` and changes no other entry. An existing key keeps its place; a new key goes last. The array stays well formed |
| PhpArray.Missing | src/Console/TranslationCollect.php:219 | the right operand's keys that the left lacks, in the right operand's order; no others |
| PhpArray.OrderedMap.Union | src/Console/TranslationCollect.php:219 | `$a + $b` keeps `$a`'s keys and values. It appends `$b`'s missing keys, in `$b`'s order and with `$b`'s values. Its keys are exactly those of both, and it stays well formed |
| KeyRegistry.Record | src/Console/TranslationCollect.php:120-125 | one sighting: a known key keeps its place and is appended to the duplicates; a new key is appended to the keys and leaves the duplicates alone. The location is overwritten either way, and the invariant (keys map to themselves, locations and duplicates only for keys) is kept |
| KeyRegistry.RecordAll | src/Console/TranslationCollect.php:115-127 | any sequence of sightings keeps the registry invariant |
| KeyRegistry.FirstSeenMeaning | src/Console/TranslationCollect.php:120-124 | the reference key list holds each key seen exactly once, in order of first sighting. With the repeat list it accounts for every sighting |
| KeyRegistry.RecordAllDomain | src/Console/TranslationCollect.php:120-124 | after a scan, the registry holds exactly the keys seen |
| KeyRegistry.RecordAllKeys | src/Console/TranslationCollect.php:120-124 | after a scan, the keys are the distinct keys seen, in first-seen order |
| KeyRegistry.RecordAllDuplicates | src/Console/TranslationCollect.php:120-122 | after a scan, the duplicate list is every sighting of a key after its first, in order |
| KeyRegistry.RecordAllLocations | src/Console/TranslationCollect.php:125 | after a scan, each key's location is the one of its last sighting |
| KeyRegistry.Location | src/Console/TranslationCollect.php:125 | `path:offset`: the path, then `:`, then only decimal digits. Its meaning is proved by LocationRoundTrip |
| KeyRegistry.LocationRoundTrip | src/Console/TranslationCollect.php:125 | `path:offset` gives back the path and the offset, even when the path contains `:` |
| KeyRegistry.FileOccurrences | src/Console/TranslationCollect.php:89-102 | a non-file or a file whose extension is not `php` contributes no sighting |
| KeyRegistry.Occurrences | src/Console/TranslationCollect.php:85-127 | definition of the sightings of a scan, file after file and within a file in capture order. A scan that contains no `.php` file has no sightings |
| KeyRegistry.Collect | src/Console/TranslationCollect.php:80-127 | the registry a scan ends with satisfies the registry invariant |
| KeyRegistry.SkippedEntry | src/Console/TranslationCollect.php:89-113 | a non-file, a file with another extension, and a file without a capture leave the registry unchanged |
| KeyRegistry.ScanDirectory | src/Console/TranslationCollect.php:80-127 | the scan loop ends with `Collect(entries)`: keys map to themselves and are the distinct keys in first-seen order; duplicates are the repeats; each seen key has exactly its last location |
| CatalogSerializer.MainWrapper | src/Console/TranslationCollect.php:165-173 | definition of the main wrapper: the banner, then the array, then `;`. Its meaning is proved by DumpRoundTrip |
| CatalogSerializer.ArrayWrapper | src/Console/TranslationCollect.php:174-178 | definition of the array wrapper around the data lines. Its meaning is proved by DumpRoundTrip |
| CatalogSerializer.LocationOf | src/Console/TranslationCollect.php:192 | definition of `$translationLocations[$string]`, printed as nothing when no location is stored. Its meaning is proved by ParseLine |
| CatalogSerializer.Line | src/Console/TranslationCollect.php:179-180 | one data line, which starts with two spaces and ends with a line break. Its meaning is proved by ParseLine |
| CatalogSerializer.Dump | src/Console/TranslationCollect.php:197-205 | the file starts with the banner followed by `[` and ends with `;`. Its meaning is proved by DumpRoundTrip |
| CatalogSerializer.DumpTranslations | src/Console/TranslationCollect.php:163-207 | the file built line by line is the generated catalog. When its location comments hold no line break or `?>`, it reads back as one `(value, value)` entry per registry value, in registry order |
| CatalogSerializer.ParseLine | src/Console/TranslationCollect.php:179-194 | one formatted line, with or without its location comment, reads back as the entry `(v, v)`, when its location comment holds no line break or `?>` |
| CatalogSerializer.ParseDataLines | src/Console/TranslationCollect.php:189-196 | the concatenated lines read back as one entry per value, in order, when no location comment holds a line break or `?>` |
| CatalogSerializer.DumpRoundTrip | src/Console/TranslationCollect.php:165-197 | the whole generated file, inside its banner and array wrappers, reads back as one entry per value, in order |
| CatalogSerializer.RegistryDumpRoundTrip | src/Console/TranslationCollect.php:163-207 | for a scan result, the catalog reads back as each key mapped to itself, in first-seen order |
| CatalogSerializer.LocationCommentSafe | src/Console/TranslationCollect.php:125 | a location is safe in a `//` comment whenever its path is |
| CatalogSerializer.RecordAllCommentSafe | src/Console/TranslationCollect.php:125 | sightings at comment-safe locations leave every stored location comment-safe |
| CatalogSerializer.OccurrencesCommentSafe | src/Console/TranslationCollect.php:85-125 | when every scanned path is comment-safe, so is the location of every sighting |
| CatalogSerializer.CollectLocationsCommentSafe | src/Console/TranslationCollect.php:80-127 | when every scanned path is comment-safe, so is every location the scan stores |
| CatalogSerializer.ScanDumpRoundTrip | src/Console/TranslationCollect.php:80-207 | end to end: the catalog generated for a scan reads back as the distinct keys seen, in first-seen order, each mapped to itself. With location comments, this needs every scanned path to be comment-safe |
| CatalogMerger.AppendTranslations | src/Console/TranslationCollect.php:209-222 | each loaded catalog, in order, becomes the catalog `+` the scan result |
| CatalogMerger.MissingAppend | src/Console/TranslationCollect.php:219 | the keys added for `a + b` are those added for `a`, then those for `b`, so the added keys keep the scan's order |
| CatalogMerger.MergeKeepsCatalog | src/Console/TranslationCollect.php:219 | merging keeps every catalog entry in place with its value. It appends exactly the scanned keys the catalog lacks, after the existing entries, each mapped to itself |
| CatalogMerger.MergeIdempotent | src/Console/TranslationCollect.php:219 | appending the same scan result twice is the same as appending it once |
| CatalogMerger.MergeIntoEmpty | src/Console/TranslationCollect.php:219 | an empty catalog receives the scan result as it is |
| CatalogMerger.ExistingTranslationKept | src/Console/TranslationCollect.php:219 | a catalog that translates `greeting` keeps that translation and gains `farewell => farewell` from a scan that found both |

## Left out

- The console command shell is not modelled, for these reasons:
  - `fire`, `getOptions` and `getArguments`, and the choice of which roots to scan, are command-line handling.
  - The verbose `info`, `comment`, `error` and `table` output is console logging.
  - The `--location` and `--append` options appear only as the `withLocation` parameter and as the decision to call `AppendTranslations`.
- File-system traversal, `file_get_contents`, `file_put_contents` and the Symfony `Finder` are I/O. The scan takes a sequence of entries, the dump returns the file text, and the merge takes catalogs already loaded and returns their new contents.
- `Transliterator::urlize` and `Util::autoAppendSlash` belong to a helper library whose source is not part of this model. They only compute the dump file name and the relative paths, which appear here as given strings.
- Loading each catalog with `include` (`:217`) is left out, because it executes PHP code. So is writing the merged catalog back (`:221`): the `UPDATED BY` banner and `var_export` of a whole array. The merge is modelled on ordered arrays already loaded.
- PHP turns numeric-string array keys such as `'12'` into integers. Keys here are always strings. This does not change the union, because the conversion is one-to-one and applies to both operands alike. It does not change the generated catalog either, because that exports the values, which stay strings (`:192`, `:194`). It affects only the `var_export` of the merged array at `:221`, which is left out above.
- PCRE locale settings are not modelled: `\w` and `\s` are their ASCII classes.
- PCRE's backtracking and JIT limits are not modelled. When `preg_match_all` (`:106`) hits one, it returns false, and the file gives at most the matches found before the failure. The model finds every match. Each attempt backtracks at most through one run of class characters, so ordinary sources stay far below these limits.
- Catalog values are taken as strings. A Laravel language file may hold nested arrays as values, which `OrderedMap` cannot represent. Nothing is lost for the merge, because `$a + $b` (`:219`) never reads the values: it decides by keys alone and keeps the left operand's values as they are.
- PhpStrings.Export: does not model how `var_export` prints a NUL byte (it closes the literal and splices in `"\0"`), because a NUL has no special meaning inside a single-quoted literal.
- The `$currentFileTranslations` table (`:86`, `:126`) feeds only the verbose table output, so it is not modelled.
- CatalogSerializer.DumpTranslations: the read-back is promised only for location comments without a line feed, a carriage return or `?>`. PHP ends a `//` comment at any of these, so a path containing one would make the rest of the line code.
- CatalogSerializer.DumpRoundTrip: requires the same of the location comments, for the same reason.
- CatalogSerializer.RegistryDumpRoundTrip: requires the same of the registry's locations, for the same reason. For the registry a scan builds, CatalogSerializer.CollectLocationsCommentSafe derives this from the scanned paths.
- CatalogSerializer.ScanDumpRoundTrip: with location comments, requires every scanned path to hold no line feed, carriage return or `?>`, for the same reason.
