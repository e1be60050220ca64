# leptos_i18n, modelled in Dafny

This project models the core of `leptos_i18n`, an internationalisation library for the Leptos web framework. The core covers the following:

- **Locale loading.** This is the parser crate that reads translation files:
  - the translation-string parser (`ParsedValue::new`, with its components, variables, foreign keys and formatters);
  - reduction and population of parsed values;
  - count ranges (`Range::new`, `do_match`, the fallback checks, `populate_with_count_arg`);
  - plural forms;
  - the per-locale key tree (`get_value_at`, `merge_plurals`, interpolation keys, `Locale::merge`);
  - the catalog helpers (`StringIndexer`, `find_base_default`, `get_locale_fallback`, `ForeignKeysPaths`);
  - the manifest configuration (`cfg_file.rs`);
  - keys and key paths;
  - the formatter registry.
- **The macro's `i64` plural-range parser** (`Plural::new`).
- **Locale negotiation** (`langid.rs`). This is the filtering of Unicode TR35 section 4.4: an exact pass, then a range pass. It also covers `find_match`.
- **URL path localisation** (`leptos_i18n_router/src/routing.rs`). This covers `PathBuilder`, route-segment matching and reconstruction, the locale prefix of a path, and the path built when the locale changes.
- **Rendering helpers.** These are the component display of `display.rs` and the HTML-noise stripping and entity decoding of the test crate.
- **Code generation arithmetic.** This is the `EitherOf` wrapper nesting and the tuple chunking of `fit_in_leptos_tuple`.
- **The Playwright test fixture** (`examples/utils/src/index.ts`). This covers `match_locale`, which follows the lookup of section 3.4 of RFC 4647, and the `I18n` class.

## How the model is laid out

There is one Dafny module per source file. Two modules are shared helpers:

- `Text` holds the string helpers: `split_once`, `trim`, `find` and `strip_prefix`;
- `SortedMaps` models a `BTreeMap` as a strictly sorted association list. This keeps iteration order, and so which error comes first, as in the source.

Rust's mutually recursive value types (`ParsedValue`, `RangesValue`, `Plurals`, `Locale`) live together in `Values`. The diagnostics sink (`Diagnostics`) is a class whose `errors` and `warnings` sequences the methods append to.

Imperative code is kept as methods with loops, each proved against a specification function:

- `filter_matches` with its `retain`;
- `remove_noise` and `decode_special_chars`;
- `match_locale`;
- `PathBuilder`;
- `Formatters::insert_formatter`;
- the `merge_plurals` and `Locale::merge` passes.

State that the source changes in place is a class with `modifies` clauses:

- the fixture's `I18n`;
- `PathBuilder`;
- the `fmt::Formatter` sink;
- the `Formatters` registry;
- `Diagnostics`;
- `StringIndexer`.

The source has two versions of some signatures:

- `locale.rs` calls `ParsedValue::merge` with a different signature from the one in `parsed_value.rs`;
- `plurals.rs` receives a `&Loc` where `parsed_value.rs` passes the foreign key, the locale and the key path separately.

The model follows the callers in `parsed_value.rs`. It merges locales key by key.

## Model

| member | source | states |
|---|---|---|
| Keys.NewKey | leptos_i18n_parser/src/utils/key.rs:16-24 | a key is made exactly when the trimmed name, with `-` read as `_`, is an identifier; a key's name is the trimmed text, so it is non-empty and neither starts nor ends with whitespace, and the identifier it is emitted as holds no `-` and is a valid Rust identifier |
| Keys.NewKeyIdempotent | leptos_i18n_parser/src/utils/key.rs:16-24 | a key's own name makes the same key again |
| Keys.StrLessIrreflexive | leptos_i18n_parser/src/utils/key.rs:75-79 | no name is less than itself |
| Keys.StrLessTransitive | leptos_i18n_parser/src/utils/key.rs:75-79 | name order is transitive |
| Keys.StrLessTotal | leptos_i18n_parser/src/utils/key.rs:75-79 | any two different names are ordered |
| Keys.KeyOrderIsTotal | leptos_i18n_parser/src/utils/key.rs:61-79 | keys are equal exactly when their names are, and ordered by name in a strict total order |
| Keys.Names | leptos_i18n_parser/src/utils/key.rs:103-117 | the names of keys, one per key, in order |
| Keys.PushKey | leptos_i18n_parser/src/utils/key.rs:127-129 | pushing a key appends it and keeps the namespace |
| Keys.PopKey | leptos_i18n_parser/src/utils/key.rs:131-133 | popping an empty path gives nothing; otherwise the path without its last key, and that key |
| Keys.PushPopRoundTrip | leptos_i18n_parser/src/utils/key.rs:127-133 | pushing a key and popping it restores the path and gives the key back |
| Keys.ToStringWithKeyIsPushedPath | leptos_i18n_parser/src/utils/key.rs:135-146 | `to_string_with_key` prints the path the key would have once pushed: the bare key at the root, `ns::key` right under a namespace |
| Keys.DisplayKeyPath | leptos_i18n_parser/src/utils/key.rs:103-117 | the loop writing the namespace, the first key and `.key` for each other key prints the path |
| Values.LiteralTextNonEmpty | leptos_i18n_parser/src/parse_locales/parsed_value.rs:138-148 | only a string literal can print as nothing |
| Values.JoinLiteral | leptos_i18n_parser/src/parse_locales/parsed_value.rs:105-125 | a joined literal is a string holding the first literal's text then the other's; a string keeps its index, anything else becomes unindexed |
| Values.JoinLiteralAssociative | leptos_i18n_parser/src/parse_locales/parsed_value.rs:105-125 | joining three literals gives the same text whichever pair is joined first |
| Diagnostics.Diagnostics.constructor | leptos_i18n_parser/src/parse_locales/error.rs:496-498 | a new sink holds no error and no warning |
| Diagnostics.Diagnostics.EmitError | leptos_i18n_parser/src/parse_locales/error.rs:500-502 | the error is appended; the warnings are unchanged |
| Diagnostics.Diagnostics.EmitWarning | leptos_i18n_parser/src/parse_locales/error.rs:504-506 | the warning is appended; the errors are unchanged |
| Ranges.AnyMatchIsExists | leptos_i18n_parser/src/parse_locales/ranges.rs:157 | a `Multiple` matches a count exactly when one of its parts does |
| Ranges.Flatten | leptos_i18n_parser/src/parse_locales/ranges.rs:162-170 | a `Multiple` holding a `Fallback` part becomes `Fallback`; any other range is left as it is |
| Ranges.ParseNumber | leptos_i18n_parser/src/parse_locales/ranges.rs:173-178 | the text parses exactly when it is an integer within the type's bounds; otherwise `RangeParse` names the text and the type |
| Ranges.RangeEndBound | leptos_i18n_parser/src/parse_locales/ranges.rs:1082-1084 | an exclusive integer end `e` becomes an inclusive bound that every value of the type below `e`, and no other, satisfies; when there is no such bound, no value of the type lies below `e` |
| Ranges.ParseEnd | leptos_i18n_parser/src/parse_locales/ranges.rs:195-209 | a parsed end is `Unbounded` or an `Included` value within the type |
| Ranges.ParseExact | leptos_i18n_parser/src/parse_locales/ranges.rs:225-226 | a plain number parses to an `Exact` value within the type |
| Ranges.ParseBounds | leptos_i18n_parser/src/parse_locales/ranges.rs:193-223 | a parsed `start..end` is a well-typed `Bounds` that some count satisfies, its end `Unbounded` or `Included` |
| Ranges.ParsePiece | leptos_i18n_parser/src/parse_locales/ranges.rs:179-226 | a range without `\|` parses to a well-typed non-`Multiple` range, and to `Fallback` exactly when it trims to `_` or `..` |
| Ranges.ParseAll | leptos_i18n_parser/src/parse_locales/ranges.rs:185-188 | every part parsed in order, or the error of one of the parts |
| Ranges.NewWellTyped | leptos_i18n_parser/src/parse_locales/ranges.rs:172-228 | every number in a parsed range is a value of the declared type |
| Ranges.NewSingle | leptos_i18n_parser/src/parse_locales/ranges.rs:184 | a text without `\|` is parsed as one range |
| Ranges.NewFallbackText | leptos_i18n_parser/src/parse_locales/ranges.rs:179-182 | `"_"`, `".."` and their padded forms parse to `Fallback` |
| Ranges.MultipleFallback | leptos_i18n_parser/src/parse_locales/ranges.rs:184-191 | a parsed `x \| y \| ..` is `Fallback` exactly when some part is `_` or `..`; otherwise a `Multiple` with one range per part, at least two |
| Ranges.NewSplitsAfterStart | leptos_i18n_parser/src/parse_locales/ranges.rs:193 | `a..b` is split at the first `..`, right after `a` |
| Ranges.EndExclusive | leptos_i18n_parser/src/parse_locales/ranges.rs:201-208 | an end without `=` is exclusive: `Included(b - 1)`, or `InvalidBoundEnd` when `b` is the type's minimum |
| Ranges.EndInclusive | leptos_i18n_parser/src/parse_locales/ranges.rs:199-200 | an end written `=b` is `Included(b)` |
| Ranges.BoundsWithStart | leptos_i18n_parser/src/parse_locales/ranges.rs:194-223 | with a start, the range is `Bounds` unless its end lies below the start, which is `ImpossibleRange` |
| Ranges.BoundsWithoutStart | leptos_i18n_parser/src/parse_locales/ranges.rs:194-223 | an empty start gives `Bounds` without a start, never an error |
| Ranges.BoundsMatch | leptos_i18n_parser/src/parse_locales/ranges.rs:147-155 | a `Bounds` range matches exactly the counts at or above its start and within its end |
| Ranges.ExclusiveRange | leptos_i18n_parser/src/parse_locales/ranges.rs:193-223 | `"a..b"` with `a < b` parses to `Bounds{a, Included(b - 1)}` |
| Ranges.ExclusiveRangeMatches | leptos_i18n_parser/src/parse_locales/ranges.rs:202-209 | `"a..b"` matches exactly the counts `a <= n < b` |
| Ranges.InclusiveParts | leptos_i18n_parser/src/parse_locales/ranges.rs:199-200 | `a..=b` is split after `a` and `=b` read as the inclusive end `b` |
| Ranges.InclusiveRange | leptos_i18n_parser/src/parse_locales/ranges.rs:199-200 | `"a..=b"` with `a <= b` parses to `Bounds{a, Included(b)}` |
| Ranges.InclusiveRangeMatches | leptos_i18n_parser/src/parse_locales/ranges.rs:199-200 | `"a..=b"` matches exactly the counts `a <= n <= b` |
| Ranges.OpenEndRange | leptos_i18n_parser/src/parse_locales/ranges.rs:196-198 | `"a.."` is `Bounds{a, Unbounded}` and matches every count from `a` on |
| Ranges.OpenStartRange | leptos_i18n_parser/src/parse_locales/ranges.rs:194-209 | `"..b"` has no start and matches every count below `b` |
| Ranges.ImpossibleExclusive | leptos_i18n_parser/src/parse_locales/ranges.rs:211-216 | an exclusive end at or below the start gives `ImpossibleRange` |
| Ranges.ImpossibleInclusive | leptos_i18n_parser/src/parse_locales/ranges.rs:217-219 | an inclusive end below the start gives `ImpossibleRange` |
| Ranges.EndAtTypeMinimum | leptos_i18n_parser/src/parse_locales/ranges.rs:203-208 | an exclusive end at the type's minimum gives `InvalidBoundEnd` |
| Ranges.ParsedRangeCanMatch | leptos_i18n_parser/src/parse_locales/ranges.rs:172-228 | every range that parses matches at least one value of its type |
| Ranges.FallbackBeforeLast | leptos_i18n_parser/src/parse_locales/ranges.rs:340-345 | true exactly when an entry other than the last is, or contains, a `Fallback` |
| Ranges.CountFallbacks | leptos_i18n_parser/src/parse_locales/ranges.rs:347-350 | zero exactly when no entry is a `Fallback`, at most one exactly when no two are |
| Ranges.CheckDeInner | leptos_i18n_parser/src/parse_locales/ranges.rs:338-357 | reports a misplaced fallback exactly when one sits before the last entry, and counts at most one exactly when no two entries are fallbacks |
| Ranges.CheckedFallbackIsLast | leptos_i18n_parser/src/parse_locales/ranges.rs:338-357 | ranges that pass the check have their only fallback at the last entry |
| Ranges.FirstMatch | leptos_i18n_parser/src/parse_locales/ranges.rs:471-476 | the first entry in declared order whose range matches the count, or none when no entry matches |
| Ranges.FallbackLastAlwaysMatches | leptos_i18n_parser/src/parse_locales/ranges.rs:471-476 | when the last entry is a `Fallback`, some entry always matches |
| Fixture.LongestKnownPrefix | examples/utils/src/index.ts:42-59 | the index found is the longest prefix of the `-`-separated parts whose joined text is a known locale; none when no prefix is known |
| Fixture.MatchLocaleKnownOrDefault | examples/utils/src/index.ts:42-59 | `match_locale` returns a known locale or the default |
| Fixture.MatchLocaleExact | examples/utils/src/index.ts:50-54 | a known locale is matched as it is |
| Fixture.MatchLocaleLoop | examples/utils/src/index.ts:42-59 | the loop that joins the parts and pops the last one returns the longest known prefix, else the default |
| Fixture.SkipSpaces | examples/utils/src/index.ts:80 | the position reached is the first non-`\s` at or after the start, and everything skipped is `\s` |
| Fixture.MatchAt | examples/utils/src/index.ts:80 | a match of the placeholder pattern starts with `{{` and ends with `}}` |
| Fixture.ReplaceStep | examples/utils/src/index.ts:80-81 | text that does not start with `{` keeps its first character through the replacement |
| Fixture.ReplaceLiteral | examples/utils/src/index.ts:80-81 | text without `{` is left alone by the replacement |
| Fixture.PlaceholderMatches | examples/utils/src/index.ts:80 | `{{`, any `\s` padding, the key in any ASCII case, padding, `}}` matches in full |
| Fixture.ReplacePlaceholder | examples/utils/src/index.ts:79-82 | every such placeholder is replaced by the argument's value |
| Fixture.SkipTo | examples/utils/src/index.ts:80 | skipping stops at the first position after a run of `\s` |
| Fixture.InterpolateLiteral | examples/utils/src/index.ts:79-84 | a translation without `{` is returned as stored, whatever the arguments |
| Fixture.I18n.constructor | examples/utils/src/index.ts:66-71 | the current locale is `match_locale` of the requested one; no callback is registered |
| Fixture.I18n.Translation | examples/utils/src/index.ts:73-85 | a missing or empty translation gives the key itself |
| Fixture.I18n.T | examples/utils/src/index.ts:73-85 | `t` looks the key up in the current locale and applies every argument in turn |
| Fixture.I18n.GetLocale | examples/utils/src/index.ts:87-93 | `get_locale` and `locale` return the current locale, which is a known one |
| Fixture.I18n.SetLocale | examples/utils/src/index.ts:95-100 | the locale is assigned first; then the registered callback, if any, is called with it |
| Fixture.I18n.OnLocaleChange | examples/utils/src/index.ts:102-104 | the callback replaces any previous one and nothing else changes |
| TestRendering.PrefixedTwice | tests/common/src/lib.rs:19-26 | prefixing the output twice is prefixing once with both pieces, and a panic stays a panic |
| TestRendering.StripStep | tests/common/src/lib.rs:16-27 | one closed span is cut out and the rest handled alike; an unclosed one panics |
| TestRendering.RemoveNoise | tests/common/src/lib.rs:15-28 | the loop that appends the text between spans computes the text with every span cut out, or panics |
| TestRendering.RemoveHtmlComments | tests/common/src/lib.rs:30-32 | `<!--`…`-->` spans are cut out |
| TestRendering.RemoveHk | tests/common/src/lib.rs:34-36 | ` data-hk="`…`"` spans are cut out |
| TestRendering.StripInsertedNoise | tests/common/src/lib.rs:15-28 | cutting the noise out of text with spans inserted gives back the text pieces, in order |
| TestRendering.NoStartUnchanged | tests/common/src/lib.rs:16-18 | text without a start delimiter is returned unchanged |
| TestRendering.UnclosedPanics | tests/common/src/lib.rs:20-23 | a start delimiter with no end after it panics |
| TestRendering.SplitHtmlSpecialChar | tests/common/src/lib.rs:38-45 | what follows a decoded reference is shorter than the input |
| TestRendering.DecodeStep | tests/common/src/lib.rs:47-58 | a decoded reference is replaced by its character and decoding goes on after it |
| TestRendering.DecodeSpecialChars | tests/common/src/lib.rs:47-60 | the loop that appends text and characters computes every reference replaced in turn |
| TestRendering.HexChar | tests/common/src/lib.rs:41 | each hexadecimal digit reads back as its value |
| TestRendering.NatToHex | tests/common/src/lib.rs:41 | the digits written for a number parse back, in base 16, to that number |
| TestRendering.SplitReference | tests/common/src/lib.rs:38-45 | `&#xHEX;` at the front is split off as its character |
| TestRendering.DecodeEscapeAll | tests/common/src/lib.rs:47-60 | text with every character written as a reference decodes back to the text |
| TestRendering.DecodeWithoutReference | tests/common/src/lib.rs:47-50 | text without `&#x` decodes to itself |
| TestRendering.DecodeStopsAtInvalid | tests/common/src/lib.rs:38-45 | an `&#x` sequence that is not a valid code point stops decoding and the rest is kept as it is |
| CfgFile.Position | leptos_i18n_parser/src/parse_locales/cfg_file.rs:39 | the position found is the first holding the key; none exactly when the key is absent |
| CfgFile.Swap | leptos_i18n_parser/src/parse_locales/cfg_file.rs:41-46 | the elements at the two positions are exchanged and every other position keeps its element, so the length and the elements are kept |
| CfgFile.DefaultFirst | leptos_i18n_parser/src/parse_locales/cfg_file.rs:39-46 | the default locale ends up first |
| CfgFile.DefaultFirstPermutes | leptos_i18n_parser/src/parse_locales/cfg_file.rs:39-46 | moving the default to the front loses no locale, and adds the default once when it was missing |
| CfgFile.DefaultAlreadyFirst | leptos_i18n_parser/src/parse_locales/cfg_file.rs:39-42 | a list already starting with the default is unchanged |
| CfgFile.DefaultFirstKeepsOthers | leptos_i18n_parser/src/parse_locales/cfg_file.rs:39-46 | every locale other than the first and the one swapped stays in place |
| CfgFile.PutDefaultFirst | leptos_i18n_parser/src/parse_locales/cfg_file.rs:39-46 | the method's swap puts the default first as specified |
| CfgFile.DistinctIffNoRepeat | leptos_i18n_parser/src/parse_locales/cfg_file.rs:61-76 | keys are distinct exactly when none occurs twice |
| CfgFile.ContainDuplicates | leptos_i18n_parser/src/parse_locales/cfg_file.rs:61-76 | no duplicates is reported exactly when the keys are distinct; otherwise the set of keys occurring more than once |
| CfgFile.Checked | leptos_i18n_parser/src/parse_locales/cfg_file.rs:39-58 | accepted exactly when the locales, the default moved first, are distinct and so are the namespaces if any; an accepted configuration is the input with its locales so reordered; repeated locales are checked first and give `DuplicateLocalesInConfig` with the repeated ones; then repeated namespaces give `DuplicateNamespacesInConfig` with the repeated ones |
| CfgFile.LocaleDuplicatesFirst | leptos_i18n_parser/src/parse_locales/cfg_file.rs:48-58 | repeated locales are reported before repeated namespaces |
| CfgFile.CheckConfig | leptos_i18n_parser/src/parse_locales/cfg_file.rs:39-58 | the method applies the checks as specified |
| CfgFile.Fill | leptos_i18n_parser/src/parse_locales/cfg_file.rs:164-209 | an unknown field changes nothing; a field already set fails; fields set stay set and the field read becomes set |
| CfgFile.Finish | leptos_i18n_parser/src/parse_locales/cfg_file.rs:196-215 | `default` missing, then `locales` missing, are `missing_field` errors; the locales directory defaults to `locales` |
| CfgFile.VisitMap | leptos_i18n_parser/src/parse_locales/cfg_file.rs:160-216 | the loop over the entries, then the required fields, decode the table as specified |
| CfgFile.SetFieldAgainFails | leptos_i18n_parser/src/parse_locales/cfg_file.rs:175-179 | a field that is set and comes again makes decoding fail |
| CfgFile.RepeatedFieldFails | leptos_i18n_parser/src/parse_locales/cfg_file.rs:175-179 | a field given twice is refused |
| CfgFile.UnknownFieldIgnored | leptos_i18n_parser/src/parse_locales/cfg_file.rs:194 | an unknown field inserted anywhere changes nothing |
| CfgFile.DecodedHasRequired | leptos_i18n_parser/src/parse_locales/cfg_file.rs:196-202 | a decoded configuration had `default` and `locales` given |
| Routing.PushPieceShape | leptos_i18n_router/src/routing.rs:37-42 | a push adds the text with `/` trimmed at both ends, unless nothing is left |
| Routing.PushAll | leptos_i18n_router/src/routing.rs:37-42 | pushing strings never removes a piece |
| Routing.PathOf | leptos_i18n_router/src/routing.rs:44-47 | a built path starts with `/` |
| Routing.PathBuilder.constructor | leptos_i18n_router/src/routing.rs:33-35 | a new builder holds the one leading empty piece |
| Routing.PathBuilder.Push | leptos_i18n_router/src/routing.rs:37-42 | the pieces become those of pushing the text |
| Routing.PathBuilder.Build | leptos_i18n_router/src/routing.rs:44-47 | the path is `/` then the pieces joined by `/`; an empty builder gives `/` |
| Routing.JoinPieces | leptos_i18n_router/src/routing.rs:44-47 | joining the pieces with the leading empty one gives the path, `/` when empty |
| Routing.MatchSegments | leptos_i18n_router/src/routing.rs:50-78 | the optionals matched only grow, with indices from the current route position on |
| Routing.MatchPathSegments | leptos_i18n_router/src/routing.rs:50-78 | the labelled loops compute the specified match |
| Routing.Statics | leptos_i18n_router/src/routing.rs:50-78 | a route of static segments, one per string |
| Routing.StaticRouteMatches | leptos_i18n_router/src/routing.rs:50-78 | a route of non-empty static segments matches exactly the path made of them |
| Routing.ParamsMatchAny | leptos_i18n_router/src/routing.rs:50-78 | a route of parameters matches every path of its length |
| Routing.SplatTakesRest | leptos_i18n_router/src/routing.rs:72 | a splat after matched static segments takes the rest of the path |
| Routing.MatchThenConstruct | leptos_i18n_router/src/routing.rs:93-131 | rebuilding a path with the route it matched gives the path back |
| Routing.NextPush | leptos_i18n_router/src/routing.rs:101-126 | the inner loop walks the route to the segment that takes the path segment, and gives what to push; it fails where the source's `unwrap` panics |
| Routing.ConstructPathSegments | leptos_i18n_router/src/routing.rs:93-131 | the builder gets exactly the specified pushes, and the method fails exactly where the source panics |
| Routing.PushEach | leptos_i18n_router/src/routing.rs:128-130 | every remaining segment is pushed in order |
| Routing.PushStep | leptos_i18n_router/src/routing.rs:37-42 | pushing one more string is one more push |
| Routing.PathSegments | leptos_i18n_router/src/routing.rs:139-142 | the segments of a path are non-empty |
| Routing.FindRoute | leptos_i18n_router/src/routing.rs:144-151 | the route found is the first the path matches; none only when no route matches |
| Routing.LocalizeIntoSameRoutes | leptos_i18n_router/src/routing.rs:133-157 | localizing into the same routes gives the path's own segments back |
| Routing.LocalizePath | leptos_i18n_router/src/routing.rs:133-157 | the builder gets the specified pushes when a route matches and is unchanged otherwise |
| Routing.LocaleFromPath | leptos_i18n_router/src/routing.rs:80-91 | a locale read from a path is one of the locales |
| Routing.PushRest | leptos_i18n_router/src/routing.rs:172-206 | the rest of the path is pushed localized when both locales have routes and it matches one, as it is otherwise |
| Routing.NewPathname | leptos_i18n_router/src/routing.rs:166-207 | the path part is the built path of the pushes: base path, new locale unless default, then the rest with the previous locale segment removed (corrected), localized when it can be; none where the source panics |
| Routing.GetNewPath | leptos_i18n_router/src/routing.rs:159-225 | corrected (the previous locale removed as a whole segment): the new path is the path part, then `?search` and `#hash` (leading `#`s dropped) when present |
| Routing.PushAllAppend | leptos_i18n_router/src/routing.rs:37-42 | pushing two lists is pushing one then the other |
| Routing.NewPathSuffix | leptos_i18n_router/src/routing.rs:208-224 | the new path starts with `/` and ends with the query and the fragment |
| Routing.PushAllPrefix | leptos_i18n_router/src/routing.rs:37-42 | the pieces pushed follow what was there |
| Routing.ReadAfterBase | leptos_i18n_router/src/routing.rs:80-85 | what follows the base path is the locale and the tail |
| Routing.BuiltPath | leptos_i18n_router/src/routing.rs:166-172 | the path built from the base path, a locale and more |
| Routing.LocaleRoundTrip | leptos_i18n_router/src/routing.rs:80-91 | the locale `get_new_path` writes after the base path is the one `get_locale_from_path` reads back |
| Routing.StripLocaleSegmentAtBoundary | leptos_i18n_router/src/routing.rs:177-181 | corrected: removing the locale segment never cuts a segment in two |
| Routing.StripLocaleSegmentRemoves | leptos_i18n_router/src/routing.rs:177-181 | corrected: the locale segment itself is removed and what follows is kept |
| Routing.StripLocaleCutsSegment | leptos_i18n_router/src/routing.rs:177-181 | as written, a first segment that merely starts with the locale is cut in two |
| Routing.RootBaseCutsSegment | leptos_i18n_router/src/routing.rs:166-182 | as written, at the root base path a first segment `l + x` that merely starts with the previous locale `l` is pushed as `x` (from `en` on `/english`: `glish`) |
| Routing.EnglishKeptBySegment | leptos_i18n_router/src/routing.rs:177-181 | corrected: `english` keeps its segment when `en` is removed |
| Routing.NamedBaseKeepsLocale | leptos_i18n_router/src/routing.rs:174-182 | as written, on a path made of the base path, `/`, the previous locale and a tail, what follows the base path starts with `/`, so that locale is not removed and the rest is pushed whole |
| Routing.NamedBaseDropsLocale | leptos_i18n_router/src/routing.rs:174-182 | corrected: under a base path the locale segment is removed and only what follows it is pushed |
| Routing.StripLocaleSegmentKeepsLonger | leptos_i18n_router/src/routing.rs:177-181 | corrected: a first segment longer than the locale and starting with it is kept whole |
| Routing.RootBaseKeepsSegment | leptos_i18n_router/src/routing.rs:166-182 | corrected: at the root base path that segment is pushed whole (from `en` on `/english`: `english`) |
| LangId.ExactMatchIsEquality | leptos_i18n/src/langid.rs:34-44 | with neither side read as a range, two identifiers match exactly when they are equal |
| LangId.RangeWidens | leptos_i18n/src/langid.rs:12-44 | reading the available side as a range only adds matches |
| LangId.BareLanguageRange | leptos_i18n/src/langid.rs:12-44 | read as a range, a bare language matches every identifier of that language (and `und` matches all) |
| LangId.SplitPartitions | leptos_i18n/src/langid.rs:53-63 | one strategy splits the available locales into those output and those kept: nothing lost or duplicated |
| LangId.MatchedMatch | leptos_i18n/src/langid.rs:53-63 | every locale a strategy outputs was available and matches the request |
| LangId.TestStrategy | leptos_i18n/src/langid.rs:53-63 | the `retain` of one strategy keeps and outputs exactly the specified locales, in order |
| LangId.FilterMatches | leptos_i18n/src/langid.rs:46-80 | the loop over the requests, exact pass then range pass, outputs the specified locales |
| LangId.OutputFromAvailable | leptos_i18n/src/langid.rs:46-80 | every output locale was available, no more often than it was |
| LangId.OutputDistinct | leptos_i18n/src/langid.rs:46-80 | with distinct available locales, no locale is output twice |
| LangId.ServedMatches | leptos_i18n/src/langid.rs:65-69 | what one request outputs matches it, at least as a range |
| LangId.OutputMatches | leptos_i18n/src/langid.rs:46-80 | every output locale matches some request, at least as a range |
| LangId.FirstEqual | leptos_i18n/src/langid.rs:65-66 | the index found is the first available locale equal to the request; none when none is |
| LangId.ExactHead | leptos_i18n/src/langid.rs:65-66 | the exact pass outputs first the first available locale equal to the request |
| LangId.FindMatchPrefersExact | leptos_i18n/src/langid.rs:82-87 | when some available locale equals the first request, `find_match` returns the first such locale |
| LangId.KeptMiss | leptos_i18n/src/langid.rs:55-63 | a locale a strategy keeps is available and fails the request |
| LangId.FilterComplete | leptos_i18n/src/langid.rs:46-80 | every available locale that matches some request, at least as a range, is output |
| LangId.FindMatchFound | leptos_i18n/src/langid.rs:82-87 | when some available locale matches a request, the filtered locales are not empty and `find_match` returns the first of them, not the default |
| LangId.FindMatchDefault | leptos_i18n/src/langid.rs:82-87 | without a match, `find_match` falls back to the default locale |
| LangId.StrategyStep | leptos_i18n/src/langid.rs:53-63 | a strategy outputs the front locale when it matches and keeps it otherwise |
| LangId.HierarchyMatches | leptos_i18n/src/langid.rs:125-137 | `de-DE` matches itself exactly and, read as a range, `de`; not `en-US` or `de-CH` |
| LangId.HierarchyExact | leptos_i18n/src/langid.rs:125-137 | the exact pass of `de-DE` over `de, en-US, de-DE, de-CH` outputs `de-DE` |
| LangId.HierarchyRange | leptos_i18n/src/langid.rs:125-137 | the range pass then outputs `de` |
| LangId.HierarchyExample | leptos_i18n/src/langid.rs:131-132 | `de-DE` over `de, en-US, de-DE, de-CH` gives `de-DE` then `de` |
| Plurals.FormNameInjective | leptos_i18n_parser/src/parse_locales/plurals.rs:52-62 | distinct forms have distinct names |
| Plurals.TryFromStr | leptos_i18n_parser/src/parse_locales/plurals.rs:52-62 | a name is recognised exactly when it is one of the six form names, and gives the form of that name |
| Plurals.TryFromStrRoundTrip | leptos_i18n_parser/src/parse_locales/plurals.rs:52-62 | reading a form's name gives the form back |
| Plurals.FormSuffix | leptos_i18n_parser/src/parse_locales/plurals.rs:272-283 | a form is displayed as `_` followed by its name |
| Plurals.CountVariableSound | leptos_i18n_parser/src/parse_locales/plurals.rs:146-185 | a bloc of blank literals around exactly one variable yields that variable's key |
| Plurals.CountVariableComplete | leptos_i18n_parser/src/parse_locales/plurals.rs:146-185 | a key is found only when the bloc is blank literals around one variable with that key |
| Plurals.FindVariable | leptos_i18n_parser/src/parse_locales/plurals.rs:146-185 | succeeds exactly when the bloc is blank literals around one variable, giving its key; otherwise `InvalidCountArg` |
| Plurals.FormFor | leptos_i18n_parser/src/parse_locales/plurals.rs:230-240 | category `Other`, or a category without a form, selects `other`; otherwise the value of a form of that category |
| Plurals.FormForPresent | leptos_i18n_parser/src/parse_locales/plurals.rs:233-238 | when the plurals have a form for the category, that form's value is selected |
| MacroPlural.ParseI64 | leptos_i18n_macro/src/load_locales/plural.rs:21-27 | the text parses exactly when it is an `i64`; otherwise `InvalidPlural` names the locale, the key and the text |
| MacroPlural.BoundedAccepts | leptos_i18n_macro/src/load_locales/plural.rs:56-61 | the generated arm `a..=b` accepts exactly the counts between `a` and `b`, ends included |
| MacroPlural.NumberShape | leptos_i18n_macro/src/load_locales/plural.rs:21-28 | the text of an `i64` has no `.`, no `=` in front and nothing to trim, so it is never `_` |
| MacroPlural.SplitsAtDots | leptos_i18n_macro/src/load_locales/plural.rs:32-45 | `a..b` is split at its `..` and each side parsed on its own |
| MacroPlural.SplitsAtDotsChecked | leptos_i18n_macro/src/load_locales/plural.rs:32-45 | corrected: the checked parser also splits `a..b` at its `..` and parses each side on its own |
| MacroPlural.InclusiveEnd | leptos_i18n_macro/src/load_locales/plural.rs:38-39 | an end `=b` is the inclusive end `b` |
| MacroPlural.FallbackText | leptos_i18n_macro/src/load_locales/plural.rs:28-31 | `"_"`, with any surrounding whitespace, parses to `Fallback` |
| MacroPlural.ExactText | leptos_i18n_macro/src/load_locales/plural.rs:46-47 | a plain integer parses to `Exact` |
| MacroPlural.InvalidText | leptos_i18n_macro/src/load_locales/plural.rs:46-47 | text without `..` that is neither `_` nor an `i64` gives `InvalidPlural` naming the trimmed text |
| MacroPlural.ExclusiveText | leptos_i18n_macro/src/load_locales/plural.rs:40-43 | `"a..b"` parses to `Range{a, b - 1}` and accepts exactly `a <= n < b` |
| MacroPlural.InclusiveText | leptos_i18n_macro/src/load_locales/plural.rs:38-39 | `"a..=b"` parses to `Range{a, b}` and accepts exactly `a <= n <= b` |
| MacroPlural.OpenEndText | leptos_i18n_macro/src/load_locales/plural.rs:36-37 | an empty end is no end: `"a.."` is `Range{a, None}` |
| MacroPlural.OpenStartInclusiveText | leptos_i18n_macro/src/load_locales/plural.rs:33-39 | an empty start is no start: `"..=b"` is `Range{None, b}` |
| MacroPlural.OpenStartText | leptos_i18n_macro/src/load_locales/plural.rs:33-43 | `"..b"` is `Range{None, b - 1}` |
| MacroPlural.FullText | leptos_i18n_macro/src/load_locales/plural.rs:32-45 | `".."` is `Range{None, None}` |
| MacroPlural.ExclusiveEndAtMinimum | leptos_i18n_macro/src/load_locales/plural.rs:40-43 | as written, an exclusive end at `i64::MIN` becomes no end, so `"a..-9223372036854775808"` accepts `a` and every count above |
| MacroPlural.ExclusiveTextChecked | leptos_i18n_macro/src/load_locales/plural.rs:40-43 | corrected: with the end checked, `"a..b"` with `b` at `i64::MIN` is rejected as `InvalidPlural`, and otherwise it is `Range{a, b-1}`, which accepts exactly `a <= n < b` |
| MacroPlural.CheckedEndAgrees | leptos_i18n_macro/src/load_locales/plural.rs:36-43 | the checked end agrees with the source's except where the source reads an exclusive `i64::MIN` as no end |
| MacroPlural.CheckedAgrees | leptos_i18n_macro/src/load_locales/plural.rs:20-49 | the checked parser agrees with `Plural::new` except that it rejects a range the source reads as having no end |
| Display.Then | leptos_i18n/src/display.rs:20-22 | `?`: after a failure nothing more is written and the failure is returned |
| Display.ThenAssoc | leptos_i18n/src/display.rs:18-25 | chaining writes is associative |
| Display.SequenceAppend | leptos_i18n/src/display.rs:18-25 | displaying two lists of attributes in turn is displaying their concatenation |
| Display.SequenceAllOk | leptos_i18n/src/display.rs:18-25 | attributes display successfully exactly when each does, and then as the in-order concatenation of each |
| Display.TagRender | leptos_i18n/src/display.rs:54-62 | a `str` component renders `<n` + attributes + `>` + children + `</n>`, and stops at a failing attribute |
| Display.TagRenderSelfClosing | leptos_i18n/src/display.rs:64-66 | a self-closing `str` renders `<n` + attributes + ` />` |
| Display.ClosureSelfClosing | leptos_i18n/src/display.rs:49-51 | a closure component closes itself by being called with children that write nothing |
| Display.CompWithoutPairs | leptos_i18n/src/display.rs:153-170 | a `DisplayComp` without pairs renders like the bare tag name |
| Display.CompRender | leptos_i18n/src/display.rs:145-163 | a `DisplayComp` writes each pair as ` k="v"` between the attributes and `>` |
| Display.RenderSplits | leptos_i18n/src/display.rs:54-62 | a rendering is the opening part followed by the closing part |
| Display.Formatter.constructor | leptos_i18n/src/display.rs:6 | the sink starts empty |
| Display.Formatter.WriteAttributes | leptos_i18n/src/display.rs:18-25 | the loop writes each attribute in turn, stopping at the first failure |
| Display.Formatter.WritePairs | leptos_i18n/src/display.rs:145-150 | the loop writes each pair as ` k="v"` |
| Display.Formatter.Open | leptos_i18n/src/display.rs:158-159 | writes `<n`, the attributes and the pairs |
| Display.Formatter.Close | leptos_i18n/src/display.rs:160-162 | writes `>`, the children and `</n>` |
| Display.Formatter.Fmt | leptos_i18n/src/display.rs:42-62 | `fmt` appends the rendering of the component to the sink |
| Display.Formatter.FmtSelfClosing | leptos_i18n/src/display.rs:49-66 | `fmt_self_closing` appends the self-closing rendering to the sink |
| Reduction.NonEmptyText | leptos_i18n_parser/src/parse_locales/parsed_value.rs:138-148 | a literal other than the empty string displays as a non-empty text |
| Reduction.Reduce | leptos_i18n_parser/src/parse_locales/parsed_value.rs:853-911 | a reduced bloc is the default value, one flat non-empty item, or at least two items none of which is a bloc, a foreign key or the empty string, with no two literals side by side |
| Reduction.ReduceAttributes | leptos_i18n_parser/src/parse_locales/parsed_value.rs:1168-1174 | reduced attributes keep their number, their names and which of them hold a value |
| Reduction.ReduceInto | leptos_i18n_parser/src/parse_locales/parsed_value.rs:913-962 | `reduce_into` keeps a normal bloc normal and changes nothing of the bloc it extends but the last item (the literal it joins onto) |
| Reduction.ReduceBloc | leptos_i18n_parser/src/parse_locales/parsed_value.rs:894-898 | the loop over a bloc's items keeps the bloc being built normal and touches only its last item |
| Reduction.ReduceBlocValue | leptos_i18n_parser/src/parse_locales/parsed_value.rs:894-904 | the method running the loop over a bloc and the collapse of fewer than two items computes `reduce` of the bloc |
| Reduction.ItemsAtomsAppend | leptos_i18n_parser/src/parse_locales/parsed_value.rs:913-962 | what a bloc shows is what its items show, one after the other |
| Reduction.JoinAtoms | leptos_i18n_parser/src/parse_locales/parsed_value.rs:105-125 | joining a literal onto the bloc's last literal shows the same characters as pushing it |
| Reduction.ReduceIntoAtoms | leptos_i18n_parser/src/parse_locales/parsed_value.rs:913-962 | `reduce_into` adds to the bloc exactly what the value shows, once foreign keys are followed and blocs flattened |
| Reduction.ReduceBlocAtoms | leptos_i18n_parser/src/parse_locales/parsed_value.rs:894-898 | the loop over a bloc's items adds exactly what those items show, in order |
| Reduction.ReduceBlocKeepsAtoms | leptos_i18n_parser/src/parse_locales/parsed_value.rs:894-904 | reducing a bloc keeps what it shows and leaves its items normal |
| Populating.Populate | leptos_i18n_parser/src/parse_locales/parsed_value.rs:698-752 | populating subkeys fails with `InvalidForeignKey` at the foreign key, locale and key path |
| Populating.PopulateBloc | leptos_i18n_parser/src/parse_locales/parsed_value.rs:739-743 | a populated bloc keeps its length |
| Populating.PopulateAttributes | leptos_i18n_parser/src/parse_locales/parsed_value.rs:1185-1205 | populated attributes keep their number and their names |
| Populating.RangesWithNewKey | leptos_i18n_parser/src/parse_locales/ranges.rs:667-728 | populated ranges keep their type and every range, and take the new count key |
| Populating.RangeEntries | leptos_i18n_parser/src/parse_locales/ranges.rs:675-687 | the populated entries keep every range in order |
| Populating.PluralsWithNewKey | leptos_i18n_parser/src/parse_locales/plurals.rs:124-144 | populated plurals keep their rule type and every form in order, and take the new count key |
| Populating.PluralForms | leptos_i18n_parser/src/parse_locales/plurals.rs:132-136 | the populated forms keep every form in order |
| Populating.SelectedForm | leptos_i18n_parser/src/parse_locales/plurals.rs:232-240 | the value a category selects is part of the plurals |
| Populating.PopulateUntouched | leptos_i18n_parser/src/parse_locales/parsed_value.rs:698-752 | arguments that name no variable of the value, give no count to its ranges or plurals, and meet no subkeys leave it unchanged |
| Populating.PopulateFailsOnSubkeys | leptos_i18n_parser/src/parse_locales/parsed_value.rs:748-752 | without a count argument, populating fails exactly when the value reaches subkeys, and then with `InvalidForeignKey` |
| Populating.IntegerCount | leptos_i18n_parser/src/parse_locales/ranges.rs:455-665 | a literal stands for an integer count exactly when it is signed or unsigned |
| Populating.RangesIntegerCount | leptos_i18n_parser/src/parse_locales/ranges.rs:730-742 | with an integer `var_count`, populating ranges is `find_value` on that count |
| Populating.RangesCountSelects | leptos_i18n_parser/src/parse_locales/ranges.rs:463-476 | a count that fits the ranges' type selects the populated value of the first range that matches it |
| Populating.RangesCountOutside | leptos_i18n_parser/src/parse_locales/ranges.rs:478-490 | a count the ranges' type cannot hold is `CountArgOutsideRange` |
| Populating.RangesCountUnmatched | leptos_i18n_parser/src/parse_locales/ranges.rs:463-476 | a count no range matches reaches `unreachable!`; ranges ending with a fallback always select a value |
| Populating.RangesFloatCount | leptos_i18n_parser/src/parse_locales/ranges.rs:492-508 | a float count against integer ranges is `InvalidCountArgType` with input type `f64` |
| Populating.PluralsNumericCount | leptos_i18n_parser/src/parse_locales/plurals.rs:187-241 | a numeric `var_count` populates the value its plural category selects |
| Populating.PluralsCountSelects | leptos_i18n_parser/src/parse_locales/plurals.rs:232-240 | a category that has a form selects that form's value |
| Populating.PluralsCountOther | leptos_i18n_parser/src/parse_locales/plurals.rs:232-240 | category `other`, or one without a form, selects the `other` value |
| Populating.PluralsTextCount | leptos_i18n_parser/src/parse_locales/plurals.rs:220-225 | a string or boolean count is `InvalidCountArg` |
| Populating.PopulateCountKey | leptos_i18n_parser/src/parse_locales/ranges.rs:652-665 | populated ranges and plurals stay ranges and plurals, and their count key is the variable `var_count` names, or the old key without `var_count` |
| Populating.InvalidCount | leptos_i18n_parser/src/parse_locales/ranges.rs:659-664 | a count that is neither a number nor names a variable is `InvalidCountArg`, for ranges and for plurals |
| Populating.PopulateBlocItems | leptos_i18n_parser/src/parse_locales/parsed_value.rs:739-743 | a bloc populates exactly when every item does, giving the populated items in order |
| Populating.PopulateBlocFirstError | leptos_i18n_parser/src/parse_locales/parsed_value.rs:739-743 | a failing bloc fails with the error of one of its items |
| Parsing.ParseFormatterArgsBare | leptos_i18n_parser/src/parse_locales/parsed_value.rs:189-207 | formatter text without a `(` is the trimmed name with no arguments |
| Parsing.ParseFormatterArgsCall | leptos_i18n_parser/src/parse_locales/parsed_value.rs:189-207 | `name(args)rest` gives the trimmed name and the `;`-separated arguments, each `key: value` or a bare key |
| Parsing.NewKeysExact | leptos_i18n_parser/src/parse_locales/parsed_value.rs:238-242 | the pieces make keys exactly when every piece makes a key, so one failing piece (`a..b`, `a.1b`) makes the whole path none; then there is one key per piece, each the key of its piece, in order |
| Parsing.ParsePath | leptos_i18n_parser/src/parse_locales/parsed_value.rs:238-244 | a parsed path lies in the namespace it was given |
| Parsing.NewKeysAll | leptos_i18n_parser/src/parse_locales/parsed_value.rs:238-242 | pieces that each make a key make that sequence of keys |
| Parsing.NewKeysOfNames | leptos_i18n_parser/src/parse_locales/parsed_value.rs:238-242 | the names of valid keys make the same keys again |
| Parsing.ParsePathOfJoin | leptos_i18n_parser/src/parse_locales/parsed_value.rs:238-244 | the `.`-joined names of plain keys parse back to those keys |
| Parsing.ParseKeyPathOfJoin | leptos_i18n_parser/src/parse_locales/parsed_value.rs:230-245 | `a.b.c` of plain keys parses to that key path with no namespace (round trip of the key path text) |
| Parsing.ParseKeyPathWithoutNamespace | leptos_i18n_parser/src/parse_locales/parsed_value.rs:231-236 | a path without `:` has no namespace |
| Parsing.ParseKeyPathOfJoinInNamespace | leptos_i18n_parser/src/parse_locales/parsed_value.rs:230-245 | `ns:a.b.c` parses to those keys in namespace `ns` |
| Parsing.ArgsEnd | leptos_i18n_parser/src/parse_locales/parsed_value.rs:280-301 | when the argument scan finds an end, it is the index of a `}` at or after the start |
| Parsing.ArgsEndScan | leptos_i18n_parser/src/parse_locales/parsed_value.rs:280-301 | the loop over the characters tracking brace depth gives the scan's outcome |
| Parsing.ArgsEndUnbalanced | leptos_i18n_parser/src/parse_locales/parsed_value.rs:283-295 | the scan fails exactly when the first brace it meets is a `}` |
| Parsing.ArgsEndNeverFailsInside | leptos_i18n_parser/src/parse_locales/parsed_value.rs:283-295 | inside an open `{` the scan never fails |
| Parsing.ArgsEndNoClose | leptos_i18n_parser/src/parse_locales/parsed_value.rs:280-301 | without a `}` the scan reaches the end of the text |
| Parsing.SplitArgs | leptos_i18n_parser/src/parse_locales/parsed_value.rs:276-321 | the corrected split succeeds exactly when the scan finds the closing `}` and a `)` follows it after spaces; every failure is `UnexpectedToken` with the malformed message |
| Parsing.SplitArgsAsWrittenPanics | leptos_i18n_parser/src/parse_locales/parsed_value.rs:303 | as written, arguments ending the text make `split_at` panic |
| Parsing.SplitArgsAsWrittenPanicsOnWideChar | leptos_i18n_parser/src/parse_locales/parsed_value.rs:303 | as written, an unclosed object starting with a non-ASCII character makes `split_at` panic |
| Parsing.SplitArgsAgree | leptos_i18n_parser/src/parse_locales/parsed_value.rs:276-321 | once a closing `}` is found, the corrected split is the written one |
| Parsing.Around | leptos_i18n_parser/src/parse_locales/parsed_value.rs:344-348 | the bloc around a match succeeds exactly when the text before and after parse, and is `[before, match, after]` |
| Parsing.ComponentBloc | leptos_i18n_parser/src/parse_locales/parsed_value.rs:489-529 | the component's bloc succeeds exactly when the text before, the inner text and the attributes parse, and holds more items than the text before |
| Parsing.LocateVariable | leptos_i18n_parser/src/parse_locales/parsed_value.rs:374-375 | the text around a `{{ .. }}` placeholder is shorter than the text |
| Parsing.LocateForeignKey | leptos_i18n_parser/src/parse_locales/parsed_value.rs:324-329 | the text around a `$t(` reference is shorter than the text |
| Parsing.ItemsOf | leptos_i18n_parser/src/parse_locales/parsed_value.rs:517-525 | taking a parse's items keeps its errors and registration and succeeds when the parse does |
| Parsing.New | leptos_i18n_parser/src/parse_locales/parsed_value.rs:159-175 | corrected (text before a component parsed, unclosed arguments malformed): a parse gives a bloc or the whole text as one literal |
| Parsing.NewRegistersForeignKeys | leptos_i18n_parser/src/parse_locales/parsed_value.rs:1119-1128 | corrected: for every text, a value that parses registers its key path exactly when it holds a foreign key |
| Parsing.FindComponentRegisters | leptos_i18n_parser/src/parse_locales/parsed_value.rs:489-529 | corrected: a component's bloc registers its path exactly when it holds a foreign key, before, inside or after the component |
| Parsing.FindVariableRegisters | leptos_i18n_parser/src/parse_locales/parsed_value.rs:394-401 | a variable's bloc registers its path exactly when the text before or after the placeholder holds a foreign key |
| Parsing.FindForeignKeyRegisters | leptos_i18n_parser/src/parse_locales/parsed_value.rs:323-349 | a foreign key that parses registers its path and is in the bloc |
| Parsing.FindComponent | leptos_i18n_parser/src/parse_locales/parsed_value.rs:489-529 | the corrected component search emits nothing when it does not match, and gives a bloc when it does |
| Parsing.FindForeignKey | leptos_i18n_parser/src/parse_locales/parsed_value.rs:323-349 | corrected (unclosed arguments malformed): the foreign-key search emits nothing when it does not match; a match gives a bloc and registers the key path |
| Parsing.FindVariable | leptos_i18n_parser/src/parse_locales/parsed_value.rs:394-401 | a variable match gives the three-item bloc `[before, variable, after]` |
| Parsing.ParseForeignKeyArgs | leptos_i18n_parser/src/parse_locales/parsed_value.rs:276-321 | corrected (unclosed arguments malformed): the text left after the arguments is shorter than the text |
| Parsing.ParseForeignKeyArgsOutcome | leptos_i18n_parser/src/parse_locales/parsed_value.rs:276-321 | corrected: the arguments parse exactly when the object closes, is followed by `)` and decodes into values that parse; then they are the decoded object and the text after the `)`; a malformed split is `UnexpectedToken`, an object that does not decode `InvalidForeignKeyArgs` |
| Parsing.SplitArgsAsWrittenCutsUnclosed | leptos_i18n_parser/src/parse_locales/parsed_value.rs:280-319 | as written, an unclosed object with an ASCII first character is cut after it, so `$t(k,x)` reports `InvalidForeignKeyArgs`; corrected it is `UnexpectedToken` |
| Parsing.ParseArgsObject | leptos_i18n_parser/src/parse_locales/parsed_value.rs:247-274 | text that does not decode is `InvalidForeignKeyArgs`; success needs a decoded object |
| Parsing.ParseArgValues | leptos_i18n_parser/src/parse_locales/parsed_value.rs:261-271 | the parsed arguments are exactly the `var_`-prefixed trimmed names of the decoded entries |
| Parsing.FindComponentNone | leptos_i18n_parser/src/parse_locales/parsed_value.rs:489-490 | without a valid component the search gives up and emits nothing |
| Parsing.FindForeignKeyNone | leptos_i18n_parser/src/parse_locales/parsed_value.rs:323-329 | without a `$t(` whose path parses the search gives up and emits nothing |
| Parsing.FindVariableNone | leptos_i18n_parser/src/parse_locales/parsed_value.rs:394-395 | without a placeholder the search gives up and emits nothing |
| Parsing.NewLiteral | leptos_i18n_parser/src/parse_locales/parsed_value.rs:159-175 | a text no search matches is one literal |
| Parsing.LocateForeignKeyMissing | leptos_i18n_parser/src/parse_locales/parsed_value.rs:324 | no `$t(`, no foreign key |
| Parsing.LocateVariableMissing | leptos_i18n_parser/src/parse_locales/parsed_value.rs:374 | no `{{`, no placeholder |
| Parsing.NewPlainText | leptos_i18n_parser/src/parse_locales/parsed_value.rs:159-175 | text without a tag, a `$t(` or a `{{` is one literal and emits nothing |
| Parsing.NewPlain | leptos_i18n_parser/src/parse_locales/parsed_value.rs:159-175 | plain text is one literal |
| Parsing.LocateVariableOf | leptos_i18n_parser/src/parse_locales/parsed_value.rs:374-375 | `b{{v}}a` is cut at its placeholder when `b` has no `{` and `v` no `}` |
| Parsing.VariableTextCut | leptos_i18n_parser/src/parse_locales/parsed_value.rs:370-401 | `b{{v}}a` around plain text has no component, no foreign key, and this placeholder |
| Parsing.ValidVariablePlain | leptos_i18n_parser/src/parse_locales/parsed_value.rs:385-390 | a placeholder without a formatter is the variable `var_name` |
| Parsing.FindVariableMatch | leptos_i18n_parser/src/parse_locales/parsed_value.rs:394-401 | a valid placeholder makes the variable search parse the text around it |
| Parsing.NewByVariable | leptos_i18n_parser/src/parse_locales/parsed_value.rs:159-175 | with no component and no foreign key, the variable search decides |
| Parsing.NewVariable | leptos_i18n_parser/src/parse_locales/parsed_value.rs:370-401 | `b{{ v }}a` is the bloc of the text before, the variable `var_v` and the text after |
| Parsing.KeyPathCut | leptos_i18n_parser/src/parse_locales/parsed_value.rs:325-328 | the key path runs to the first `,` or `)` after `$t(` |
| Parsing.LocateForeignKeyOf | leptos_i18n_parser/src/parse_locales/parsed_value.rs:324-329 | `b$t(p,rest` or `b$t(p)rest` is cut at that `$t(` when `b` has no `$` |
| Parsing.ForeignKeyTextCut | leptos_i18n_parser/src/parse_locales/parsed_value.rs:323-349 | `b$t(p)a` around plain text has no component and this reference without arguments |
| Parsing.FindForeignKeyBare | leptos_i18n_parser/src/parse_locales/parsed_value.rs:331-348 | `$t(path)` without arguments is registered and the text around it parsed |
| Parsing.NewByForeignKey | leptos_i18n_parser/src/parse_locales/parsed_value.rs:159-175 | with no component, a matching foreign-key search decides |
| Parsing.NewForeignKey | leptos_i18n_parser/src/parse_locales/parsed_value.rs:323-349 | `b$t(p)a` is the bloc of the text before, the foreign key with no arguments and the text after, and its path is registered |
| Parsing.NewByComponent | leptos_i18n_parser/src/parse_locales/parsed_value.rs:159-175 | a component, when there is one, decides |
| Parsing.FindComponentOf | leptos_i18n_parser/src/parse_locales/parsed_value.rs:489-529 | a valid component makes the component search build its bloc |
| Parsing.NewComponentWithAttributes | leptos_i18n_parser/src/parse_locales/parsed_value.rs:481-487 | a component with attribute text is an error |
| Parsing.PlainItems | leptos_i18n_parser/src/parse_locales/parsed_value.rs:517-525 | the items of plain text are the one literal |
| Parsing.NewComponent | leptos_i18n_parser/src/parse_locales/parsed_value.rs:489-529 | plain text around a component without attributes is the bloc of the text before, the component with its inner text, and the text after |
| Parsing.ComponentBlocPlain | leptos_i18n_parser/src/parse_locales/parsed_value.rs:489-529 | the bloc of a component without attributes around literal texts |
| Parsing.FindComponentBeforeVariable | leptos_i18n_parser/src/parse_locales/parsed_value.rs:494-502 | a placeholder before a component stays literal text as written but becomes a variable when corrected; both succeed or fail together |
| Tags.IndexFrom | leptos_i18n_parser/src/parse_locales/parsed_value.rs:535-540 | a position found holds the character and lies at or after the start |
| Tags.IndexFromFirst | leptos_i18n_parser/src/parse_locales/parsed_value.rs:535-540 | no occurrence comes before the one found (`find` gives the first) |
| Tags.IndexFromFinds | leptos_i18n_parser/src/parse_locales/parsed_value.rs:535-540 | the first occurrence by position is the one found |
| Tags.TrimmedIsTrim | leptos_i18n_parser/src/parse_locales/parsed_value.rs:542 | trimming by position is `trim` of the slice |
| Tags.NextTag | leptos_i18n_parser/src/parse_locales/parsed_value.rs:535-540 | the next tag is a `<` at or after the start followed later by a `>` |
| Tags.NextTagFirst | leptos_i18n_parser/src/parse_locales/parsed_value.rs:535-540 | the next tag is the first `<` from the start and the first `>` after it |
| Tags.NextTagIsTagAt | leptos_i18n_parser/src/parse_locales/parsed_value.rs:535-540 | a tag found by position is the one the scan finds |
| Tags.FindOpeningTag | leptos_i18n_parser/src/parse_locales/parsed_value.rs:569-586 | the opening tag is the first `<` and the first `>` after it; the text before and after are the slices around it, and the skip is just past `>`; no tag when there is no such pair |
| Tags.KindAtIsKind | leptos_i18n_parser/src/parse_locales/parsed_value.rs:545-562 | classifying by position is classifying the slice |
| Tags.TagKindAtIsKind | leptos_i18n_parser/src/parse_locales/parsed_value.rs:542-562 | a tag is classified from the trimmed text between `<` and `>` |
| Tags.TagsFrom | leptos_i18n_parser/src/parse_locales/parsed_value.rs:535-544 | every tag listed lies in the text and opens at or after the start |
| Tags.TagsFromStep | leptos_i18n_parser/src/parse_locales/parsed_value.rs:535-544 | the tags from a start are the next tag and the tags after its `>` |
| Tags.TagsFromAreTags | leptos_i18n_parser/src/parse_locales/parsed_value.rs:535-544 | each listed tag is the first `<` after the previous tag's `>` and the first `>` after it |
| Tags.TagsFromOrdered | leptos_i18n_parser/src/parse_locales/parsed_value.rs:535-544 | every later tag opens after the first tag's `>` |
| Tags.TagsFromKinds | leptos_i18n_parser/src/parse_locales/parsed_value.rs:542-562 | each listed tag carries the kind classified from the text between its `<` and `>` |
| Tags.ClosingInNextTag | leptos_i18n_parser/src/parse_locales/parsed_value.rs:535-564 | the search for the closing tag either decides at the next tag, by the depth step, or goes on after its `>` with the new depth |
| Tags.ClosingIn | leptos_i18n_parser/src/parse_locales/parsed_value.rs:546-562 | a tag found closes the key and is one of the tags |
| Tags.ClosingInFinds | leptos_i18n_parser/src/parse_locales/parsed_value.rs:546-562 | the tag found is the first one closing the key when the tags before it leave no level open |
| Tags.FindClosingTag | leptos_i18n_parser/src/parse_locales/parsed_value.rs:531-567 | a closing tag found has the key `comp_key`, and the text before and after it are together shorter than the text |
| Tags.ClosingInIsClosing | leptos_i18n_parser/src/parse_locales/parsed_value.rs:546-562 | the tag found is a `<`..`>` pair of the text closing the key |
| Tags.FindClosingTagSlices | leptos_i18n_parser/src/parse_locales/parsed_value.rs:554-556 | the text before and after are what comes before the tag's `<` and after its `>` |
| Tags.FindClosingTagCloses | leptos_i18n_parser/src/parse_locales/parsed_value.rs:546-562 | the closing tag found is `</key>` up to whitespace |
| Tags.ClosingTagScan | leptos_i18n_parser/src/parse_locales/parsed_value.rs:535-564 | the loop tracking the depth over the tags finds the tag that the specification finds |
| Tags.FindClosingTagScan | leptos_i18n_parser/src/parse_locales/parsed_value.rs:531-567 | the method checks `comp_key` and then scans, as specified |
| Tags.TagName | leptos_i18n_parser/src/parse_locales/parsed_value.rs:435-439 | a content splits at its first space into a name without spaces and the attributes; an empty content has no name |
| Tags.ComponentAt | leptos_i18n_parser/src/parse_locales/parsed_value.rs:435-472 | a component found at a tag has the text up to that tag's `<` before it, and shorter texts between and after |
| Tags.ComponentIn | leptos_i18n_parser/src/parse_locales/parsed_value.rs:430-476 | every text of the component found is shorter than the text |
| Tags.FindValidComponent | leptos_i18n_parser/src/parse_locales/parsed_value.rs:427-477 | every text of the component found is shorter than the text |
| Tags.NoTagNoComponent | leptos_i18n_parser/src/parse_locales/parsed_value.rs:569-570 | a text without `<` has no component |
| Tags.ComponentAtScan | leptos_i18n_parser/src/parse_locales/parsed_value.rs:435-472 | the loop body at one tag gives the specified outcome |
| Tags.FindValidComponentScan | leptos_i18n_parser/src/parse_locales/parsed_value.rs:427-477 | the loop that passes over unclosed tags finds the component that the specification finds |
| Tags.PassedOverSkipped | leptos_i18n_parser/src/parse_locales/parsed_value.rs:474-475 | tags passed over do not change what the search finds |
| Tags.SelfClosingComponent | leptos_i18n_parser/src/parse_locales/parsed_value.rs:443-453 | a self-closing tag gives a component with nothing between exactly when its name makes a valid key, and stops the search otherwise |
| Tags.ComponentInBefore | leptos_i18n_parser/src/parse_locales/parsed_value.rs:446-451 | a component found after a position has at least that much text before it |
| Tags.ComponentAtPassOver | leptos_i18n_parser/src/parse_locales/parsed_value.rs:455-475 | a tag is passed over exactly when it opens a named component whose closing tag is not found after it |
| Tags.UnclosedTagPassedOver | leptos_i18n_parser/src/parse_locales/parsed_value.rs:474-475 | a tag passed over stays in the text before a component found later |
| Locales.GetValueAt | leptos_i18n_parser/src/parse_locales/locale.rs:433-448 | an empty path finds nothing and a one-key path is the locale's value at that key |
| Locales.GetValueAtAppend | leptos_i18n_parser/src/parse_locales/locale.rs:433-448 | looking up `p + q` is looking up `p`, then `q` inside the subkeys found; a value that is not subkeys ends the lookup with nothing |
| Locales.FindLocale | leptos_i18n_parser/src/parse_locales/locale.rs:387-389 | the locale found has the name sought; none is found only when no locale has it |
| Locales.FindNamespace | leptos_i18n_parser/src/parse_locales/locale.rs:390-391 | the namespace found has the key sought; none is found only when no namespace has it |
| Locales.LookUp | leptos_i18n_parser/src/parse_locales/locale.rs:382-401 | a path with no keys, or whose namespace does not match how the locales are split, finds nothing |
| Locales.LookUpInLocale | leptos_i18n_parser/src/parse_locales/locale.rs:387-389 | without namespaces, a lookup searches the first locale of that name |
| Locales.FindLocaleFirst | leptos_i18n_parser/src/parse_locales/locale.rs:387-389 | the first locale with the name is the one found |
| Locales.IsPossiblePlural | leptos_i18n_parser/src/parse_locales/locale.rs:450-464 | a possible plural is never ranges or subkeys, and its key is `base_form` or `base_ordinal_form` |
| Locales.NoUnderscoreInForm | leptos_i18n_parser/src/parse_locales/locale.rs:456 | form names hold no `_`, so `rsplit_once('_')` isolates the form |
| Locales.PossiblePluralRoundTrip | leptos_i18n_parser/src/parse_locales/locale.rs:450-464 | `base_form` is recognised as the cardinal form of `base` (when `base` does not end in `_ordinal`) and `base_ordinal_form` as its ordinal form |
| Locales.CountConflict | leptos_i18n_parser/src/parse_locales/locale.rs:234-250 | a variable counting for two things is an error unless it counted for nothing or the same thing; ranges and plurals mixed is `RangeAndPluralsMix`, two range types `RangeTypeMissmatch` |
| Locales.InterpolationKeys.constructor | leptos_i18n_parser/src/parse_locales/locale.rs:118-122 | a new set of interpolation keys is empty |
| Locales.InterpolationKeys.PushVar | leptos_i18n_parser/src/parse_locales/locale.rs:218-221 | the variable gains the formatter, and nothing else changes |
| Locales.InterpolationKeys.PushComp | leptos_i18n_parser/src/parse_locales/locale.rs:223-225 | the component is added, and nothing else changes |
| Locales.InterpolationKeys.PushCount | leptos_i18n_parser/src/parse_locales/locale.rs:227-251 | the variable now counts for the type whatever happens; success exactly when it counted for nothing or the same, otherwise the `CountConflict` error and the key path taken |
| Locales.InterpolSlot.GetInterpolKeysMut | leptos_i18n_parser/src/parse_locales/locale.rs:199-207 | interpolation keys are returned as they are; a literal is replaced by new empty keys, which are returned |
| Locales.AddMemberAsWritten | leptos_i18n_parser/src/parse_locales/locale.rs:486-488 | as written, recording a key sets the form of its base's group and replaces a member already there; other groups are unchanged |
| Locales.AddMember | leptos_i18n_parser/src/parse_locales/locale.rs:484-489 | corrected: recording a form the group already has is `ConflictingPluralRuleType` at the base, whether or not the group has `other`; otherwise the form is added and other groups are unchanged |
| Locales.AddMemberKeeps | leptos_i18n_parser/src/parse_locales/locale.rs:484-489 | corrected: a recorded member joins the members already there, which stay |
| Locales.InsertMembers | leptos_i18n_parser/src/parse_locales/locale.rs:495-498 | inserting members keeps the keys sorted |
| Locales.FormsOf | leptos_i18n_parser/src/parse_locales/locale.rs:510-523 | each merged form is a form of the group with that member's value |
| Locales.FormsOfComplete | leptos_i18n_parser/src/parse_locales/locale.rs:510-523 | every form of the group is among the merged forms |
| Locales.MergeGroup | leptos_i18n_parser/src/parse_locales/locale.rs:493-543 | a lone key, or keys without `other`, stay plain keys; the keys stay sorted |
| Locales.MergeGroups | leptos_i18n_parser/src/parse_locales/locale.rs:493-543 | the merged groups keep the keys sorted |
| Locales.Classify | leptos_i18n_parser/src/parse_locales/locale.rs:479-491 | corrected (a form recorded twice in a group is a conflict): the first pass keeps both the plain keys and the groups sorted |
| Locales.MergePluralsOf | leptos_i18n_parser/src/parse_locales/locale.rs:466-546 | corrected (a form recorded twice in a group is a conflict): the merged keys are sorted |
| Locales.MergePlurals | leptos_i18n_parser/src/parse_locales/locale.rs:466-546 | corrected (a form recorded twice in a group is a conflict): the two passes, subkeys merged first, compute the merged keys |
| Locales.MergeValue | leptos_i18n_parser/src/parse_locales/locale.rs:480-484 | corrected (a form recorded twice in a group is a conflict): a value's subkeys are merged before the value is classified |
| Locales.ClassifyKeys | leptos_i18n_parser/src/parse_locales/locale.rs:479-491 | corrected (a form recorded twice in a group is a conflict): the loop over the keys builds the plain keys and the groups |
| Locales.InsertMembersKeeps | leptos_i18n_parser/src/parse_locales/locale.rs:495-498 | each member is at its own key with its value, and no other key changes |
| Locales.AllFormsComplete | leptos_i18n_parser/src/parse_locales/locale.rs:493-543 | every plural form is considered |
| Locales.MergeGroupKeepsKeys | leptos_i18n_parser/src/parse_locales/locale.rs:494-505 | a lone key, or keys without `other`, stay at their own keys with their values, and no other key changes |
| Locales.MergeGroupFails | leptos_i18n_parser/src/parse_locales/locale.rs:506-543 | a group with `other` and another form fails exactly when the base is not a key (panic), plurals are disabled (`DisabledPlurals`), rule types differ (`ConflictingPluralRuleType`), or the base is a plain key (`PluralsAtNormalKey`) |
| Locales.MergeGroupMakesPlurals | leptos_i18n_parser/src/parse_locales/locale.rs:506-543 | a group that merges becomes plurals at the base key, with `other` as fallback, exactly the other forms, the group's rule type and `var_count`; no other key changes |
| Locales.ClassifyPlain | leptos_i18n_parser/src/parse_locales/locale.rs:479-491 | keys that are neither subkeys nor possible plurals are all kept, and no group is made |
| Locales.MergePluralsPlain | leptos_i18n_parser/src/parse_locales/locale.rs:466-546 | a locale without subkeys or plural-like keys keeps exactly its keys |
| Locales.FillMissing | leptos_i18n_parser/src/parse_locales/locale.rs:561-575 | filling in keeps the keys sorted, and fails only with the `merge_1` panic |
| Locales.Merge | leptos_i18n_parser/src/parse_locales/locale.rs:548-588 | the keys are filled in; the warnings are the missing keys, then (on success) the surplus keys; no error is pushed |
| Locales.FillKeys | leptos_i18n_parser/src/parse_locales/locale.rs:561-575 | the first loop fills every builder key in and warns about each missing one |
| Locales.WarnSurplus | leptos_i18n_parser/src/parse_locales/locale.rs:577-585 | the second loop warns about each key the builder lacks, in key order |
| Locales.FillMissingFills | leptos_i18n_parser/src/parse_locales/locale.rs:561-575 | filling in succeeds exactly when the default locale has every builder key; then the locale's keys keep their values, the missing builder keys are `Default`, and no other key appears |
| Locales.MissingWarningsExact | leptos_i18n_parser/src/parse_locales/locale.rs:561-575 | the missing-key warnings name exactly the builder keys the locale lacks |
| Locales.SurplusWarningsExact | leptos_i18n_parser/src/parse_locales/locale.rs:577-585 | the surplus-key warnings name exactly the locale's keys the builder lacks |
| Locales.CardinalAndOrdinalCollide | leptos_i18n_parser/src/parse_locales/locale.rs:450-464 | `b_one` and `b_ordinal_one` are different keys that are both form `one` of base `b` |
| Locales.AddMemberAsWrittenDrops | leptos_i18n_parser/src/parse_locales/locale.rs:486-488 | as written, the second of two keys of one base and form replaces the first, leaving a one-member group; the corrected recording reports a conflict |
| Catalog.FirstIndex | leptos_i18n_parser/src/parse_locales/mod.rs:316-318 | the first position of a string holds it and no earlier position does |
| Catalog.DedupFirstSeen | leptos_i18n_parser/src/parse_locales/mod.rs:316-329 | the strings of a locale are distinct, exactly the strings pushed, and in the order of their first push |
| Catalog.StringIndexer.constructor | leptos_i18n_parser/src/parse_locales/mod.rs:311-315 | a new indexer holds no string |
| Catalog.StringIndexer.PushStr | leptos_i18n_parser/src/parse_locales/mod.rs:316-329 | a string already pushed gets its index back and changes nothing; a new one is appended with the next index; either way the string is at the index returned |
| Catalog.StringIndexer.GetStrings | leptos_i18n_parser/src/parse_locales/mod.rs:331-333 | the strings are the distinct strings pushed, in order of first push, each at the index `push_str` gave it |
| Catalog.FirstWith | leptos_i18n_parser/src/parse_locales/mod.rs:205-209 | the key found is the first whose locale is the one sought; none only when no locale is |
| Catalog.ScanFor | leptos_i18n_parser/src/parse_locales/mod.rs:205-209 | the loop over the map finds the first key with the locale sought |
| Catalog.FindBaseDefault | leptos_i18n_parser/src/parse_locales/mod.rs:177-218 | the method with its two scans computes the base default |
| Catalog.BaseDefaultIsBase | leptos_i18n_parser/src/parse_locales/mod.rs:177-218 | a bare language has no base default; a base default is a locale of the map with the same language and no script, variant or extension, keeps the region only for a decorated locale, and is never the locale itself |
| Catalog.BaseDefaultPrefersRegion | leptos_i18n_parser/src/parse_locales/mod.rs:199-209 | a decorated locale prefers the locale with its language and region over the language alone |
| Catalog.LocaleFallbackOrder | leptos_i18n_parser/src/parse_locales/mod.rs:220-245 | an extension wins; without one, a base default; without either, the default locale, explicit only when key warnings are suppressed; only a locale missing from the map fails |
| Catalog.ForeignKeysPaths.constructor | leptos_i18n_parser/src/parse_locales/mod.rs:340-342 | a new registry is empty |
| Catalog.ForeignKeysPaths.PushPath | leptos_i18n_parser/src/parse_locales/mod.rs:344-346 | the pair is recorded; recording it again changes nothing |
| Catalog.ForeignKeysPaths.IntoInner | leptos_i18n_parser/src/parse_locales/mod.rs:348-350 | the pairs given back are exactly those recorded |
| Codegen.New | leptos_i18n_codegen/src/utils/mod.rs:58-68 | 0 is unreachable; otherwise the wrapper built names only existing `EitherOf{n}` types and distinguishes exactly `size` alternatives |
| Codegen.Wrap | leptos_i18n_codegen/src/utils/mod.rs:70-98 | every index below the capacity of a built wrapper can be wrapped |
| Codegen.LetterIndex | leptos_i18n_codegen/src/utils/mod.rs:71-73 | the letter table is read back to the index of the letter |
| Codegen.WrapUnwrap | leptos_i18n_codegen/src/utils/mod.rs:70-98 | from the wrapped expression both the index and the payload can be read back |
| Codegen.WrapInjective | leptos_i18n_codegen/src/utils/mod.rs:70-98 | distinct alternatives give distinct expressions |
| Codegen.DuoLeft | leptos_i18n_codegen/src/utils/mod.rs:76-81 | a `Duo` wraps index i as `Left` exactly when i is 0 |
| Codegen.Chunks | leptos_i18n_codegen/src/utils/mod.rs:108 | every chunk is non-empty and at most `size` long |
| Codegen.ChunksConcat | leptos_i18n_codegen/src/utils/mod.rs:108 | the chunks concatenate back to the values |
| Codegen.ChunksCount | leptos_i18n_codegen/src/utils/mod.rs:107-108 | there are `ceil(len / size)` chunks |
| Codegen.FlattenLeaves | leptos_i18n_codegen/src/utils/mod.rs:104-105 | a flat tuple holds the values in order |
| Codegen.FlattenChunks | leptos_i18n_codegen/src/utils/mod.rs:107-109 | flattening the chunk tuples one by one is their concatenation |
| Codegen.ChunkBound | leptos_i18n_codegen/src/utils/mod.rs:107 | chunks of `ceil(len / 26)` values are at most 26 |
| Codegen.FitPreservesOrder | leptos_i18n_codegen/src/utils/mod.rs:101-111 | `fit_in_leptos_tuple` keeps every value, in order, and no tuple has more than 26 elements |
| Formatters.Cmp | leptos_i18n_parser/src/formatters/mod.rs:273-296 | `Dummy` < `None` < `Formatted`, and formatted values are ordered by name |
| Formatters.SameFormatted | leptos_i18n_parser/src/formatters/mod.rs:317-335 | two formatted values are equal exactly when their names are |
| Formatters.CmpEqualIsSame | leptos_i18n_parser/src/formatters/mod.rs:273-335 | `cmp` says `Equal` exactly for values `eq` calls equal |
| Formatters.CmpAntisymmetric | leptos_i18n_parser/src/formatters/mod.rs:273-296 | swapping the operands reverses the order |
| Formatters.CmpTransitive | leptos_i18n_parser/src/formatters/mod.rs:273-296 | the order is transitive |
| Formatters.SameIsEquivalence | leptos_i18n_parser/src/formatters/mod.rs:317-335 | `eq` is reflexive, symmetric and transitive |
| Formatters.FromArgsHelper | leptos_i18n_parser/src/formatters/mod.rs:343-357 | the loop returns the value of the first argument with the name that `f` accepts, else the default |
| Formatters.FirstAcceptedIsFirst | leptos_i18n_parser/src/formatters/mod.rs:343-357 | the value comes from the first named argument `f` accepts |
| Formatters.FirstAcceptedDefault | leptos_i18n_parser/src/formatters/mod.rs:343-357 | when `f` accepts no named argument, the default is returned |
| Formatters.Formatters.NewEmpty | leptos_i18n_parser/src/formatters/mod.rs:37-41 | the registry starts empty |
| Formatters.Formatters.InsertFormatter | leptos_i18n_parser/src/formatters/mod.rs:43-56 | the formatter is registered under its name, replacing any earlier one, and a name registered before is reported as a duplicate |
| Formatters.Formatters.Parse | leptos_i18n_parser/src/formatters/mod.rs:73-91 | an unknown name gives `Dummy` and `UnknownFormatter`; a formatted result carries the name asked for and no error; `Dummy` comes with exactly one error |
| Formatters.Formatters.ParseRegistered | leptos_i18n_parser/src/formatters/mod.rs:159-174 | a registered, enabled formatter accepting the arguments gives its options |
| Formatters.Formatters.ParseInto | leptos_i18n_parser/src/formatters/mod.rs:73-91 | the errors of `parse` are emitted into the sink and no warning is |

## Left out

- File and network I/O are left out: reading the locale files and the manifest, the TOML and JSON/YAML deserialisers, and the serde visitor plumbing. The model starts from values that are already decoded.
- The JSON decoding of a foreign key's `{..}` arguments (`serde_json`) is a function parameter. The only thing assumed of it is that decoded strings are shorter than their source text.
- ICU plural rules (`get_plural_rules`, `get_category`, `check_forms`) are foreign library calls. The category of a count is a function parameter.
- Floating-point ranges and float literals are left out. Ranges are modelled for the integer types only, and a float literal carries its display text.
- `syn` identifier validation in `Key::new` is approximated by an ASCII check plus the list of reserved words.
- `resolve_foreign_key` and `ParsedValue::merge` (the merging of two values) are not part of this model.
- `Locale::merge` is modelled key by key: filled, missing and surplus keys, with their warnings.
- `LocalesOrNamespaces::merge_plurals` (locale.rs:347-380) only runs `Locale::merge_plurals` on every locale of every namespace, so only the per-locale pass is modelled.
- The locale tree's in-place updates (`get_interpol_keys_mut`, `merge_plurals`, `Locale::merge`) are modelled on values: each returns the new tree. Aliasing of the `&mut` references is not captured.
- Leptos reactivity is left out: the router's effects (`update_path_effect`, `view_wrapper`, `match_nested`), `render_to_string`'s rendering of a view, and token generation in the macros.
- The async callback of the fixture's `set_locale` is recorded as a notification (callback, argument, locale it sees), not run.
- Fixture.I18n.T: the value is inserted literally. JavaScript's `$`-patterns in a replacement string, and regular-expression characters inside a key, are not modelled.
- Fixture.I18n.T: the case-insensitive match folds ASCII letters only. The `i` flag of a JavaScript regular expression also folds other letters (`{{ É }}` matches the key `é`), and that is not modelled.
- Fixture.I18n.T: the spaces inside the braces are matched around the key as given. A key that itself starts or ends with white space can still match there in JavaScript, because `\s*` gives back what it took; that backtracking is not modelled.
- Fixture.MatchAt: matches with ASCII case folding and without giving back white space, as `Fixture.I18n.T` above.
- Fixture.LowerAscii: lowers ASCII letters only; JavaScript's case-insensitive matching also folds other letters.
- Fixture.SameIgnoringCase: compares with ASCII case folding only, as `Fixture.LowerAscii`.
- Fixture.I18n.SetLocale: requires the new locale to be a known one, as the TypeScript type `keyof L` does.
- TestRendering.RemoveNoise: requires a non-empty end delimiter. Both callers pass fixed, non-empty delimiters.
- Codegen.New: size 0, which the source marks `unreachable!`, gives `None`. Likewise, `Codegen.Wrap` gives `None` where the source would index its letter table out of bounds.
- Formatters: the individual formatters (currency, number, list, date/time) and `parse_from_tt` are left out. A formatter is its name, whether its feature is enabled, and an argument parser given as a function.
- `Oco` borrowed/owned strings and `fmt::Result` are modelled as strings and a success flag.

- Parsing.New: computes the corrected parser. The text before a component is parsed here, while the source keeps it as one literal: `{{ a }} <b>x</b>` gives a variable here and one literal there. An argument object that no `}` closes is `UnexpectedToken` here. The source gives `InvalidForeignKeyArgs` for `$t(k,x)` and panics on a text ending in `$t(k,`. The written behaviour is in `Parsing.FindComponentAsWritten` and `Parsing.ParseForeignKeyArgsAsWritten`, and under "Findings".
- Parsing.FindComponent: parses the text before the component; the source keeps it as one literal (`Parsing.FindComponentAsWritten`).
- Parsing.FindForeignKey: an argument object that no `}` closes is `UnexpectedToken`, where the source cuts it after its first character or panics.
- Parsing.ParseForeignKeyArgs: an argument object that no `}` closes is `UnexpectedToken`. The source cuts it after its first character, giving `InvalidForeignKeyArgs` for `$t(k,x)`, and panics on an empty or non-ASCII start (`Parsing.SplitArgsAsWritten`).
- Parsing.ParseForeignKeyArgsOutcome: describes the corrected `Parsing.ParseForeignKeyArgs`.
- Parsing.NewRegistersForeignKeys: is proved of the corrected parser only. Whether the written one keeps the property is not shown.
- Parsing.FindComponentRegisters: is proved of the corrected component search only.
- Locales.AddMember: reports `ConflictingPluralRuleType` where the source's `insert` silently replaces a member of the same form. It does so also in a group without `other`, which the source would otherwise keep as plain keys. Keeping both keys there would need groups keyed by rule type and form, which this model does not have. The written behaviour is `Locales.AddMemberAsWritten`.
- Locales.AddMemberKeeps: holds of the corrected `Locales.AddMember` only. As written, a second member of the same form replaces the first (`Locales.AddMemberAsWrittenDrops`).
- Locales.Classify: records plural members with the corrected `Locales.AddMember`, so a repeated form is an error here and a silent replacement in the source.
- Locales.ClassifyKeys: the loop form of `Locales.Classify`, with the same correction.
- Locales.MergeValue: classifies with the corrected `Locales.AddMember`.
- Locales.MergePluralsOf: classifies with the corrected `Locales.AddMember`.
- Locales.MergePlurals: classifies with the corrected `Locales.AddMember`.
- Routing.NewPathPushes: removes the previous locale as a whole first segment, after any leading `/`. The source strips it as a text prefix. That cuts `/english` to `/glish`, and under a base path that does not end in `/` it never removes a locale written as its own segment after the base path (`/foo/de/bar` under `/foo`). The written behaviour is `Routing.NewPathPushesAsWritten`.
- Routing.NewPath: built on the corrected `Routing.NewPathPushes`.
- Routing.NewPathname: built on the corrected `Routing.NewPathPushes`.
- Routing.GetNewPath: built on the corrected `Routing.NewPathPushes`.

## Findings

| source | as written | input that shows it | evidently intended | confidence | as-written member | corrected member |
|---|---|---|---|---|---|---|
| leptos_i18n_macro/src/load_locales/plural.rs:40-43 | an exclusive end reads `checked_sub(1)`, and the `None` it gives at `i64::MIN` becomes "no end" | `"0..-9223372036854775808"` accepts every count from 0 on | an empty range is rejected, as the parser crate does with `InvalidBoundEnd` | not executed | MacroPlural.ExclusiveEndAtMinimum | MacroPlural.ExclusiveTextChecked |
| leptos_i18n_router/src/routing.rs:177-181 | the previous locale is removed with a textual `strip_prefix`, without checking that a segment ends there | `/english` with default locale `en`, switching to `fr`, navigates to `/fr/glish` | only a whole leading segment equal to the locale is removed, giving `/fr/english` | not executed | Routing.RootBaseCutsSegment | Routing.RootBaseKeepsSegment |
| leptos_i18n_parser/src/parse_locales/parsed_value.rs:303 | when no `}` closes the argument object, the split index stays 0 and `split_at(1)` runs anyway | a translation ending in `$t(key,` leaves an empty argument text, and `split_at(1)` panics; so does an unclosed object whose first character is not ASCII | an unclosed argument object is reported as a malformed foreign key (`UnexpectedToken`) | not executed | Parsing.SplitArgsAsWrittenPanics | Parsing.SplitArgs |
| leptos_i18n_parser/src/parse_locales/parsed_value.rs:494-502 | the text before a component is kept as a literal without being parsed | `{{ a }} <b>x</b>` loses the variable `a` | the text before a component is parsed like the text after it | not executed | Parsing.FindComponentBeforeVariable | Parsing.FindComponent |
| leptos_i18n_parser/src/parse_locales/locale.rs:486-488 | plural members are grouped by form with `insert`, so a cardinal and an ordinal member of the same form overwrite each other | keys `b_one` and `b_ordinal_one` leave only `b_ordinal_one`, and `b_one` is lost silently | no key is lost silently. The model reports a form recorded twice for one base as `ConflictingPluralRuleType`, even in a group without `other`, because its groups hold one member per form. Cardinal and ordinal members of different forms (`b_one` with `b_ordinal_two`) are still kept as plain keys without `other`, as the source does | not executed | Locales.CardinalAndOrdinalCollide | Locales.AddMember |
| leptos_i18n_router/src/routing.rs:174-182 | under a base path that does not end in `/`, the rest of a path `base/locale/...` keeps its leading `/`, so stripping the locale as a prefix never succeeds | switching from `de` to `fr` on `/foo/de/bar` under the base path `/foo` pushes `/foo`, `fr`, `/de/bar`, so `de` stays in the new path | the previous locale is removed whatever the base path; the comment at line 181 expects it to stay only for the default locale; the pushes are `/foo`, `fr`, `/bar` | not executed | Routing.NamedBaseKeepsLocale | Routing.NamedBaseDropsLocale |
