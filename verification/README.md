# claude-unleashed patch engine, in Dafny

claude-unleashed is a wrapper around the Claude CLI that rewrites the
CLI's minified JavaScript bundle before running it. This project models
three parts of it:

- the patch engine, `applyPatches`;
- the seven patches of its ordered registry;
- the command-line preparation that runs before the wrapped CLI starts.

The project also proves properties of each.

- **Patch descriptors** (`PatchBase`). A descriptor is built from a
  record. A hook the record does not supply falls back to the base class:
  a default `canApply`/`apply` throws an error naming the patch, and the
  default `verify` holds exactly when the text changed.
- **Text and pattern operations** (`Text`, `Regex`, `Json`). These are
  the JavaScript operations the patches use: `indexOf`, `lastIndexOf`,
  `includes`, `slice`, `trim`, `replace` with a string, `RegExp.test`,
  `String.match` with a capture group, global `replace`, and
  `JSON.stringify`/`JSON.parse` on arrays of strings.
  - Every regular expression of the patches is a sequence of literals and
    greedy character-class runs. In each one a run is followed by a
    literal that starts outside the run's class.
  - For such patterns a possessive matcher finds the longest match, the
    one JavaScript's backtracking finds. `MatchLenSound` and
    `MatchLenGreedy` prove this against a relational definition of the
    pattern's language.
  - The global replace is proved equal to the `lastIndex` loop of the
    ECMAScript algorithm.
- **The seven patches.** These are `is-docker`, `internet-access`,
  `root-check`, `punycode`, `plan-autoaccept`, `loading-messages` and
  `auto-updater`. Each patch's `canApply` is characterised, and the lemmas
  say when its `apply` changes the bundle and what it writes.
  - `is-docker` and `internet-access` are the same rewrite of an accessor
    by a constant (`Accessor`), stated once and instantiated with each
    patch's name and constant.
  - For the required patches, `apply` changes the text exactly when
    `canApply` holds. So a required patch never fails `verify` after
    passing its pre-check. `PatchEffective` states this of each patch's
    descriptor except plan-autoaccept's, and `RegistryRun` uses it: a run
    of the registry fails only with "pattern not found".
  - The `root-check` and `punycode` loops over their pattern lists are
    methods, proved equal to a fold of the rules.
- **The engine** (`Patcher`). `RunPatches` is the loop over the registry,
  proved equal to the fold `RunAll`. The following are proved about
  `RunAll`:
  - the report has one entry per patch, in order;
  - failures are exactly the report's FAILED entries;
  - only required patches fail, and only optional ones are skipped;
  - the patched text is the OK patches applied in order.

  `ApplyPatches` runs against a `FileSystem` object, whose map of files it
  updates through `WriteFile` and `Rename`; the object also keeps a log of
  the changes in the order they were made. `ApplyPatches` is proved to
  produce `Expected`, both the files and the log:
  - it skips all work when the cached hash matches;
  - it throws the fatal error when a required patch failed;
  - otherwise it writes the bundle to a temporary file, renames that file
    onto the patched path, and only then writes the hash.

  Further lemmas show that only the patched bundle and the hash file
  change, and that a second run on the same original is served from the
  cache.
- **argv** (`Argv`). `parseArgs`, and the two preparations of
  `process.argv` on a `Process` object whose `argv` they replace. The
  lemmas show:
  - the wrapper's flags are removed and every other argument is kept, in
    order;
  - YOLO preparation adds `--dangerously-skip-permissions` once, only when
    it is missing;
  - both preparations are idempotent;
  - parsing afterwards sees only the environment.

The `auto-updater` splice is stated exactly (`ApplySplice`). When the
look-back finds an `if(_6(` that does not end right at the match, the up
to five characters between the two are dropped from the result. This
follows from `source.slice(ifStart + fullOld.length)` in the source, and
the model keeps it.

## Model

| member | source | states |
|---|---|---|
| Text.IndexOfFrom | lib/patches/auto-updater.patch.js:33 | `indexOf` from an index: -1 exactly when no occurrence starts there or later, else the first such occurrence |
| Text.IndexOf | lib/patches/plan-autoaccept.patch.js:48 | `indexOf`: -1 exactly when the text does not occur, else the index of its first occurrence |
| Text.ContainsWitness | lib/patches/auto-updater.patch.js:25 | `includes` holds whenever some occurrence exists, and the first occurrence is at or before it |
| Text.LastIndexAtOrBefore | lib/patches/auto-updater.patch.js:38 | the last occurrence starting at or before a position, or -1 when there is none |
| Text.LastIndexOf | lib/patches/plan-autoaccept.patch.js:93 | `lastIndexOf(p, from)`: an occurrence at or before `from` with none after it up to `from`, or -1 |
| Text.ReplaceFirst | lib/patches/auto-updater.patch.js:41 | `replace` with a string: unchanged without an occurrence, else only the first occurrence is replaced and the text around it is kept |
| Text.ReplaceFirstFrom | lib/patches/loading-messages.patch.js:28 | from the first occurrence on, the result is the replacement followed by what followed the occurrence |
| Text.ReplaceAppends | lib/patches/plan-autoaccept.patch.js:38 | replacing the first `p` by `p + x` inserts `x` right after that occurrence |
| Text.Slice | lib/patches/plan-autoaccept.patch.js:53 | `slice` with indices clamped to the text: within bounds it is the sub-sequence |
| Text.TrimStart | lib/patcher.js:19 | removes exactly the leading white space |
| Text.TrimEnd | lib/patcher.js:19 | removes exactly the trailing white space |
| Text.TrimFixed | lib/patcher.js:19 | a text without surrounding white space (a hex digest) is its own trim |
| Json.HexRoundTrip | lib/patches/loading-messages.patch.js:24 | a hex digit written by `stringify` reads back as its value |
| Json.Hex4Control | lib/patches/loading-messages.patch.js:24 | the `\u00XX` escape of a control character reads back as that character |
| Json.ShortRoundTrip | lib/patches/loading-messages.patch.js:24 | each two-character escape reads back as the character it stands for |
| Json.ReadString | lib/patches/loading-messages.patch.js:24 | reading a string body consumes at least its closing quote |
| Json.ReadEscape | lib/patches/loading-messages.patch.js:24-28 | parsing undoes `stringify` on every string and stops right after the closing quote |
| Json.ReadItemsBack | lib/patches/loading-messages.patch.js:24-28 | the items of every non-empty array of strings read back, stopping after `]` |
| Json.ReadArrayBack | lib/patches/loading-messages.patch.js:24-28 | `JSON.parse(JSON.stringify(xs))` is `xs` for every array of strings |
| Json.EscapeAvoids | lib/patches/loading-messages.patch.js:28 | `stringify` adds only backslashes, quotes, lower-case ASCII letters and digits, so no other character missing from a string appears in its escape |
| Json.ItemsAvoid | lib/patches/loading-messages.patch.js:28 | such a character missing from every item is missing from the written items and their separators |
| Json.EscapeLength | lib/patches/loading-messages.patch.js:28 | escaping never shortens a string |
| Json.ArrayLonger | lib/patches/loading-messages.patch.js:28 | an array whose items are each written longer is written longer |
| Json.ReplaceByArray | lib/patches/loading-messages.patch.js:28 | after replacing the first occurrence by an array, the text from there parses as that array followed by the old remainder |
| Regex.RunLen | lib/patches/root-check.patch.js:4 | a greedy run is within its bound, of its class, and stops only at a character outside it or at the bound |
| Regex.AtomLen | lib/patches/is-docker.patch.js:6 | what one atom consumes is in that atom's language |
| Regex.MatchLen | lib/patches/is-docker.patch.js:6-7 | a reported match is at least the pattern's minimum length and lies inside the text |
| Regex.MatchLenSound | lib/patches/is-docker.patch.js:6-7 | the matcher's match is in the pattern's language |
| Regex.GreedyHead | lib/patches/root-check.patch.js:4-8 | in a separated pattern, the head atom of the matcher covers the head of any match |
| Regex.MatchLenGreedy | lib/patches/is-docker.patch.js:6-7 | for a separated pattern the matcher finds a match whenever one exists, and the longest |
| Regex.PatternMatcher | lib/patches/is-docker.patch.js:20 | the matcher of a pattern is `MatchLen` at every position |
| Regex.ReplaceAll | lib/patches/is-docker.patch.js:20 | `replace` with a global regular expression; `ReplaceAllAtFirstMatch`, `ReplaceAllIdentity` and `NumMatchesPositive` state what it keeps and replaces, and `EcmaReplaceAgrees` ties it to `EcmaReplace` |
| Regex.EcmaReplace | lib/patches/is-docker.patch.js:20 | the `exec`/`lastIndex` loop of the ECMAScript global replace, the independent definition `EcmaReplaceAgrees` proves equal to `ReplaceAll` |
| Regex.FirstMatch | lib/patches/plan-autoaccept.patch.js:57 | `exec` from `lastIndex`: the leftmost non-empty match at or after it, or none at any index |
| Regex.MatchFound | lib/patches/is-docker.patch.js:15 | any match of a separated pattern at an index is seen by the matcher there |
| Regex.MatchReported | lib/patches/is-docker.patch.js:15 | what the matcher reports at an index is a match there |
| Regex.TestIffMatch | lib/patches/is-docker.patch.js:15 | `test` holds exactly when some substring is in the pattern's language |
| Regex.Capture | lib/patches/plan-autoaccept.patch.js:57-62 | `match(...)[1]`: present exactly when `test` holds; the group is within the run's bounds and of its class |
| Regex.CaptureFollowedBy | lib/patches/plan-autoaccept.patch.js:57-62 | the captured word is followed by the pattern's literal at the leftmost match |
| Regex.ReplaceAtCopy | lib/patches/is-docker.patch.js:20 | the global replace copies a character at which nothing matches |
| Regex.ReplaceAtMatch | lib/patches/is-docker.patch.js:20 | the global replace writes the replacement for a match and resumes after it |
| Regex.ReplaceAtSkip | lib/patches/is-docker.patch.js:20 | text before the next match is copied unchanged |
| Regex.ReplaceAllAtFirstMatch | lib/patches/is-docker.patch.js:20 | the text before the first match is kept, the match becomes the replacement, and the scan resumes after it |
| Regex.EcmaReplaceAgrees | lib/patches/is-docker.patch.js:20 | the scanning replace equals the ECMAScript `exec`/`lastIndex` loop |
| Regex.NumMatchesPositive | lib/patches/is-docker.patch.js:20 | the global replace replaces something exactly when `test` holds |
| Regex.ReplaceAllIdentity | lib/patches/is-docker.patch.js:20 | a text without a match is returned unchanged |
| Regex.MatchHas | lib/patches/root-check.patch.js:4-8 | a match of a pattern with a literal holding `c` contains `c` |
| Regex.MatchAvoids | lib/patches/is-docker.patch.js:7 | a match of a pattern none of whose atoms can match `c` contains no `c` |
| Regex.CountDown | lib/patches/root-check.patch.js:23 | a replacement without `c` never raises the count of `c` |
| Regex.CountDownHave | lib/patches/root-check.patch.js:23 | when every match holds a `c`, each replaced match lowers the count of `c` |
| Regex.CountUp | lib/patches/is-docker.patch.js:21 | when no match holds a `c` and the replacement does, each replaced match raises the count of `c` |
| Regex.LengthReplaceAt | lib/patches/punycode.patch.js:22 | replacing fixed-length matches by a longer text adds a character per match |
| Regex.RuleIdentity | lib/patches/root-check.patch.js:23 | a rule that does not match leaves the text unchanged |
| Regex.RuleCountDown | lib/patches/root-check.patch.js:23 | a rule removing `c` never adds one, and strictly lowers its count when it matches |
| Regex.RuleCountUp | lib/patches/is-docker.patch.js:21 | a rule adding `c` never lowers its count, and strictly raises it when it matches |
| Regex.RemoveThenAdd | lib/patches/is-docker.patch.js:18-23 | two replacements in turn (one removing `c1`, one adding `c2` and no `c1`) change the text exactly when either pattern occurs |
| Regex.RuleLengthens | lib/patches/punycode.patch.js:22 | a literal rule with a longer replacement never shortens, and lengthens when it matches |
| Regex.ReplaceEachStep | lib/patches/root-check.patch.js:22-24 | one more loop iteration applies one more rule to the previous result |
| Regex.AnyOccursSome | lib/patches/root-check.patch.js:17 | `PATTERNS.some(p => p.test(s))` holds exactly when some rule matches |
| Regex.ReplaceEachIdentity | lib/patches/root-check.patch.js:20-26 | rules none of which match leave the text unchanged |
| Regex.ReplaceEachRemoves | lib/patches/root-check.patch.js:20-26 | rules each removing `c` lower its count, strictly when some pattern occurs |
| Regex.ReplaceEachLengthens | lib/patches/punycode.patch.js:19-25 | literal rules with longer replacements never shorten, and lengthen when some pattern occurs |
| PatchBase.NewPatch | lib/patches/patch-base.js:2-7 | the descriptor takes the record's id, description and hooks; `required` is true only when given as true |
| PatchBase.RequiredDefault | lib/patches/patch-base.js:2 | a descriptor built without `required` is optional |
| PatchBase.CanApply | lib/patches/patch-base.js:10-12 | the default throws `<id>: canApply() not implemented`; a supplied hook answers |
| PatchBase.Apply | lib/patches/patch-base.js:15-17 | the default throws `<id>: apply() not implemented`; a supplied hook answers |
| PatchBase.DefaultVerify | lib/patches/patch-base.js:20-22 | the default `verify` holds exactly when the text changed |
| PatchBase.Verify | lib/patches/patch-base.js:20-22 | `verify` calls the supplied hook, else the default; `DefaultVerify` states the default holds exactly when the text changed |
| Accessor.CallPattern | lib/patches/is-docker.patch.js:6 | `[a-zA-Z0-9_]*\.name\(\)` for an accessor name; `PatternsSeparated` and `CallRemoves` state its shape |
| Accessor.PropPattern | lib/patches/is-docker.patch.js:7 | `name:\w+` for an accessor name; `PatternsSeparated` and `PropAdds` state its shape |
| Accessor.PatternsSeparated | lib/patches/is-docker.patch.js:6-7 | both patterns are separated (each run is followed by a literal starting outside its class) and never match the empty text |
| Accessor.CallRemoves | lib/patches/is-docker.patch.js:20 | for names without `.` or `(`, every call match holds a `.` and the constant holds none |
| Accessor.PropAdds | lib/patches/is-docker.patch.js:21 | no property match holds a `(`, the replacement `name:()=>value` holds one, and it holds no `.` |
| Accessor.CanApply | lib/patches/is-docker.patch.js:14-16 | `CALL_PATTERN.test(s) \|\| PROP_PATTERN.test(s)`; `CanApplyIff` characterises it |
| Accessor.Apply | lib/patches/is-docker.patch.js:18-23 | the call replace, then the property replace; `ApplyChangesIff` states when it changes the text |
| Accessor.CanApplyIff | lib/patches/is-docker.patch.js:14-16 | `canApply` holds exactly when some substring is a call or a property of the name |
| Accessor.ApplyChangesIff | lib/patches/is-docker.patch.js:18-23 | for names without `.` or `(`, `apply` changes the text exactly when `canApply` holds |
| IsDocker.Texts | lib/patches/is-docker.patch.js:6-7 | the two patterns and the two replacements are those of the source, with `getIsDocker` and `true` |
| IsDocker.NamesPlain | lib/patches/is-docker.patch.js:20-21 | `getIsDocker` and `true` hold neither `.` nor `(` |
| IsDocker.CanApply | lib/patches/is-docker.patch.js:14-16 | `canApply` over the two patterns; `CanApplyIff` characterises it |
| IsDocker.Apply | lib/patches/is-docker.patch.js:18-23 | `apply`: both global replaces, calls first; `ApplyChangesIff` states when it changes the text |
| IsDocker.CanApplyIff | lib/patches/is-docker.patch.js:14-16 | `canApply` holds exactly when a call or a property occurs |
| IsDocker.ApplyChangesIff | lib/patches/is-docker.patch.js:18-23 | `apply` changes the text exactly when `canApply` holds |
| IsDocker.PatchEffective | lib/patches/is-docker.patch.js:9-24 | the descriptor supplies both hooks, keeps the default `verify`, and its `apply` changes every text its `canApply` accepts |
| InternetAccess.Texts | lib/patches/internet-access.patch.js:6-7 | the two patterns and the two replacements are those of the source, with `hasInternetAccess` and `false` |
| InternetAccess.NamesPlain | lib/patches/internet-access.patch.js:20-21 | `hasInternetAccess` and `false` hold neither `.` nor `(` |
| InternetAccess.CanApply | lib/patches/internet-access.patch.js:14-16 | `canApply` over the two patterns; `CanApplyIff` characterises it |
| InternetAccess.Apply | lib/patches/internet-access.patch.js:18-23 | `apply`: both global replaces, calls first; `ApplyChangesIff` states when it changes the text |
| InternetAccess.CanApplyIff | lib/patches/internet-access.patch.js:14-16 | `canApply` holds exactly when a call or a property occurs |
| InternetAccess.ApplyChangesIff | lib/patches/internet-access.patch.js:18-23 | `apply` changes the text exactly when `canApply` holds |
| InternetAccess.PatchEffective | lib/patches/internet-access.patch.js:9-24 | the descriptor supplies both hooks, keeps the default `verify`, and its `apply` changes every text its `canApply` accepts |
| RootCheck.AnyGetuidFit | lib/patches/root-check.patch.js:6 | `(\w+)\.getuid\(\)\s*===\s*0` is separated, never empty, and always holds an `=` |
| RootCheck.PatternsFit | lib/patches/root-check.patch.js:3-9 | each of the five patterns is separated, never empty, and always holds an `=` |
| RootCheck.RulesFacts | lib/patches/root-check.patch.js:22-24 | rule `k` replaces pattern `k` by `false`, and each removes an `=` per match |
| RootCheck.Apply | lib/patches/root-check.patch.js:20-26 | the loop's result is the five replacements applied in list order |
| RootCheck.CanApplyIff | lib/patches/root-check.patch.js:16-18 | `canApply` holds exactly when one of the five patterns matches somewhere |
| RootCheck.RewriteChangesIff | lib/patches/root-check.patch.js:20-26 | `apply` changes the text exactly when `canApply` holds |
| RootCheck.Rewrite | lib/patches/root-check.patch.js:20-26 | the five rules applied in list order; `RewriteChangesIff` states it changes the text exactly when `canApply` holds |
| RootCheck.PatchEffective | lib/patches/root-check.patch.js:11-27 | the descriptor supplies both hooks, keeps the default `verify`, and its `apply` changes every text its `canApply` accepts |
| Punycode.LiteralRule | lib/patches/punycode.patch.js:5-7 | a one-literal rule with a longer replacement is separated and lengthens |
| Punycode.RulesFacts | lib/patches/punycode.patch.js:4-8 | each of the three forms is a literal replaced by a longer text |
| Punycode.Apply | lib/patches/punycode.patch.js:19-25 | the loop's result is the three replacements applied in list order |
| Punycode.CanApplyIff | lib/patches/punycode.patch.js:15-17 | `canApply` holds exactly when one of the three import forms occurs |
| Punycode.RewriteLengthens | lib/patches/punycode.patch.js:19-25 | `apply` never shortens, lengthens exactly when `canApply` holds, and is the identity otherwise |
| Punycode.Rewrite | lib/patches/punycode.patch.js:19-25 | the three rules applied in list order; `RewriteLengthens` states it lengthens exactly when `canApply` holds |
| Punycode.PatchEffective | lib/patches/punycode.patch.js:10-26 | the descriptor supplies both hooks, keeps the default `verify`, and its `apply` changes every text its `canApply` accepts |
| AutoUpdater.LookBackBefore | lib/patches/auto-updater.patch.js:38 | an `if(_6(` found by the look-back ends at or before the match |
| AutoUpdater.KeepAt | lib/patches/auto-updater.patch.js:36-39 | the end of the kept text is within five characters before the match |
| AutoUpdater.ReplaceShape | lib/patches/auto-updater.patch.js:41 | the fallback replacement is an insertion in front of the match |
| AutoUpdater.LookBackShape | lib/patches/auto-updater.patch.js:44-47 | the look-back splice keeps the text through the prefix, inserts, and resumes at the match |
| AutoUpdater.FallbackBranch | lib/patches/auto-updater.patch.js:39-42 | without a close `if(_6(`, only the match is replaced |
| AutoUpdater.LookBackBranch | lib/patches/auto-updater.patch.js:44-47 | with a close `if(_6(`, the text from it to the end of the match is replaced |
| AutoUpdater.SpliceShape | lib/patches/auto-updater.patch.js:33-47 | either branch keeps the text before `KeepAt`, inserts, and resumes at the first match |
| AutoUpdater.Inserted | lib/patches/auto-updater.patch.js:47 | the splice keeps the prefix, holds the insertion followed by the match, and has the expected length |
| AutoUpdater.Texts | lib/patches/auto-updater.patch.js:14-17 | the replacement is the guard, `if(_6(` and the original check, and `SEARCH` starts outside the prefix |
| AutoUpdater.Keep | lib/patches/auto-updater.patch.js:36-39 | where the kept text ends, within five characters before the match |
| AutoUpdater.ApplyIdentity | lib/patches/auto-updater.patch.js:33-34 | a bundle without the check comes back unchanged |
| AutoUpdater.ApplySplice | lib/patches/auto-updater.patch.js:28-48 | the result is the text before `Keep`, the guard, `if(_6(`, and the text from the first match on |
| AutoUpdater.ApplyGuards | lib/patches/auto-updater.patch.js:28-48 | the text before `Keep` is unchanged, the guard precedes the original check, and the bundle grows |
| AutoUpdater.Splice | lib/patches/auto-updater.patch.js:28-48 | the splice over its three texts; `SpliceShape`, `FallbackBranch` and `LookBackBranch` state its two branches |
| AutoUpdater.Apply | lib/patches/auto-updater.patch.js:28-48 | `apply`: the splice with the source's texts; `ApplyIdentity`, `ApplySplice` and `ApplyGuards` state its result |
| AutoUpdater.PatchEffective | lib/patches/auto-updater.patch.js:19-49 | the descriptor supplies both hooks, keeps the default `verify`, and its `apply` changes every text its `canApply` accepts |
| LoadingMessages.OriginalParses | lib/patches/loading-messages.patch.js:24 | `JSON.parse(ORIGINAL_ARRAY)` succeeds with the 56 words, so the `catch` is dead |
| LoadingMessages.SuffixMarked | lib/patches/loading-messages.patch.js:6-11 | every suffix starts with a space and an ANSI control sequence |
| LoadingMessages.EntriesMarked | lib/patches/loading-messages.patch.js:25-27 | one new entry per word: the word, then a space and a control sequence |
| LoadingMessages.EntriesLonger | lib/patches/loading-messages.patch.js:25-27 | each new entry is written longer than its word |
| LoadingMessages.ApplyWritesArray | lib/patches/loading-messages.patch.js:22-32 | the text before the array is kept, and from there the bundle parses as the new entries followed by the old remainder |
| LoadingMessages.ApplyChangesIff | lib/patches/loading-messages.patch.js:18-32 | `apply` changes the bundle exactly when `canApply` holds |
| LoadingMessages.Unleashed | lib/patches/loading-messages.patch.js:25-27 | each word followed by its drawn suffix; `EntriesMarked` and `EntriesLonger` state what each entry holds |
| LoadingMessages.Apply | lib/patches/loading-messages.patch.js:18-32 | the first occurrence of the array becomes the new array; `ApplyWritesArray` and `ApplyChangesIff` state the result |
| LoadingMessages.PatchEffective | lib/patches/loading-messages.patch.js:13-33 | for any palette and draws, the descriptor supplies both hooks, keeps the default `verify`, and its `apply` changes every text its `canApply` accepts |
| LoadingMessages.Patch | lib/patches/loading-messages.patch.js:13-16 | the descriptor has id `loading-messages` and is optional |
| PlanAutoaccept.Snippet | lib/patches/plan-autoaccept.patch.js:83 | the effect template is longer than the three names together, the bound `InjectGrows` relies on |
| PlanAutoaccept.UseEffectCapturing | lib/patches/plan-autoaccept.patch.js:57 | `(\w{1,3})\.useEffect\(` is a run then a literal, separated and never empty |
| PlanAutoaccept.PermContextCapturing | lib/patches/plan-autoaccept.patch.js:65 | `(\w+)\.toolPermissionContext` is a run then a literal, separated and never empty |
| PlanAutoaccept.SubmitCapturing | lib/patches/plan-autoaccept.patch.js:75 | the submit pattern is a run then a literal, separated and never empty |
| PlanAutoaccept.Captures | lib/patches/plan-autoaccept.patch.js:46-80 | names are found only when the anchor occurs |
| PlanAutoaccept.CapturesIff | lib/patches/plan-autoaccept.patch.js:46-80 | the three names are found exactly when the anchor occurs and each pattern matches in its region |
| PlanAutoaccept.SliceOccurs | lib/patches/plan-autoaccept.patch.js:53 | an occurrence in a slice is an occurrence in the bundle inside the slice's bounds |
| PlanAutoaccept.SliceNear | lib/patches/plan-autoaccept.patch.js:52-53 | an occurrence in a region lies within its window around the anchor |
| PlanAutoaccept.CaptureNear | lib/patches/plan-autoaccept.patch.js:57-75 | a captured name and its following literal occur near the anchor |
| PlanAutoaccept.CapturesSound | lib/patches/plan-autoaccept.patch.js:57-80 | the alias has 1-3 word characters and is used as `alias.useEffect(` within 2000 before to 500 after the anchor; the context object likewise; the submit function is called within 2000 either side |
| PlanAutoaccept.KnownInsert | lib/patches/plan-autoaccept.patch.js:87-89 | the effect goes right after the first known declaration, behind a `;` |
| PlanAutoaccept.LastSemicolon | lib/patches/plan-autoaccept.patch.js:93 | `lastIndexOf(';', anchor)` is a `;` with none between it and the anchor |
| PlanAutoaccept.InjectInserts | lib/patches/plan-autoaccept.patch.js:85-96 | the effect is inserted after the known declaration when it is present, else right after the last `;` before the anchor |
| PlanAutoaccept.InjectGrows | lib/patches/plan-autoaccept.patch.js:85-96 | the bundle grows by at least the effect |
| PlanAutoaccept.ApplyChangesIff | lib/patches/plan-autoaccept.patch.js:25-43 | `apply` changes the bundle exactly when a strategy succeeds; then `canApply` held and the bundle grew |
| PlanAutoaccept.Inject | lib/patches/plan-autoaccept.patch.js:85-96 | where the effect goes; `InjectInserts` and `InjectGrows` state the insertion |
| PlanAutoaccept.Semantic | lib/patches/plan-autoaccept.patch.js:46-99 | the semantic strategy: the names found, then the effect injected; `CapturesIff` and `CapturesSound` state when and what it finds |
| PlanAutoaccept.Apply | lib/patches/plan-autoaccept.patch.js:25-43 | the semantic strategy, then the known anchor, else the text unchanged; `ApplyChangesIff` states when it changes the bundle |
| Registry.IdsDistinct | lib/patches/index.js:10-18 | the seven patch ids are distinct |
| Registry.Shape | lib/patches/index.js:10-18 | the registry lists the seven patches in order; exactly the first three are required; each supplies its hooks and keeps the default `verify` |
| Registry.Patches | lib/patches/index.js:10-18 | the ordered registry; `Shape` and `IdsDistinct` state its order, its ids and which patches are required |
| Registry.Effects | lib/patches/index.js:10-18 | every patch except plan-autoaccept supplies its hooks, keeps the default `verify` and changes every text its `canApply` accepts |
| Registry.RegistryRun | lib/patcher.js:30-56 | a run of the registry never throws and reports the seven ids in order; only the three required patches fail, and only with "pattern not found"; only the others are skipped; "no effect" is reported only for plan-autoaccept |
| Patcher.Step | lib/patcher.js:30-56 | one iteration adds one entry, with the patch's id, after the earlier ones, and the text changes only when that entry is OK |
| Patcher.RunAll | lib/patcher.js:30-56 | the loop as a fold from the original text; `RunReport`, `RunFailures` and `RunText` state its report, failures and text |
| Patcher.RunPatches | lib/patcher.js:26-56 | the loop computes the fold `RunAll`, a thrown hook included |
| Patcher.RunNoThrow | lib/patcher.js:30-43 | a run whose patches supply their hooks completes; a missing `canApply` throws its error |
| Patcher.RunReport | lib/patcher.js:30-56 | one report entry per patch, in registry order, with the patch's id |
| Patcher.StepKeeps | lib/patcher.js:33-55 | one iteration adds one consistent entry and keeps the failures equal to what the report implies |
| Patcher.RunFailures | lib/patcher.js:30-56 | failures are exactly the FAILED entries in order, and every entry is consistent with its patch |
| Patcher.RunConsistent | lib/patcher.js:26-56 | a run from the original text completes with one consistent entry per patch and the implied failures |
| Patcher.Statuses | lib/patcher.js:47 | the statuses of the report, entry by entry |
| Patcher.RunText | lib/patcher.js:43-47 | every OK patch supplied `apply`, and the patched text is the OK patches applied in order |
| Patcher.FileSystem.ReadFile | lib/patcher.js:13 | a present file's contents, else the missing-file error |
| Patcher.FileSystem.WriteFile | lib/patcher.js:77 | the file now holds the content, nothing else changes, and the write is appended to the log of changes |
| Patcher.FileSystem.Rename | lib/patcher.js:78 | the content moves to the new path, the old path is gone, and the rename is appended to the log of changes |
| Patcher.FailureLines | lib/patcher.js:68 | one `  - id: reason` line per failure |
| Patcher.Expected | lib/patcher.js:12-85 | the outcome, the changes in order and the files after `applyPatches`; `WritesOnlyOnSuccess`, `FailuresAbort`, `ExpectedReplays` and `SecondRunCached` state them |
| Patcher.ApplyPatches | lib/patcher.js:12-85 | the outcome and the new files are `Expected` of the old files, and the log gains exactly `Expected`'s changes in order: on a run that writes, the temporary file, its rename onto the patched path, then the hash; nothing otherwise |
| Patcher.WritesPerform | lib/patcher.js:76-81 | the three changes made in order leave the patched text at the patched path, the hash beside it, and no temporary file |
| Patcher.ExpectedReplays | lib/patcher.js:12-85 | the changes `Expected` lists, made in order from the old files, give exactly its new files |
| Patcher.WritesOnlyOnSuccess | lib/patcher.js:66-81 | on a throw or a cache hit no file changes; otherwise the bundle and the hash are written, the temporary file is gone, and every other file is untouched |
| Patcher.FailuresAbort | lib/patcher.js:66-73 | the run writes exactly when no entry failed, and otherwise throws the fatal error listing every failure |
| Patcher.FailuresEmpty | lib/patcher.js:67 | there are no failures exactly when no report entry is FAILED |
| Patcher.SecondRunCached | lib/patcher.js:16-24 | after a run that wrote, running again on the same original is a cache hit that changes nothing |
| Argv.Process.PrepareYolo | lib/argv.js:22-32 | `argv` becomes the YOLO vector of the old one; the environment is unchanged |
| Argv.Process.PrepareSafe | lib/argv.js:34-39 | `argv` loses the wrapper's flags; the environment is unchanged |
| Argv.ParseArgs | lib/argv.js:3-20 | `parseArgs` over the environment and the vector; `ParseAfterPrepare` states what it sees after either preparation |
| Argv.Strip | lib/argv.js:35-38 | an argument is in the result exactly when it was in the vector and is not a wrapper flag |
| Argv.YoloArgv | lib/argv.js:22-32 | the result holds the skip-permissions flag, and otherwise exactly the vector's arguments that are not wrapper flags |
| Argv.StripCounts | lib/argv.js:28-31 | the filter drops every wrapper flag and keeps every other argument as often as it occurred |
| Argv.StripConcat | lib/argv.js:35-38 | filtering works piece by piece, keeping the order |
| Argv.StripIdempotent | lib/argv.js:35-38 | filtering twice is filtering once |
| Argv.YoloSplit | lib/argv.js:22-32 | the YOLO vector is the filtered vector, then the skip-permissions flag when it was missing |
| Argv.YoloFlag | lib/argv.js:23-26 | afterwards the skip-permissions flag is present: once if it was missing, as often as before otherwise |
| Argv.YoloIdempotent | lib/argv.js:22-32 | preparing for YOLO mode twice is preparing once |
| Argv.ParseAfterPrepare | lib/argv.js:3-20 | after either preparation, `parseArgs` sees only the environment and never safe mode |

## Left out

- The SHA-256 `fileHash` (lib/patcher.js:9-10) is the parameter `hash`. `SecondRunCached` assumes its outputs are lower-case hex digits.
- The file system is a map from paths to contents. File encodings, permissions and I/O errors other than a missing file are not modelled.
- A failing write or rename is not modelled, and neither is concurrent access.
- Renaming a missing file throws in Node; in the replay `Perform` it changes nothing. The engine only renames the file it has just written.
- The `debug` calls and the debug report loop (lib/patcher.js:58-64) only log, so they are left out.
- `FatalError` is modelled as the `Fatal(message, guidance)` outcome. `handleError` and `RecoverableError` (lib/errors.js) are outside the engine.
- lib/colors.js is not part of this model. The palette is a parameter; `SuffixMarked` and `EntriesMarked` assume each code starts with escape and `[`, and the other lemmas hold for any palette.
- `Math.random` is the parameter `pick`, which gives each word's suffix index.
- `ORIGINAL_ARRAY` is defined as `JSON.stringify` of the word list, so it is not a copy of the literal. `OriginalParses` shows that `JSON.parse` gives the list back.
- The `try`/`catch` in the loading-messages `apply` is left out, because that parse cannot fail.
- `KNOWN_PATCH` is defined as the semantic template applied to `k5`, `G` and `N`, which is the same text as the literal.
- `$` patterns in replacement strings are not interpreted. A replacement without `$` is inserted as it is by `replace`, so the model agrees with it wherever the replacement holds none. The plan-autoaccept replacements hold none: `\w` captures never hold one.
- LoadingMessages.Apply: the new array is inserted literally. `replace` does the same only when the array holds no `$`. The words are ASCII letters. `JSON.stringify` adds no `$` (`EscapeAvoids`, `ItemsAvoid`). So the model agrees with `replace` when the palette's colour codes hold no `$`; ANSI colour sequences hold none. That the palette holds none is assumed rather than proved, because lib/colors.js is not part of this model. Proving that the literal words hold no `$` is also left out, because the solver's cost for character membership over the 56 literals is too high.
- Strings are sequences of code points, not UTF-16 code units. Indices and lengths differ only outside the Basic Multilingual Plane.
- `JSON.parse` is modelled only for arrays of strings, which is all that is parsed here.
- Regular expressions are modelled only for the separated shape every pattern here has. Backtracking into other shapes is not modelled.
- The semantic strategy's result is tested for truthiness in the source. The model treats any string as a success, because it is never empty: `InjectGrows`.
- Argv.ParseArgs: only the property after preparation is proved (`ParseAfterPrepare`). Otherwise the function is the definition.
- The CLI entry point, updater, consent, mode and CLI resolution (bin/, lib/updater.js, lib/consent.js, lib/mode.js, lib/cli-resolver.js) are outside the patch engine.
