# valida, modelled in Dafny

valida builds validators for option objects. `createValidator` takes a spec (a
tree of `ow` predicates), optional defaults and an array-merge policy, and
returns a function that:

1. merges the defaults into the input;
2. walks the merged input beside the spec and rejects a key the spec does not
   declare: every level above the rejected object declares all its keys, the
   walk below each earlier spec key of those levels passes, and the rejected
   key is the first undeclared key of its object;
3. runs `ow`'s `partialShape` check;
4. returns the merged input.

On top of `ow`, valida decorates the `partialShape` and `exactShape`
predicates with a "did you mean …?" check. When a required key is missing and
an extraneous key is within Levenshtein distance 2 of it, validation fails
with ``Extraneous property `<extraneous>` in <label> may be a mistake. Did you
mean `<missing>`?``.

This project models that core in Dafny:

- `Lists`: Ramda's `difference`, which keeps the first list's order and drops
  duplicates.
- `EditDistance`: the recursive Levenshtein distance. The key suggester takes
  the distance from a library; here that library is taken to compute exactly
  this function.
- `SuggestKey`: the key suggester.
  - The nested scan of `levenshteinDistanceMatrix` is an imperative method,
    `ScanAll`, with its early `break`. It is proved against the function
    `Candidates`.
  - `R.sortBy` is a stable insertion sort, proved sorted, a permutation, and
    headed by the first minimum.
  - `DistanceMatrix` is proved to return a reached pair at distance
    1..maxDistance that is minimal and first on ties. It returns nothing
    exactly when every string of `stringsA` is in `stringsB` (the early
    return), even if a close pair exists, or when no reached pair is within
    `maxDistance`.
  - The function `SuggestKey` is proved to return a missing/extraneous pair
    at distance 1..2 that is minimal and first on ties. It returns nothing
    exactly when no missing key is within distance 2 of an extraneous key.
- `DecorateOw`:
  - the required keys of the `partialShape` and `exactShape` hooks;
  - the validator they add;
  - the failure message, with a proved parse-back;
  - the documented test scenarios, stated over arbitrary keys and then
    instantiated with the tests' own keys.
- `Valida`:
  - the recursive `validateKeys` walk over a JSON-like `Value` tree, as a
    method proved against the function `FirstUnexpected`;
  - the proof that the walk throws nothing exactly when every reached input
    object stays within its spec object;
  - where a thrown error points;
  - the `at path` fragment;
  - `defaultArrayMerge`;
  - the returned validator.
- `Utils`: `formatMessage`. Each line gets a closing period unless it ends
  in `:` or `.`. The model proves the line count, line-by-line content,
  termination of every line, and idempotence.

`closestMatrix` and `validateKeys` in `src/lib/decorate-ow.ts` are textual
copies of `levenshteinDistanceMatrix` and `suggestKey` in
`src/lib/suggest-key.ts`. They are modelled once, by the `SuggestKey` members,
and the rows below cite both copies where it matters.

## Model

| member | source | states |
|---|---|---|
| Lists.IndexOf | src/lib/suggest-key.ts:23-24 | the position of the first occurrence of a key, or the length when the key is absent; nothing before it is that key |
| Lists.Difference | src/lib/suggest-key.ts:50 | `R.difference(a, b)`: exactly the elements of `a` not in `b`, without duplicates, in order of first occurrence in `a`, and no longer than `a` |
| Lists.DifferenceOrder | src/lib/suggest-key.ts:58 | two elements of a difference come in the same relative order as in the first list |
| EditDistance.Distance | src/lib/suggest-key.ts:27 | definition: Levenshtein distance by the first characters of both strings (delete, insert, or substitute at cost 0 for equal heads and 1 otherwise); its properties are the lemmas below |
| EditDistance.DistanceBounds | src/lib/suggest-key.ts:27 | the distance lies between the length difference and the longer length, and is zero exactly for equal strings |
| EditDistance.DistanceCommonPrefix | src/lib/suggest-key.ts:27 | a shared prefix never increases the distance |
| EditDistance.DistanceAppendOne | src/lib/suggest-key.ts:27 | a string and itself plus one character are at distance exactly 1 |
| EditDistance.DistanceDropHead | src/lib/suggest-key.ts:27 | dropping a leading character costs at most one edit |
| EditDistance.DistanceDisjointAlphabets | src/lib/suggest-key.ts:27 | strings with no common character are as far apart as the longer one is long |
| SuggestKey.Scan | src/lib/suggest-key.ts:21-31 | definition: the matches one inner pass pushes, those within `maxDistance` in `stringsB` order; `ScanSound` and `ScanComplete` state what they are |
| SuggestKey.Candidates | src/lib/suggest-key.ts:20-33 | definition: all outer passes' rows in `stringsA` order, each inner pass cut at the outer string's first occurrence (the `break`); `CandidatesSound`, `CandidatesComplete` and `CandidatesOrdered` state what it holds |
| SuggestKey.ScanSound | src/lib/suggest-key.ts:21-31 | every match the inner loop pushes pairs its string with one of `stringsB`, at their distance, within `maxDistance` |
| SuggestKey.CandidatesSound | src/lib/suggest-key.ts:20-33 | every pushed match pairs a string of `stringsA` with a string before that string's own first occurrence in `stringsB` (the `break`), at a distance in 1..maxDistance |
| SuggestKey.ScanSnoc | src/lib/suggest-key.ts:27-31 | one more inner step appends that pair's match, if it is within `maxDistance`, to the row |
| SuggestKey.CandidatesSnoc | src/lib/suggest-key.ts:20-33 | one more outer pass appends its row to the results |
| SuggestKey.ScanAll | src/lib/suggest-key.ts:18-33 | the nested loops with their early `break` push exactly `Candidates(stringsA, stringsB, maxDistance)` |
| SuggestKey.Scanned | src/lib/suggest-key.ts:20-25 | definition: the pairs the loops reach, those before the outer string's first occurrence in `stringsB` |
| SuggestKey.ScanComplete | src/lib/suggest-key.ts:21-31 | every pair of one inner pass within `maxDistance` is in its row |
| SuggestKey.CandidatesComplete | src/lib/suggest-key.ts:20-33 | every pair the loops reach that is within `maxDistance` is pushed |
| SuggestKey.ScanOrdered | src/lib/suggest-key.ts:21-31 | with no duplicate keys, one inner pass pushes its matches in `stringsB` order |
| SuggestKey.CandidatesOrdered | src/lib/suggest-key.ts:20-33 | with no duplicate keys, matches are pushed in scan order: outer index first, inner index second |
| SuggestKey.Insert | src/lib/suggest-key.ts:35 | definition: one step of the stable sort, placing a match before the first one that is not closer; `InsertPermutes` and `InsertSorted` are its properties |
| SuggestKey.SortByDistance | src/lib/suggest-key.ts:35 | definition: `R.sortBy(prop('distance'))` as a stable insertion sort; `SortByDistancePermutes`, `SortByDistanceSorted` and `SortByDistanceHead` are its properties |
| SuggestKey.InsertSorted | src/lib/suggest-key.ts:35 | inserting into a list sorted by distance keeps it sorted |
| SuggestKey.InsertPermutes | src/lib/suggest-key.ts:35 | one insertion step of the stable sort adds exactly the inserted match |
| SuggestKey.SortByDistancePermutes | src/lib/suggest-key.ts:35 | `R.sortBy(prop('distance'))` returns a permutation of its input |
| SuggestKey.SortByDistanceSorted | src/lib/suggest-key.ts:35 | the sorted list is ordered by distance |
| SuggestKey.FirstMinimum | src/lib/suggest-key.ts:35-36 | the first index of least distance: no element is closer, and every earlier one is further |
| SuggestKey.SortByDistanceHead | src/lib/suggest-key.ts:35-36 | the sort is stable, so its head is the first element of least distance |
| SuggestKey.First | src/lib/suggest-key.ts:36 | `const [closestResult] = sortedResults`: nothing exactly for an empty list, else the head |
| SuggestKey.ClosestMatch | src/lib/suggest-key.ts:13-38 | definition: nothing when `stringsA` has no string outside `stringsB`, else the head of the stably sorted candidates; characterized by the `ClosestMatch*` lemmas |
| SuggestKey.DistanceMatrix | src/lib/suggest-key.ts:13-38 | `levenshteinDistanceMatrix` returns `ClosestMatch`: nothing when `stringsA` has no string outside `stringsB`, else the head of the stably sorted matches |
| SuggestKey.ClosestMatchSound | src/lib/decorate-ow.ts:9-34 | a returned match pairs a string of `stringsA` with a string the scan reaches, at a distance in 1..maxDistance |
| SuggestKey.ClosestMatchNone | src/lib/suggest-key.ts:14-16 | nothing is returned exactly when every string of `stringsA` is in `stringsB`, or no reached pair is within `maxDistance` |
| SuggestKey.ClosestMatchMinimal | src/lib/suggest-key.ts:35-37 | the returned match is at least as close as every pair the scan reaches |
| SuggestKey.ClosestMatchFirstOnTies | src/lib/suggest-key.ts:35-37 | every reached pair that comes earlier in the scan is strictly further apart than the returned one |
| SuggestKey.CandidatesEarlierPair | src/lib/suggest-key.ts:20-33 | a pair reached before the pair of a pushed match was pushed at an earlier position, with its own distance |
| SuggestKey.ScanOrderPosition | src/lib/suggest-key.ts:20-33 | in a list in scan order, a match whose pair comes earlier sits at an earlier position |
| SuggestKey.SuggestKey | src/lib/suggest-key.ts:47-73 | a suggestion names a key that is valid and absent from the test keys, and a key that is present and not valid, at a distance in 1..2 |
| SuggestKey.Mismatch | src/lib/suggest-key.ts:50-58 | definition: a key that is valid and absent from the test keys, paired with a key that is present and not valid |
| SuggestKey.SuggestKeyIsClosestMatch | src/lib/suggest-key.ts:60-72 | a suggestion is the pair the scan returns for the missing and extraneous keys |
| SuggestKey.MismatchScanned | src/lib/suggest-key.ts:50-60 | missing and extraneous keys are disjoint, so the scan pairs every missing key with every extraneous key |
| SuggestKey.SuggestKeyFindsPair | src/lib/suggest-key.ts:60-66 | a missing key within distance 2 of an extraneous key always yields a suggestion |
| SuggestKey.SuggestKeyNoSuggestionIff | src/lib/suggest-key.ts:50-66 | `true` is returned exactly when no missing key is within distance 2 of an extraneous key, which includes the case of nothing missing |
| SuggestKey.SuggestKeyMinimal | src/lib/suggest-key.ts:60-72 | the suggested pair is at least as close as every missing/extraneous pair |
| SuggestKey.SuggestKeyFirstOnTies | src/lib/suggest-key.ts:60-72 | among equally close pairs, the suggestion's missing key comes first among the valid keys, and for that key its extraneous key comes first among the test keys |
| SuggestKey.SuggestKeySinglePair | src/lib/suggest-key.ts:47-73 | when exactly one missing/extraneous pair is within distance 2, that pair is the suggestion |
| DecorateOw.KeepRequired | src/lib/decorate-ow.ts:122-123 | definition: the reducer, which appends a field's key unless the field is optional |
| DecorateOw.ReduceRequired | src/lib/decorate-ow.ts:121-124 | definition: `R.reduce` as a left fold of the reducer over the shape's fields; `ReduceRequiredAppends` states its result |
| DecorateOw.PartialShapeRequiredKeys | src/lib/decorate-ow.ts:121-124 | definition: the fold from the empty list; `PartialShapeRequiredKeysSpec` states that it is exactly the non-optional keys in order |
| DecorateOw.ExactShapeRequiredKeys | src/lib/decorate-ow.ts:142 | definition: `R.keys(shape)`, all keys including optional ones; `PartialWithinExact` relates it to `partialShape` |
| DecorateOw.ShapeKeys | src/lib/decorate-ow.ts:142 | `R.keys(shape)`: one key per field, in shape order |
| DecorateOw.NonOptionalKeys | src/lib/decorate-ow.ts:121-124 | reference definition: a key is listed exactly when some field with that key is not optional |
| DecorateOw.ReduceRequiredAppends | src/lib/decorate-ow.ts:121-124 | the `R.reduce` over the shape's pairs appends the non-optional keys, in order, to its start value |
| DecorateOw.PartialShapeRequiredKeysSpec | src/lib/decorate-ow.ts:121-124 | `partialShape` requires exactly the keys of the fields not marked optional, in shape order |
| DecorateOw.PartialWithinExact | src/lib/decorate-ow.ts:142 | every key `partialShape` requires, `exactShape` requires too; with no optional field the lists are equal |
| DecorateOw.AllRequired | src/lib/decorate-ow.ts:142 | with no optional field, the non-optional keys are all the keys |
| DecorateOw.SuggestionMessage | src/lib/decorate-ow.ts:133 | definition: the hooks' failure message with the extraneous key, the label and the missing key in place; `SuggestionMessageRoundTrip` and `SuggestionMessageInjective` state that it determines them |
| DecorateOw.ParseMessage | src/lib/decorate-ow.ts:133 | definition: the reader used to state the round trip, taking the first and last backticks as the key boundaries |
| DecorateOw.ParseSuggestionMessage | src/lib/decorate-ow.ts:150 | definition: `ParseMessage` with the hooks' fixed message parts |
| DecorateOw.Between | src/lib/decorate-ow.ts:133 | a found middle text, put back between the prefix and the suffix, rebuilds the message |
| DecorateOw.BetweenRoundTrip | src/lib/decorate-ow.ts:133 | the middle of `prefix + x + suffix` is found and is `x` |
| DecorateOw.TrailingPlain | src/lib/decorate-ow.ts:133 | the trailing text after the last backtick is never longer than the message |
| DecorateOw.TrailingPlainAfterBacktick | src/lib/decorate-ow.ts:133 | the text after the last backtick is exactly the backtick-free tail |
| DecorateOw.KeysPositions | src/lib/decorate-ow.ts:133 | in a message body the first backtick ends the extraneous key and the last one starts the missing key |
| DecorateOw.MessageTemplateRoundTrip | src/lib/decorate-ow.ts:133 | a message built from the template reads back into its label and keys, when the keys hold no backtick |
| DecorateOw.SuggestionMessageRoundTrip | src/lib/decorate-ow.ts:133 | ``Extraneous property `e` in label may be a mistake. Did you mean `m`?`` reads back into (label, m, e); the label may itself hold backticks |
| DecorateOw.SuggestionMessageInjective | src/lib/decorate-ow.ts:150 | different key pairs give different messages for the same label |
| DecorateOw.HookResult | src/lib/decorate-ow.ts:127-135 | a failing validator names a missing/extraneous pair at distance 1..2 in the hook's message |
| DecorateOw.HookResultPasses | src/lib/decorate-ow.ts:43-70 | the added validator passes exactly when no missing key is within distance 2 of an extraneous key |
| DecorateOw.HookResultSinglePair | src/lib/decorate-ow.ts:43-70 | a single missing/extraneous pair within distance 2 makes the validator fail with the message naming that pair |
| DecorateOw.PartialShapeHook | src/lib/decorate-ow.ts:127-135 | definition: the `partialShape` validator, `HookResult` on its required keys; characterized by the lemmas below |
| DecorateOw.ExactShapeHook | src/lib/decorate-ow.ts:144-152 | definition: the `exactShape` validator, `HookResult` on all shape keys; characterized by the lemmas below |
| DecorateOw.PartialShapeHookPassesWhenRequiredPresent | src/lib/decorate-ow.ts:47-51 | with every non-optional key present, the `partialShape` validator passes whatever else is missing or extra |
| DecorateOw.ExactShapeHookPassesWhenAllPresent | src/valida.spec.ts:146-153 | with every shape key present, the `exactShape` validator passes, leaving an extra key to the library's own check |
| DecorateOw.ShapeKeysOfTwo | src/lib/decorate-ow.ts:142 | the keys of a two-field shape |
| DecorateOw.ShapeKeysOfThree | src/lib/decorate-ow.ts:142 | the keys of a three-field shape |
| DecorateOw.PartialKeysOfThree | src/lib/decorate-ow.ts:121-124 | the reducer on (optional foo, bar, baz) keeps [bar, baz] |
| DecorateOw.RequiredKeysNearMissAmongOthers | src/lib/decorate-ow.ts:43-70 | required [bar, baz] against keys [foo, bar, near, other]: baz is suggested for `near` exactly when it is within distance 2 |
| DecorateOw.PartialShapeNearMiss | src/valida.spec.ts:96-123 | `partialShape({foo?, bar, baz})` with keys foo, bar, a near miss and an unrelated key: the message suggests baz exactly when the near miss is within distance 2, and the hook passes otherwise |
| DecorateOw.RequiredKeysNearMiss | src/lib/decorate-ow.ts:43-70 | required [foo, bar, baz] against keys [foo, bar, near]: baz is suggested for `near` |
| DecorateOw.ExactShapeNearMiss | src/valida.spec.ts:126-143 | `exactShape({foo, bar, baz})` with keys foo, bar and a near miss of baz gives the message suggesting baz |
| DecorateOw.RequiredPairNearMiss | src/lib/decorate-ow.ts:43-70 | required [first, second] against the single key `near`: `second` is suggested |
| DecorateOw.OptionalKeyNearMiss | src/valida.spec.ts:83-90 | for a shape of two optional keys, `exactShape` still requires them and suggests `ossDeveloper` for `osDeveloper`, while `partialShape` passes |
| DecorateOw.BazBazz | src/valida.spec.ts:109 | `bazz` is one edit from `baz` |
| DecorateOw.FooFarFromBaz | src/valida.spec.ts:107 | `foo` is more than two edits from `baz` |
| DecorateOw.ExtraKeyFarFromBaz | src/valida.spec.ts:110 | `extraKey` is more than two edits from `baz` |
| DecorateOw.LongKeyFarFromBaz | src/valida.spec.ts:119 | `bazzzzzzzz` is more than two edits from `baz`, so no suggestion is made |
| DecorateOw.OssDeveloper | src/valida.spec.ts:83-90 | `osDeveloper` is within two edits of `ossDeveloper` and more than two from `color` |
| DecorateOw.PartialShapeBazz | src/valida.spec.ts:105-112 | `partialShape({foo?, bar, baz})` with keys foo, bar, bazz, extraKey fails with the message suggesting baz for bazz |
| DecorateOw.PartialShapeBazzzzzzzz | src/valida.spec.ts:115-122 | the same shape with keys foo, bar, bazzzzzzzz, extraKey: the hook passes and leaves the failure to the library |
| DecorateOw.ExactShapeBazz | src/valida.spec.ts:137-143 | `exactShape({foo, bar, baz})` with keys foo, bar, bazz fails with the message suggesting baz for bazz |
| DecorateOw.OssDeveloperSuggested | src/valida.spec.ts:83-90 | `exactShape({color?, ossDeveloper?})` with the key osDeveloper fails with the message suggesting ossDeveloper; `partialShape` of the same shape passes |
| Valida.Keys | src/valida.ts:20-22 | `Object.keys`: one key per field, in order |
| Valida.Get | src/valida.ts:31 | definition: `input[key]` on a plain object, the value of the key's first field or `undefined` when absent |
| Valida.FirstUnexpected | src/valida.ts:18-34 | definition: what the walk throws, first checking every key of the level, then each spec key's values in order; `NoErrorIffConforms` and `ErrorLocated` characterize it |
| Valida.FirstUnexpectedFrom | src/valida.ts:30-32 | definition: the recursion loop from a given spec key on; `FromNone` and `FromSome` state its two outcomes |
| Valida.FirstExtraIndex | src/valida.ts:22-23 | the position of the first input key the spec does not declare; every earlier key is declared |
| Valida.FirstExtraIndexIs | src/valida.ts:22-27 | any position meeting that description is the one the first loop stops at |
| Valida.ValidateKeys | src/valida.ts:18-34 | the walk (first all keys of a level, then recursion over spec keys in order with the path extended) throws exactly `FirstUnexpected(input, spec, path)` |
| Valida.Conforms | src/valida.ts:18-34 | definition: every key of every plain-object input node the walk reaches is a key of the spec node beside it |
| Valida.ChildIsGet | src/valida.ts:31 | the child visited for a spec key is the spec's value for that key |
| Valida.FromNone | src/valida.ts:30-32 | when nothing is thrown from a spec key on, nothing is thrown below any later key |
| Valida.FromSome | src/valida.ts:30-32 | when something is thrown from a spec key on, it is what the walk below one of those keys throws, and the walk below every spec key between the start and that one throws nothing |
| Valida.NoErrorConforms | src/valida.ts:18-34 | after a walk that throws nothing, every key of every reached plain-object input node is a key of the spec node beside it |
| Valida.ErrorLocated | src/valida.ts:22-27 | a thrown error names a reached object, a key that object has and its spec node lacks, and that spec node's keys; its path is the path to that object; it is below the top level only when every top-level key is declared; every object strictly above it on the path declares all its keys, and every key of the named object before the named key is declared |
| Valida.DeclaredAlong | src/valida.ts:22-32 | all keys declared at the top level and at every level above the rest of a path below one key means all keys declared at every level above the whole path |
| Valida.AllKeysDeclared | src/valida.ts:22-28 | once the first loop passes every key, every input key is declared |
| Valida.NoErrorIffConforms | src/valida.ts:18-34 | the walk throws nothing exactly when every reached input object stays within its spec object |
| Valida.AtPath | src/valida.ts:24 | definition: the `` at path `a.b` `` fragment; `AtPathNamesPath` states what it says |
| Valida.AtPathNamesPath | src/valida.ts:24 | the `at path` fragment is empty exactly at the root; otherwise the text between its backticks, split on `.`, gives the path back when no key holds a dot |
| Valida.KeyErrorMessage | src/valida.ts:26 | definition: the walk's `TypeError` text, with the suggestion as a parameter |
| Valida.KeyErrorMessageNamesKey | src/valida.ts:24-26 | the message starts by naming the key in backticks followed by the path fragment (nothing more at the root), and ends with the quoted suggestion and `?` |
| Valida.DefaultArrayMerge | src/valida.ts:43-45 | the incoming array wins whenever there is one; the two arrays are never combined |
| Valida.ResolvedInput | src/valida.ts:68 | definition: the input merged into the defaults when there are defaults, the input itself otherwise; `Validate`'s last ensures uses it |
| Valida.ShapeErrorMessage | src/valida.ts:76 | definition: the message of `new TypeError(formatMessage(err))`, empty when `formatMessage` gives nothing |
| Valida.Validate | src/valida.ts:67-80 | the validator succeeds exactly when the resolved input conforms and the shape check passes, and then returns the resolved input (the input itself without defaults); otherwise it fails with the walk's first error, or with the shape error's formatted message |
| Utils.Split | src/lib/utils.ts:10 | `split('\n')` gives at least one piece, and no piece holds the separator |
| Utils.Join | src/lib/utils.ts:16 | definition: `join('\n')`; `JoinSplit` and `SplitJoin` relate it to `Split` |
| Utils.JoinSplit | src/lib/utils.ts:10-16 | joining the pieces of a split gives the string back |
| Utils.SplitPrefix | src/lib/utils.ts:10 | a separator-free prefix extends the first piece of a split |
| Utils.SplitJoin | src/lib/utils.ts:10-16 | splitting the join of separator-free pieces gives the pieces back |
| Utils.FormatLine | src/lib/utils.ts:11-15 | a line ending in `:` or `.` is kept; any other line gets exactly one `.`; either way the result ends in `:` or `.` |
| Utils.FormatLines | src/lib/utils.ts:10-16 | one formatted line per input line, in order |
| Utils.FormatText | src/lib/utils.ts:10-16 | definition: split, format each line, join; `FormatTextLines` and `FormatTextIdempotent` are its properties |
| Utils.FormatMessage | src/lib/utils.ts:7-17 | nothing for a missing error or one whose stack is not a string; otherwise the reformatted message |
| Utils.FormatTextLines | src/lib/utils.ts:10-16 | the output has as many lines as the message; line i is line i formatted, so every line ends in `:` or `.` |
| Utils.FormatTextIdempotent | src/lib/utils.ts:10-16 | formatting an already formatted message changes nothing |

## Left out

- `ow` itself is not part of this model: predicate evaluation, `ow.isValid`,
  labels and the errors `ow(...)` throws.
  - "Is a plain object" is the `Object` case of `Value`.
  - The `partialShape` check the validator runs is a parameter, `shapeCheck`,
    returning the error it throws.
  - The label in the suggestion message is a string parameter.
- `deepmerge` is not part of this model. The merge of defaults and input is a
  parameter of `Validate`. `DefaultArrayMerge` models the policy it is given,
  with a present array standing for a truthy one.
- `shortestLevenshteinDistance` is imported by `src/valida.ts` but is not in
  `src/lib/utils.ts`. It is a parameter of `KeyErrorMessage`, and nothing is
  proved about what it returns.
- Validate: the key walk's `TypeError` is returned as `KeyErr` with the key,
  path and declared keys rather than as message text. `KeyErrorMessage` gives
  the text.
- The configuration checks of `createValidator` (`src/valida.ts:53-61`) and
  its spec function call are left out. They are `ow` checks on the arguments.
- The prototype patching in `decorateOw` (`src/lib/decorate-ow.ts:80-87`,
  118, 137, 140, 154) is left out. It is global mutable state of a
  third-party class; only the hooks' required keys, validator and message
  are modelled.
- The `hasKeys`, `hasAnyKeys` and `deepEqual` hooks are commented out in the
  source and are not modelled.
- `isPredicate` is left out; it is a runtime `instanceof` check.
- `src/etc/types.ts` holds only compile-time types and is not modelled.
- SuggestKey.ScanAll: each outer pass collects its matches in a local `row`
  and appends it to `results` after the inner loop, instead of pushing one
  by one. The resulting list is the same.
- SuggestKey.ClosestMatchFirstOnTies, SuggestKey.CandidatesOrdered and
  SuggestKey.CandidatesEarlierPair require lists without duplicates. That is
  what `suggestKey` passes them, since `difference` removes duplicates.
  `SuggestKeyFirstOnTies` has no such requirement.
- EditDistance.Distance counts Unicode scalar values, since a Dafny `string`
  is a sequence of them. JavaScript strings and the distance library count
  UTF-16 code units. So a key with characters outside the Basic Multilingual
  Plane gets a smaller distance here than the library computes. Example:
  `"a"` against `"a😀😀"` is at distance 2 here but 4 in the source, so the
  model suggests a pair where the source returns `true`.
- `maxDistance` is fixed at its default of 2 in `SuggestKey`, as at every
  call site. `ScanAll`, `DistanceMatrix` and `ClosestMatch` take any bound.
- The test scenarios are stated for arbitrary key strings that meet the
  distance facts. Separate lemmas give those facts for the test's own
  strings (`BazBazz`, `FooFarFromBaz`, `ExtraKeyFarFromBaz`,
  `LongKeyFarFromBaz`, `OssDeveloper`). Instances on the test's own keys are
  also proved (`PartialShapeBazz`, `PartialShapeBazzzzzzzz`,
  `ExactShapeBazz`, `OssDeveloperSuggested`). They keep the label as a
  parameter rather than spelling out `object \`options\``.
- Numbers, `undefined` and other non-object values are one `Other`/`Undefined`
  case each. Their `ow` checks are outside this model.
- An `Object` value may list a key twice, which no JavaScript object does:
  `Object.keys` returns distinct keys, and a literal with a repeated key
  keeps only its last value. The model takes keys as distinct; on a value
  that repeats one, `Get` reads the first field.
