# Localize: translation keys, entry merge and key sorting

This project models the core of an IntelliJ plugin action. The action turns selected text into an
angular-translate reference: `{{ 'KEY' | translate }}`. It has three parts:

- **Key derivation** (`getTranslationId`, in `Util.java`, with an identical copy in `LocalizeAction.java`).
  The selected text is upper-cased. Every character outside `[A-Za-z]` becomes `_`. One
  non-overlapping `"__"` to `"_"` pass runs. Leading and trailing underscores are then stripped. Module
  `TranslationIds` models each pass as a function and proves what the derived key looks like:
  - its alphabet;
  - no underscore at either end;
  - the letters it keeps;
  - how separators between words turn into underscores.

  The `"__"` pass evidently means to collapse separators, so that a key has no doubled underscore; it
  does not do so for runs of three or more. The module also defines a corrected derivation that collapses
  every run of separators to a single underscore. See Findings.
- **Entry merge** (`addTranslationEntry`) and its caller `translate`, in module `LocalizeAction`. The
  resource file is a `ResourceFile` object with three fields: its read-only status, its parsed content
  and a count of saves. The merge decision is the pure function `Merge`, and the methods
  `AddTranslationEntry` and `Translate` are proved against it. JSON values are told apart only as
  `Str`, `Null` and `Other`, because the code checks `instanceof String` and `!= null` and nothing more
  (module `Json`). `Json.Get` is `JSONObject.get`, which answers null both for an absent key and for a
  key that holds JSON null.
- **Key sorting** (`sortJSONObject`, in `Util.java`, with an identical copy in `LocalizeAction.java`),
  in module `JsonSorting`. `CompareTo` is `String.compareTo`. The source has two loops, one that
  collects the keys and one that rebuilds the object; both are `while` loops here, and the sort is an
  insertion sort. `SortJsonObject` returns the sorted key list next to the rebuilt object, so that the
  list can be specified.

## Model

| member | source | states |
|---|---|---|
| Json.Get | src/main/java/LocalizeAction.java:89 | a present key answers the value stored under it; an absent key answers null |
| TranslationIds.UpperChar | src/main/java/Util.java:84 | upper-casing maps each of `a`..`z` to its own capital (`a` to `A`, ..., `z` to `Z`), keeps letters letters and non-letters non-letters, and leaves every character outside `a`..`z` as it is |
| TranslationIds.StripLeading | src/main/java/Util.java:84 | after `^_+` is removed, the text does not start with `_` |
| TranslationIds.StripTrailing | src/main/java/Util.java:84 | after `_+$` is removed, the text does not end with `_` |
| TranslationIds.StripLeadingShape | src/main/java/Util.java:84 | the front strip removes a run of underscores and nothing else |
| TranslationIds.StripTrailingShape | src/main/java/Util.java:84 | the back strip removes a run of underscores and nothing else |
| TranslationIds.ReplacePairsUnderscores | src/main/java/Util.java:84 | the `"__"` pass turns a run of n underscores into ceil(n/2) underscores |
| TranslationIds.ReplacePairsAppend | src/main/java/Util.java:84 | the `"__"` pass works piecewise across a boundary that has no underscore on one side |
| TranslationIds.TranslationIdAlphabet | src/main/java/Util.java:83-85 | every character of a key is `A`..`Z` or `_` |
| TranslationIds.TranslationIdEdges | src/main/java/Util.java:83-85 | a key never starts or ends with `_` |
| TranslationIds.TranslationIdLetters | src/main/java/Util.java:83-85 | the letters of the key are exactly the letters of the text, upper-cased, in order |
| TranslationIds.TranslationIdNoLetters | src/main/java/Util.java:83-85 | text without letters gives the empty key |
| TranslationIds.TranslationIdEmptyExamples | src/main/java/Util.java:83-85 | `""` and `"123"` give `""` |
| TranslationIds.TranslationIdWord | src/main/java/Util.java:83-85 | a single word gives itself, upper-cased |
| TranslationIds.TranslationIdTrim | src/main/java/Util.java:83-85 | separators before the first letter or after the last one do not change the key |
| TranslationIds.TranslationIdJoin | src/main/java/Util.java:83-85 | two parts joined by n separators give key(left) + ceil(n/2) underscores + key(right) |
| TranslationIds.TranslationIdTwoWords | src/main/java/Util.java:83-85 | two words joined by n separators give the first word upper-cased, ceil(n/2) underscores, and the second word upper-cased |
| TranslationIds.TranslationIdThreeWords | src/main/java/Util.java:83-85 | three words joined by separator runs of lengths n and m give the upper-cased words joined by ceil(n/2) and ceil(m/2) underscores |
| TranslationIds.TranslationIdExample | src/test/java/LocalizeActionTest.java:7-10 | `".foo-bar. apple."` gives `"FOO_BAR_APPLE"` |
| TranslationIds.TranslationIdNotIdempotent | src/main/java/Util.java:83-85 | `"a...b"` gives `"A__B"`, and deriving again gives `"A_B"`, so derivation is not idempotent |
| TranslationIds.TranslationIdDoubledUnderscore | src/main/java/Util.java:84 | as written, `"a...b"` gives a key with a doubled underscore, which is not a well-formed key; the corrected derivation gives `"A_B"` |
| TranslationIds.SquashUnderscores | src/main/java/Util.java:84 | collapsing runs keeps the first character |
| TranslationIds.SquashNoDoubled | src/main/java/Util.java:84 | after runs are collapsed, no two underscores are adjacent |
| TranslationIds.SquashAppend | src/main/java/Util.java:84 | collapsing runs works piecewise across a boundary that has no underscore on one side |
| TranslationIds.SquashReplacePairs | src/main/java/Util.java:84 | collapsing runs after the `"__"` pass gives the same result as collapsing without it |
| TranslationIds.IntendedTranslationIdIsWellFormed | src/main/java/Util.java:83-85 | the corrected derivation always gives a well-formed key: `A`..`Z` and `_` only, no `_` at either end, no doubled `_` |
| TranslationIds.IntendedTranslationIdLetters | src/main/java/Util.java:83-85 | the corrected key keeps exactly the text's letters, upper-cased, in order |
| TranslationIds.IntendedIsSquashedTranslationId | src/main/java/Util.java:83-85 | the corrected key is the as-written key with its runs of underscores collapsed |
| TranslationIds.TranslationIdAgreesWhenWellFormed | src/main/java/Util.java:83-85 | where the as-written key has no doubled underscore, the two derivations agree |
| TranslationIds.IntendedTranslationIdExample | src/test/java/LocalizeActionTest.java:7-10 | the corrected derivation also gives `"FOO_BAR_APPLE"` for `".foo-bar. apple."` |
| JsonSorting.CompareTo | src/main/java/Util.java:106-111 | the comparison is zero exactly for equal strings; when the first characters differ it is their difference |
| JsonSorting.CompareToFirstDifference | src/main/java/Util.java:106-111 | at the first index where the strings differ, the comparison is the difference of the two characters there |
| JsonSorting.CompareToPrefix | src/main/java/Util.java:106-111 | when one string is a prefix of the other, the comparison is the difference of the lengths |
| JsonSorting.CompareToAntisymmetric | src/main/java/Util.java:106-111 | swapping the arguments negates the comparison |
| JsonSorting.CompareToTotal | src/main/java/Util.java:106-111 | any two keys are ordered one way or the other |
| JsonSorting.CompareToTransitive | src/main/java/Util.java:106-111 | the order is transitive |
| JsonSorting.Insert | src/main/java/Util.java:106-111 | one insertion step adds exactly the new key to the list's multiset |
| JsonSorting.InsertSorted | src/main/java/Util.java:106-111 | an insertion step keeps a sorted list sorted |
| JsonSorting.SortKeys | src/main/java/Util.java:106-111 | the sorted list is sorted by `compareTo` and is a permutation of the input list |
| JsonSorting.CollectKeys | src/main/java/Util.java:99-104 | the collected list holds every key of the object exactly once and nothing else |
| JsonSorting.SortedOnceIsStrict | src/main/java/Util.java:99-111 | a sorted list with no repeated key is strictly sorted |
| JsonSorting.SortJsonObject | src/main/java/Util.java:98-118 | the key list is a strictly sorted permutation of the key set, and the rebuilt object has exactly the input's keys and values |
| JsonSorting.SameEntries | src/main/java/Util.java:113-117 | an object that holds each listed key with its original value, and no other key, is the original object |
| JsonSorting.StrictlySortedUnique | src/main/java/Util.java:102-111 | the sorted key list depends only on the key set, not on the order in which the keys were collected |
| LocalizeAction.Message | src/main/java/LocalizeAction.java:84-100 | the failure messages are `"File is read only."` and `"Translation ID conflict."`; a parse failure shows the parser's own message |
| LocalizeAction.Merge | src/main/java/LocalizeAction.java:89-111 | same string: reuse the key, no write. Key absent or holding a non-string (JSON null too): put the text under the key. Different string with `key_2` absent or null: put it under `key_2`. Conflict exactly when `key_2` holds a non-null value. On success the returned key maps to the text, exactly one key is added or replaced, and every other entry keeps its value |
| LocalizeAction.AddEntry | src/main/java/LocalizeAction.java:80-112 | a read-only file fails with ReadOnly whatever its content; an unreadable file fails with the parser's message; otherwise the merge decides |
| LocalizeAction.Reference | src/main/java/LocalizeAction.java:66 | the replacement is the key wrapped in `{{ '` and `' \| translate }}` |
| LocalizeAction.ReferenceRecoversId | src/main/java/LocalizeAction.java:66 | the key can be read back from its reference |
| LocalizeAction.ReferenceInjective | src/main/java/LocalizeAction.java:66 | different keys give different references |
| LocalizeAction.DerivedReferenceQuoted | src/main/java/LocalizeAction.java:61-66 | for a key `getTranslationId` derives, or its `_2` variant, the reference's quoted part holds no quote character |
| LocalizeAction.RelocalizeReuses | src/main/java/LocalizeAction.java:91-94 | localizing the same text again after it went under the derived key reuses that key and writes nothing |
| LocalizeAction.RelocalizeAfterDisambiguationConflicts | src/main/java/LocalizeAction.java:96-101 | localizing the same text again after it went under `key_2` fails with a conflict |
| LocalizeAction.ResourceFile.AddTranslationEntry | src/main/java/LocalizeAction.java:80-112 | returns the key the merge chose, or the failure; the file's entries change, and a save is counted, only when the merge writes; a failure leaves the file as it was |
| LocalizeAction.ResourceFile.Translate | src/main/java/LocalizeAction.java:59-73 | the key is derived by `getTranslationId` as written; on success the selection is replaced with the reference to the key actually used, `key` or `key_2`; on failure the failure's message is shown and nothing is replaced; the file changes exactly as in `AddTranslationEntry` |

`LocalizeAction.java:168-170` and `LocalizeAction.java:183-203` are identical copies of
`Util.java:83-85` and `Util.java:98-118`. Each is modelled once.

`TranslationId` follows the code: a single `"__"` pass, which leaves a doubled underscore wherever three or
more separators stand in a row. An intended key has no doubled underscore; `IntendedTranslationId`
collapses every run instead (see Findings).

## Left out

- TranslationIds.UpperChar: upper-casing is ASCII only. Java's `toUpperCase` is Unicode-aware and
  locale-dependent (`ß` becomes `SS`, and the Turkish locale maps `i` to a dotted capital), so it can
  change the length and the letters. Such characters are outside this model.
- JsonSorting.CompareTo: compares Dafny characters, which are Unicode scalar values. Java compares
  UTF-16 code units, which orders characters outside the Basic Multilingual Plane differently.
- JsonSorting.SortKeys: the library's `List.sort`, a TimSort, is modelled by an insertion sort. The
  contract is the same: sorted by `compareTo`, and a permutation.
- The iteration order of `JSONObject.keySet()` is a hash order. `CollectKeys` picks the keys in an
  arbitrary order instead, and `StrictlySortedUnique` shows the sorted list does not depend on it. The
  rebuilt object is a map, so its own order is not modelled.
- `sortJSONObject` is not called from `addTranslationEntry`, because that call is commented out at
  `LocalizeAction.java:107`.
- JSON parsing and `toJSONString`, both from json-simple, are not modelled. A file is taken to be
  either parsed entries or the message of the exception that reading or parsing raised. That covers
  a top-level value that is not an object: an array, string, number or boolean fails the cast at
  line 87, and a top-level `null` passes the cast and then fails with a `NullPointerException` at
  `json.get` on line 89. A save is taken to store exactly the merged entries.
- Failures while saving or reformatting the file (`writeJSONToVirtualFile`, `formatFile`) are not
  modelled. The source reports them in a notification and carries on. The model counts a save and
  takes it to succeed.
- `ReadonlyStatusHandler.ensureFilesWritable` asks the IDE to make the file writable. Its result is the
  `readOnly` field.
- IDE interaction is not modelled: `update`, `actionPerformed`, the `lastFile` field, `promptForFile`,
  `getSelectedText` (including a missing selection), the editor edit in `replaceText`,
  `WriteCommandAction`, `showNotification` and `printStackTrace`. `Translate` returns the effect on the
  editor as a value instead.
- `TransformIntoTranslationIdAction.java` only calls `getTranslationId` and `replaceText`. It is not
  part of this model.

## Findings

| source | as written | input that shows it | evidently intended | confidence | as-written member | corrected member |
|---|---|---|---|---|---|---|
| src/main/java/Util.java:84 | `replaceAll("__", "_")` rewrites non-overlapping pairs once, so a run of n separators leaves ceil(n/2) underscores | `"a...b"` gives `"A__B"`, a key with a doubled underscore; deriving again gives `"A_B"` | every run of non-letters becomes a single underscore, so a key never holds a doubled underscore | medium, not executed | TranslationIds.TranslationIdDoubledUnderscore | TranslationIds.IntendedTranslationIdIsWellFormed |

`LocalizeAction.ResourceFile.Translate` derives the key as the source does, with `TranslationId`. The
corrected `IntendedTranslationId` stands beside it. By `TranslationIdAgreesWhenWellFormed`, the two give
the same key whenever the source's key has no doubled underscore. That includes the example from the
source's tests (`IntendedTranslationIdExample`).
