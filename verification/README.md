# Localizer, modelled in Dafny

A model of the `Localizer` class of the artibot-localizer package: a small
translation table that holds the current language (`lang`), the parsed
translation file (`file`: a `default` language and a `strings` map from a
source string to its translations per language) and the path that file was
loaded from (`filePath`).

- `text.dfy`, module `Text`: lower-casing of language codes, and two
  replace-all functions: `ReplaceAll`, which inserts the replacement
  literally, and `ReplaceAllJs`, which is JavaScript's `String.prototype.replaceAll`
  with a string replacement, including its `$$`, `$&`, `` $` `` and `$'`
  patterns (ECMAScript GetSubstitution).
- `placeholders.dfy`, module `Placeholders`: the token `[[i]]`, the decimal
  notation of `i`, and the substitution passes of `translateWithPlaceholders`.
  `Substitute(t, ps, n)` is the text after the first `n` passes and
  `Fill(t, ps)` the text after all of them. `SubstituteJs` and `FillJs` are
  the same passes made with `ReplaceAllJs`.
- `translation.dfy`, module `Translation`: the table, the error kinds and the
  lookup rule of `translate` as a pure function, with its properties.
- `localizer.dfy`, module `Localizing`: the class `Localizer`. Its fields are
  updated in place by `UpdateConfig`, `SetLocale` and `UpdateTranslationsFile`.
  `Translate` and the aliases read them. `TranslateWithPlaceholders` makes
  its passes with `ReplaceAllJs`, as the source's `replaceAll` does.
  `Create` is the constructor, which can fail. `ClientRun` and `ClientPlaceholders` are two client runs that
  use only the contracts.

Reading and parsing the translation file is not modelled. A `Files` map
gives the parsed table of every path that reads and parses. A path that is
not in the map fails to load with `LoadError`.

Where the code and its documentation disagree, the model follows the code:

- A source string that is in the table but has no entry for the language
  does not raise an error. The lookup yields `undefined`, so the source
  string comes back (`TranslateFallsBack`). Only a missing source string is
  an error.
- `updateTranslationsFile` stores the new path before it reads the file. So
  after a failed load, `filePath` names a file that was never loaded, and
  the old table is still in place.
- `setLocale` stores an explicit language as given. So `lang` is not always
  lower case. `translate` lower-cases it on every call
  (`TranslateDefaultsToCurrent`).
- Substitution passes are not independent of order. A token brought in by
  an earlier placeholder is filled by a later pass (`FillChains`).

## Model

| member | source | states |
|---|---|---|
| `Text.ToLower` | src/index.ts:60 | lower-casing keeps the length and lower-cases each character on its own |
| `Text.ToLowerFixesExactlyLower` | src/index.ts:60 | lower-casing leaves a string unchanged exactly when it has no upper-case letter |
| `Text.ToLowerIdempotent` | src/index.ts:60 | lower-casing twice is the same as lower-casing once |
| `Text.ReplaceAll` | src/index.ts:85 | literal replace-all: leftmost, non-overlapping matches, each replaced by the text as given (its contract is stated by the lemmas below) |
| `Text.ReplaceAllSplit` | src/index.ts:85 | replacing in two pieces equals replacing in the whole when no occurrence straddles the seam |
| `Text.ExpandReplacement` | src/index.ts:85 | the replacement text JavaScript builds from a string replacement: `$$`, `$&`, `` $` `` and `$'` expanded, every other character copied |
| `Text.ReplaceAllJs` | src/index.ts:85 | JavaScript's `replaceAll` with a string replacement: the same scan as `ReplaceAll`, inserting the expanded replacement |
| `Text.ReplaceAllAbsent` | src/index.ts:85 | a text that does not contain the token comes back unchanged |
| `Text.ReplaceAllSelf` | src/index.ts:85 | replacing a token by itself changes nothing |
| `Text.ReplaceAllFirstOccurrence` | src/index.ts:85 | the first occurrence becomes exactly the replacement, the text before it is kept, and the scan goes on after it |
| `Text.ReplaceAllJsLiteral` | src/index.ts:85 | JavaScript's `replaceAll` equals literal replacement when the replacement holds no `$` |
| `Placeholders.Decimal` | src/index.ts:85 | the index written in a token is a non-empty string of decimal digits, starting with `0` only for zero |
| `Placeholders.Token` | src/index.ts:85 | the token `[[i]]` has two opening brackets, the digits of `i` and two closing brackets, and no other opening bracket |
| `Placeholders.DecimalRoundTrip` | src/index.ts:85 | reading the decimal notation of `i` back gives `i`, so different indices give different tokens |
| `Placeholders.TokenContainsIff` | src/index.ts:85 | token `[[i]]` occurs inside token `[[k]]` if and only if `i == k` |
| `Placeholders.Substitute` | src/index.ts:85 | the first `n` passes of the loop, pass `i` replacing every `[[i]]` of the text so far by the i-th placeholder, literally |
| `Placeholders.Fill` | src/index.ts:85 | all passes, one per placeholder, with literal insertion |
| `Placeholders.FillJs` | src/index.ts:85 | all passes made with JavaScript's `replaceAll`, as the source makes them |
| `Placeholders.FillNoPlaceholders` | src/index.ts:85 | an empty placeholder list returns the translation unchanged |
| `Placeholders.SubstituteUntouched` | src/index.ts:85 | a text with none of the tokens `[[0]]`..`[[n-1]]` survives the first `n` passes unchanged |
| `Placeholders.TokenPassAround` | src/index.ts:85 | a pass over `[[i]]` keeps a different token `[[k]]` in place and fills the text on either side of it independently |
| `Placeholders.TokenBeyondPlaceholdersKept` | src/index.ts:85 | a token whose index is at least the number of placeholders is left in the text literally, wherever it stands, and the text on either side is filled as if it were not there |
| `Placeholders.FillEveryOccurrence` | src/index.ts:85 | every occurrence of `[[0]]` is replaced, not only the first |
| `Placeholders.FillLeavesUnmatchedToken` | src/index.ts:85 | with one placeholder, `[[0]]` is filled and `[[1]]` is kept |
| `Placeholders.FillChains` | src/index.ts:85 | passes run in ascending order on the text so far: a later token brought in by an earlier value is filled, an earlier token brought in by a later value is not |
| `Placeholders.FillJsLiteral` | src/index.ts:85 | when no placeholder holds a `$`, the JavaScript passes give the literal result |
| `Placeholders.FillJsReadsDollarPatterns` | src/index.ts:85 | JavaScript turns the placeholder `$$` into `$` and `$&` into the token itself |
| `Translation.Translate` | src/index.ts:58-72 | a successful translation is never empty; the only errors are `ArgumentError` and `TranslationError` |
| `Translation.TranslateRejectsEmpty` | src/index.ts:59 | an empty source string is an `ArgumentError` |
| `Translation.TranslateDefaultPassesThrough` | src/index.ts:58-62 | when the lower-cased language equals the stored default, the source string comes back, whether or not the table holds it |
| `Translation.TranslateMissingKey` | src/index.ts:64-68 | in another language, a source string missing from the table is a `TranslationError` |
| `Translation.TranslateStored` | src/index.ts:64-70 | a stored, non-empty translation for the lower-cased language is returned |
| `Translation.TranslateFallsBack` | src/index.ts:64-71 | a missing or empty entry for the language gives the source string, not an error |
| `Translation.TranslateFailsExactly` | src/index.ts:58-71 | `translate` fails if and only if the source is empty or, outside the default language, not a key, with `ArgumentError` or `TranslationError` respectively |
| `Translation.TranslateResultOrigin` | src/index.ts:58-71 | a successful result is never empty and is either the source string or the table's entry for it in the target language |
| `Translation.TranslateIgnoresCase` | src/index.ts:60 | the case of the language argument does not matter |
| `Translation.TranslateDefaultsToCurrent` | src/index.ts:58-60 | omitting the language means the current one, and the current one's case does not matter |
| `Translation.UpperCaseDefaultNeverPassesThrough` | src/index.ts:60-62 | a stored default with an upper-case letter never matches, so a string missing from the table fails in every language |
| `Localizing.LocaleFor` | src/index.ts:46-47 | an explicit language is kept as given; without one, the table's default lower-cased, which has no upper-case letter |
| `Localizing.Localizer.Translate` | src/index.ts:58-72 | `translate` on the localizer's own table and language fails exactly on an empty source or, outside the default language, a missing key; a successful result is never empty |
| `Localizing.Localizer.Create` | src/index.ts:15-17 | construction fails exactly on an empty path (`ConfigError`) or a file that does not load (`LoadError`); otherwise the new localizer holds that path, that file's table and the language `setLocale(config.lang)` gives |
| `Localizing.Localizer.UpdateConfig` | src/index.ts:35-39 | an empty path fails and changes nothing; otherwise the path is stored and the file reloaded; only if the load works is the language set from `config.lang` |
| `Localizing.Localizer.SetLocale` | src/index.ts:46-49 | an explicit language is stored and returned exactly as given; without one, the stored default lower-cased |
| `Localizing.Localizer.ShortTranslate` | src/index.ts:89 | `_` gives the same result as `translate` for every argument, the default language included |
| `Localizing.Localizer.TranslateWithPlaceholders` | src/index.ts:82-87 | an error from `translate` is passed on; otherwise the result is the translation after one JavaScript `replaceAll` pass per placeholder, in ascending index order; when no placeholder holds a `$`, that is literal insertion |
| `Localizing.Localizer.ShortTranslateWithPlaceholders` | src/index.ts:91 | `__` gives the same result as `translateWithPlaceholders`, literal insertion included when no placeholder holds a `$` |
| `Localizing.Localizer.UpdateTranslationsFile` | src/index.ts:97-100 | the path (or the current one) is stored first; a file that loads replaces the whole table; a failed load keeps the old table; the language is untouched |

## Left out

- Reading the file and parsing it as JSON are not modelled. `Files` gives the parsed table of each path that loads. Any read or parse failure is the single error `LoadError`.
- A parsed file without `strings` or `default`, or with non-object entries, cannot be represented. In the source, a missing `strings` makes every lookup outside the default language throw, and a missing `default` makes `setLocale()` throw.
- The `typeof` checks on `filePath` and on the source string are not modelled, because the Dafny types already rule out non-strings. A missing `filePath` is not modelled either, because `Config.filePath` is a string.
- `toLowerCase` is modelled for ASCII letters only. Full Unicode case mapping is not modelled.
- Object-prototype keys such as `constructor` in the `strings` lookup are not modelled. `strings` is a finite map.
- Error messages are not modelled. Errors are modelled by kind only.
- Calling `_` or `__` detached from the object (without `this`) is not modelled.
- `Text.ReplaceAll` requires a non-empty search string. The only search strings used are tokens, and a token is never empty.
- types/localizer.d.ts holds declarations only. testing.ts is a demo script. Neither is part of this model.

## Findings

| source | as written | input that shows it | evidently intended | confidence | as-written member | corrected member |
|---|---|---|---|---|---|---|
| src/index.ts:85 | `translated.replaceAll(token, placeholder)` with a string replacement, so `$$`, `$&`, `` $` `` and `$'` in a placeholder value are expanded | template `[[0]]` with placeholders `["$$"]` gives `$`; with `["$&"]` it gives `[[0]]` | each placeholder value is inserted verbatim | high (not executed) | `Placeholders.FillJsReadsDollarPatterns` | `Text.ReplaceAllFirstOccurrence` |
