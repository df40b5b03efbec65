# Localisation and sound preferences of the Chicken Run predictor

A Dafny model of the two React providers that hold the application's
localisation and preference logic:

- `LanguageProvider` (`context/LanguageContext.tsx`): the translation
  function `t`, the currency formatter `formatCurrency` with its two static
  tables (`currencyData`, `conversions`), and the `language` state, loaded
  from `localStorage` and written back on every change.
- `SoundProvider` (`context/SoundContext.tsx`): the `isMuted` state, loaded
  from `localStorage`, flipped by `toggleMute`, written back on every change
  and consulted by `playSound`.

Modules:

- `Text` (`text.dfy`): `key.split('.')`, a literal replace-all (what
  `replace(new RegExp(...), ...)` does for plain text), the decimal rendering
  of whole numbers and comma grouping (`toLocaleString`).
- `Currency` (`currency.dfy`): both tables as map literals and
  `FormatCurrency(amount, language)`.
- `Translation` (`translation.dfy`): the table as a tagged tree
  (`Branch` of sub-tables, `Leaf` of language entries) passed in as a
  parameter; `Resolve` states what `t` returns, and `Translate` is the
  step-by-step walk and placeholder loop proved to return it.
- `Storage` (`storage.dfy`): `localStorage` as a class holding a string map,
  whose reads and writes may throw.
- `LanguagePreference`, `SoundPreference`: the two state cells as classes
  over a `Store`. Each keeps the invariant `Synced()`: whenever writing works,
  storage holds the current value.

`t` and `formatCurrency` take the current language as an argument instead
of closing over the provider's state.

Behaviour the model keeps from the code that a reader may not expect:

- The current language's entry is skipped when it is empty as well as when
  it is missing (`||`). An empty English entry is then returned as `""`,
  not as the key.
- Once a non-empty entry is found, a placeholder name such as `0`, `3,` or
  `3,5` makes `new RegExp` throw, so `t` returns the key. An empty entry is
  returned as `""` without building any regular expression.
- Names are substituted one after another into the text so far, so a value
  inserted for one name is searched for the names after it: `{a}` with
  `a` = `{b}` and then `b` = `X` gives `X`.
- A stored mute flag may carry JSON whitespace around it (`" true"`,
  `"false\n"`); `JSON.parse` accepts it and so does the model.
- The persist effect also runs on the first render, so the loaded value is
  written back at once. A `setLanguage` to the current value writes nothing,
  because React skips the update.
- A path that ends at a branch is treated as not found, and `t` returns
  the key. The code differs when the branch has a child named after the
  current language or `en`: with at least one replacement name,
  `.replace` on the child object throws and the key is returned, as in the
  model; without replacements, or with an empty replacements object `{}`,
  the code returns the child object itself, where the model gives the key
  (see "Left out").

## Model

| member | source | states |
|---|---|---|
| Currency.FormatCurrency | context/LanguageContext.tsx:104-122 | `formatCurrency(amountInr)` for the given language; no contract of its own: RupeeFormat, PreFormat, PostFormat and RupeeExactlyWithoutData state its result for every language |
| Currency.TablesCoverSameLanguages | context/LanguageContext.tsx:5-73 | `currencyData` and `conversions` have exactly the same language codes, and neither has `en` or `hi` |
| Currency.SymbolsAreNotRupee | context/LanguageContext.tsx:5-38 | every local currency symbol is non-empty and does not start with `₹` |
| Currency.RupeeFormat | context/LanguageContext.tsx:104-122 | for `en`, `hi` and any language missing from either table the result is `₹` followed by the amount itself |
| Currency.UnknownLanguageLikeEnglish | context/LanguageContext.tsx:109-121 | a language without conversion data formats exactly as `en` does |
| Currency.PreFormat | context/LanguageContext.tsx:112-115 | a `pre` currency gives its symbol immediately followed by the ungrouped converted numeral |
| Currency.PostFormat | context/LanguageContext.tsx:116-117 | a `post` currency gives the grouped converted numeral immediately followed by the symbol; the numeral's commas sit exactly between groups of three digits counted from the right, and without them it is the converted amount; by `GroupedUnique` this fixes the whole result |
| Currency.RupeeExactlyWithoutData | context/LanguageContext.tsx:104-122 | the result starts with `₹` if and only if the language has no currency data |
| Currency.ExampleEnglish | context/LanguageContext.tsx:105-106 | `en`, 500 gives `₹500` |
| Currency.ExampleHindi | context/LanguageContext.tsx:105-106 | `hi`, 400 gives `₹400` |
| Currency.ExampleBengali | context/LanguageContext.tsx:112-115 | `bn`, 500 gives `৳689` |
| Currency.ExamplePolish | context/LanguageContext.tsx:116-117 | `pl`, 500 gives `48zł` |
| Currency.ExampleVietnamese | context/LanguageContext.tsx:116-117 | `vi`, 500 gives `305,000₫` (grouped) |
| Currency.ExampleKorean | context/LanguageContext.tsx:114-115 | `ko`, 500 gives `₩16590` (a `pre` numeral is not grouped) |
| Currency.ExampleUnknown | context/LanguageContext.tsx:120-121 | an unknown code `xx`, 400 gives `₹400` |
| Text.Decimal | context/LanguageContext.tsx:106 | the rendering of a whole number is a non-empty string of digits with no leading zero |
| Text.DecimalRoundTrip | context/LanguageContext.tsx:106 | reading the rendered numeral back gives the number |
| Text.Grouped | context/LanguageContext.tsx:117 | a grouped numeral is non-empty and starts with a digit; `GroupedDigits`, `GroupedCommas` and `GroupedUnique` fix it completely |
| Text.GroupedCommas | context/LanguageContext.tsx:117 | in a grouped numeral every character is a digit or a comma, and the commas stand exactly between groups of three digits counted from the right, the leading group having one to three digits |
| Text.CommasInThreesUnique | context/LanguageContext.tsx:117 | two strings of digits with commas in threes that have the same digits are equal: the digits alone fix where the commas go |
| Text.GroupedUnique | context/LanguageContext.tsx:117 | the grouped numeral of `n` is the only string of digits with commas in threes whose digits are the numeral of `n` (so `"1000"` is not it for 1000; `"1,000"` is) |
| Text.GroupedDigits | context/LanguageContext.tsx:117 | grouping only inserts commas: removing them leaves the plain numeral |
| Text.SmallGroupedIsDecimal | context/LanguageContext.tsx:117 | below 1000 the grouped numeral is the plain one |
| Text.Split | context/LanguageContext.tsx:126 | the parts of a split key contain no separator, there is at least one, and joining them with the separator gives the key back |
| Text.SplitJoin | context/LanguageContext.tsx:126 | splitting a join of separator-free parts gives exactly those parts |
| Text.ReplaceAll | context/LanguageContext.tsx:148-149 | the global replace of a literal `{name}`; no contract of its own: ReplaceAllAbsent, ReplaceAllSame, ReplaceAllLeading and ReplaceAllJoin state what it does |
| Text.ReplaceAllAbsent | context/LanguageContext.tsx:148-149 | text without the placeholder is left unchanged |
| Text.ReplaceAllSame | context/LanguageContext.tsx:148-149 | replacing a placeholder by itself changes nothing |
| Text.ReplaceAllLeading | context/LanguageContext.tsx:148-149 | placeholder-free text, then the placeholder: the text is kept, the placeholder becomes the value, and within this one name the inserted value is not scanned again |
| Text.ReplaceAllJoin | context/LanguageContext.tsx:148-149 | every occurrence of the placeholder is replaced by the value and the text between occurrences is kept |
| Translation.Resolve | context/LanguageContext.tsx:125-159 | what `t(key, replacements)` returns; no contract of its own: Translate proves the step-by-step code equal to it, and MissingGivesKey, CurrentLanguageEntry, EnglishFallback, NoEntryGivesKey, ThrowGivesKey and FoundEntrySubstituted state its result |
| Translation.Lookup | context/LanguageContext.tsx:126-132 | the walk along the key's segments; no contract of its own: DottedKeyReaches, PastLeafMisses and MissingGivesKey state where it ends |
| Translation.Pick | context/LanguageContext.tsx:133 | the current-language entry unless it is missing or empty, else the English entry when there is one; no contract of its own: CurrentLanguageEntry, EnglishFallback and NoEntryGivesKey state which entry it picks |
| Translation.Substitute | context/LanguageContext.tsx:146-150 | the `forEach` over the replacement names; no contract of its own: SubstituteThrowsIff, UnusedReplacementsKeepText, EveryOccurrenceReplaced and LaterNamesSeeInsertedText state what it does |
| Translation.Translate | context/LanguageContext.tsx:125-159 | the loop walk that stops at the first missing segment, followed by the per-name substitution loop, returns `Resolve` |
| Translation.MissingGivesKey | context/LanguageContext.tsx:126-144 | a missing segment, a branch, or a leaf with no usable entry gives the key unchanged |
| Translation.PastLeafMisses | context/LanguageContext.tsx:129-132 | a path that continues past a leaf is not found |
| Translation.DottedKeyReaches | context/LanguageContext.tsx:126-132 | a dotted key made of dot-free segments walks exactly those segments |
| Translation.CurrentLanguageEntry | context/LanguageContext.tsx:126-133 | with no replacements, a present key with a non-empty entry for the current language gives that entry |
| Translation.EnglishFallback | context/LanguageContext.tsx:126-133 | a present key whose current-language entry is missing or empty gives the English entry (as it is when there are no replacements or it is empty) |
| Translation.NoEntryGivesKey | context/LanguageContext.tsx:133-144 | a present key with neither a usable current-language entry nor an English one gives the key |
| Translation.EmptyKey | context/LanguageContext.tsx:126-144 | the empty key is one empty segment and, when absent from the table, comes back as the empty string |
| Translation.SubstituteThrowsIff | context/LanguageContext.tsx:147-150 | substitution throws if and only if some replacement name is shaped like a braced quantifier, wherever it sits in the order |
| Translation.ThrowGivesKey | context/LanguageContext.tsx:146-158 | once a non-empty entry is found, a throwing replacement name makes `t` return the key |
| Translation.UnusedReplacementsKeepText | context/LanguageContext.tsx:146-153 | replacements whose placeholders do not occur leave the entry unchanged |
| Translation.EveryOccurrenceReplaced | context/LanguageContext.tsx:147-150 | a replacement turns every occurrence of `{name}` into `String(value)` and keeps the text around them |
| Translation.FoundEntrySubstituted | context/LanguageContext.tsx:146-153 | a found non-empty entry with replacements gives the substituted entry |
| Translation.LaterNamesSeeInsertedText | context/LanguageContext.tsx:146-150 | a value inserted for one name is searched for the later names: `{a}` with `a` = `{b}`, then `b` = `X`, gives `X` |
| Translation.Example | context/LanguageContext.tsx:125-159 | `fr` lookup of `game.welcome` with only an English entry `Hi {user}!` and `user` = `Ana` gives `Hi Ana!` |
| LanguagePreference.InitialLanguage | context/LanguageContext.tsx:86-94 | the loaded language is never empty, and anything other than `en` comes from a successful read of exactly that value |
| LanguagePreference.SavedLanguageLoads | context/LanguageContext.tsx:86-102 | a non-empty code written to storage is loaded back unchanged |
| LanguagePreference.UnavailableStorageGivesEnglish | context/LanguageContext.tsx:86-94 | a failed read, no stored value or an empty one gives `en` |
| LanguagePreference.LanguageCell.constructor | context/LanguageContext.tsx:86-102 | the initial language is loaded from storage and written back at once, failure swallowed |
| LanguagePreference.LanguageCell.Persist | context/LanguageContext.tsx:96-102 | the effect writes the current language under `mines-predictor-lang`; a failed write leaves storage as it was |
| LanguagePreference.LanguageCell.SetLanguage | context/LanguageContext.tsx:86-102 | `setLanguage` sets the language; a change is written to storage, an unchanged value writes nothing |
| LanguagePreference.ChosenLanguageSurvivesReload | context/LanguageContext.tsx:86-102 | when storage works, a chosen language is the next session's initial language |
| SoundPreference.JsonBool | context/SoundContext.tsx:261 | `JSON.stringify` of the flag; no contract of its own: JsonBoolRoundTrip and SavedMuteLoads state that it parses back |
| SoundPreference.ParseJsonBool | context/SoundContext.tsx:252 | `JSON.parse` of the stored text, for boolean literals; no contract of its own: JsonBoolRoundTrip and PaddedLiteralLoads state what it accepts |
| SoundPreference.Trim | context/SoundContext.tsx:252 | the text `JSON.parse` reads a literal from neither starts nor ends with JSON whitespace (space, tab, line feed, carriage return) |
| SoundPreference.TrimRemovesSpaceOnly | context/SoundContext.tsx:252 | trimming removes JSON whitespace and nothing else: the stored text is the trimmed text with whitespace before and after it |
| SoundPreference.JsonBoolRoundTrip | context/SoundContext.tsx:249-265 | parsing a stored boolean gives `b` if and only if the text, without surrounding JSON whitespace, is `JSON.stringify(b)` |
| SoundPreference.InitialMuted | context/SoundContext.tsx:249-257 | the loaded flag is true exactly when the read succeeded and gave `"true"`, possibly with JSON whitespace around it; missing, empty, unparsable or unreadable gives false |
| SoundPreference.PaddedLiteralLoads | context/SoundContext.tsx:251-252 | `" true\n"` loads as muted and `"false\n"` as not muted, as `JSON.parse` allows |
| SoundPreference.SavedMuteLoads | context/SoundContext.tsx:249-265 | a flag written as `JSON.stringify` loads back as the same flag |
| SoundPreference.SoundCell.constructor | context/SoundContext.tsx:249-265 | the initial flag is loaded from storage and written back at once, failure swallowed |
| SoundPreference.SoundCell.Persist | context/SoundContext.tsx:259-265 | the effect writes `"true"`/`"false"` under `mines-predictor-sound-muted`; a failed write leaves storage as it was |
| SoundPreference.SoundCell.ToggleMute | context/SoundContext.tsx:267-274 | `toggleMute` negates the flag and writes the new value |
| SoundPreference.SoundCell.PlaySound | context/SoundContext.tsx:276-279 | a cue is handed to the audio engine exactly when not muted, and it is the requested cue |
| SoundPreference.ToggleTwiceRestores | context/SoundContext.tsx:267-274 | toggling twice restores the flag, storage still holds it, and the stored items are exactly those before the first toggle |
| SoundPreference.MuteSurvivesReload | context/SoundContext.tsx:249-274 | when storage works, a toggled flag is the next session's initial flag |

## Left out

- Audio: `playSoundEffect`, `getAudioContext` and the audio-context resume
  in `toggleMute` (context/SoundContext.tsx:13-246, 269-272) build Web Audio
  graphs with floating-point frequencies, gains, random noise and timing.
  `PlaySound` only reports which cue it hands on.
- React plumbing (`createContext`, provider JSX, `useCallback`/`useEffect`
  scheduling): each effect is an explicit persist step after the change.
- Console logging in the `catch` blocks.
- The content of `../i18n/translations` is not part of this model; the table
  is a parameter of `Resolve` and `Translate`.
- Regular-expression semantics of placeholder names: only the braced
  quantifier names that make `new RegExp` throw are modelled. Other
  metacharacters (`.`, `(`, `[`, `*`, `+`, `?`, `\`, `|`, `^`, `$`, `}`) are
  matched as literal text, though the regex engine would interpret them or
  throw.
- `$&`, `$1`, `$$` and similar patterns in replacement values are inserted
  literally instead of being expanded.
- The order of integer-like names in `Object.keys`. It does not matter here:
  such names are braced quantifiers, and any one of them makes `t` return the
  key, whatever its position (`SubstituteThrowsIff`).
- Replacement numbers are whole numbers. Fractional and exponent forms of
  `String(number)` are not modelled.
- JavaScript property-lookup quirks in `t`: inherited keys such as
  `toString`, indexing into a string leaf, and a branch child named after
  the language or `en` returned as an object when there are no
  replacements or an empty replacements object `{}` (no name, so no
  `.replace` runs). All of these count as not found, and the key is
  returned.
- `FormatCurrency`: for a language code naming an inherited object property
  (`toString`, `constructor`, `__proto__`), both table lookups at
  context/LanguageContext.tsx:109-110 succeed, `position` is undefined and
  line 117 throws on `undefined.toLocaleString()`. The model treats such
  codes as absent and gives the `₹` result.
- `toLocaleString` depends on the browser's locale; grouping is fixed to
  commas in threes.
- `JSON.parse` of non-boolean stored values (`"null"`, `"1"`, `"{}"`) is
  treated as a parse failure. The code would store that value itself as
  `isMuted`.
- Whether storage can be read or written is fixed for the session. Failures
  that come and go between calls are not modelled.
