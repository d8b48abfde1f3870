# Telegram translator bot — a Dafny model of its translation pipeline

The bot takes every text message and runs it through a fixed pipeline:

1. Mixed alphabets are normalised (`normalizeMixed`):
   - Russian ы/э/ъ become Ukrainian letters.
   - In a word that mixes Cyrillic and Latin letters, the Latin look-alikes become Cyrillic.
2. The text is autocorrected with LanguageTool's replacements (`autocorrectWithLanguageTool`, `applyLTReplacements`).
3. The source language is detected (`detectLang`):
   - Text with Cyrillic letters is judged by its letters.
   - Other text goes to an external detector.
4. A target language is chosen:
   - A user's `/setlang` preference wins.
   - Otherwise Ukrainian and Russian go to Polish, and everything else goes to Russian.
   - The message is dropped when the source already is the target.
5. The text is translated with MyMemory, falling back to two LibreTranslate instances tried in order (`translateSmartToTarget`, `translateLibre`).
6. The reply names the two languages.

The `/setlang` and `/mylang` commands read and write the per-user preference map.

The project models this pipeline in eight modules:

- `Wrappers`: `Option`.
- `Chars`: the character classes, `toLowerCase`, `trim`, and the two `split`s.
- `Normalizer`: `normalizeMixed`.
- `LanguageTool`: the match list, the stable sort, and the splice loop.
- `Detector`: `detectLang`.
- `LangCodes`: `normLang` and `memoryPairCode`.
- `Providers`: MyMemory, LibreTranslate, and the fallback chain.
- `Bot`: the preference store, target selection, and the text handler.

Every network answer is a parameter:

| Service | Parameter |
|---|---|
| LanguageTool | `Option<seq<Match>>`, with `None` for a failed request |
| Language detector | `Option<string>` |
| MyMemory | a function from the query and language pair to an optional text |
| LibreTranslate | a function from the instance and request to the reply shape the bot reads |

The methods that call services also return the list of requests they make, in order. This lets the contracts state which services are asked, and when.

Both source files carry the same pipeline:

- `index.js` is the long-running bot.
- `api/webhook.js` is the serverless copy.

The copies differ in one place, the target rule at `api/webhook.js:178`. It compares the detected source with `uk`/`ru` without lower-casing it. That rule is modelled separately as `Bot.TargetWebhook`, and `Bot.TargetsAgreeOnDetectedSources` proves that the two rules agree on every source `detectLang` can produce. The rows below cite `index.js` where both copies are the same. They cite `api/webhook.js` where its copy is the one described.

The source and its comments disagree in one place. The comment at `index.js:41` and the help text at `index.js:163` say that `привыт` becomes `привіт`. The code maps ы to и, so it produces `привит`. The model follows the code: `Normalizer.ExampleRussianLetter` proves `привит`. `Normalizer.ExampleMixedWord` shows that `привіт` comes out only when the и is typed as a Latin `i`.

## Model

| member | source | states |
|---|---|---|
| Chars.Tokens | index.js:53 | `split(/(\s+)/)` yields runs that alternate between whitespace and non-whitespace and that join back into the text |
| Chars.TokensOfJoin | index.js:52-59 | splitting the join of such runs gives the runs back, so `split` undoes `join` |
| Chars.SplitOnSpaces | index.js:173 | `split(/\s+/)` yields a non-empty list of parts, none containing whitespace |
| Chars.TokensOfSpaced | index.js:53 | for a text of words separated by whitespace, between optional blank ends, `split(/(\s+)/)` gives the leading whitespace, the words and separators alternating, and the trailing whitespace |
| Chars.SplitOnSpacesOfSpaced | index.js:173 | for such a text, `split(/\s+/)` gives the words in order, with an empty part in front exactly when the text starts with whitespace and one at the end exactly when it ends with whitespace; the non-space runs are exactly the words |
| Chars.TrimOfSpaced | index.js:173 | `trim` on such a text removes exactly its blank ends and keeps the words and separators |
| Chars.TrimStart | index.js:173 | `trimStart` removes exactly a whitespace prefix, and what remains does not start with whitespace |
| Chars.TrimEnd | index.js:173 | `trimEnd` removes exactly a whitespace suffix, and what remains does not end with whitespace |
| Chars.Trim | index.js:173 | the trimmed text is no longer than the input and neither starts nor ends with whitespace |
| Chars.TrimIsSlice | index.js:173 | the trimmed text is the slice of the input that follows its leading whitespace, and only whitespace comes after it |
| Chars.TrimUnique | index.js:173 | any slice with only whitespace around it that neither starts nor ends with whitespace is the trimmed text, so `trim` is determined by that description |
| Chars.LowerIsLowerCase | index.js:28 | lower-casing twice is lower-casing once |
| Chars.Lower | index.js:28 | `toLowerCase` keeps the length and lower-cases each character on its own |
| Chars.IsSpace | index.js:53 | the characters JavaScript's `\s` matches, which `trim` also strips |
| Chars.IsCyrillic | index.js:22 | the class `[А-Яа-яІіЇїЄєҐґЁёЪъЫыЭэ]` of `hasCyr` |
| Chars.IsUkrainianOnly | index.js:23 | the class `[ІіЇїЄєҐґ]` of `looksUkr` |
| Chars.IsRussianOnly | index.js:24 | the class `[ЁёЪъЫыЭэ]` of `looksRus` |
| Chars.IsBasicCyrillic | index.js:49 | the class `[А-Яа-яІіЇїЄєҐґ]` of `isCyr` in `normalizeMixed`, without Ё/ё |
| Normalizer.NormalizeMixed | index.js:42-60 | `normalizeMixed` as defined: split into runs, normalise every run, join; its properties are the lemmas below |
| Normalizer.RusToUkr | index.js:48 | ы/Ы/э/Э become Cyrillic letters and ъ/Ъ the apostrophe ʼ; every other character is kept |
| Normalizer.LatinToCyr | index.js:43-47 | a changed character is a Latin letter that becomes a Cyrillic one, and no Latin letter is produced |
| Normalizer.NormalizeToken | index.js:54-58 | per character: table letters are replaced; other non-Latin characters stay; Latin letters stay unless the token is mixed after the first step; in a mixed token no look-alike survives, and other Latin letters stay |
| Normalizer.MixedAfterReplacement | index.js:55-56 | a token is mixed after the ы/э/ъ step exactly when it has a Latin letter and a basic Cyrillic letter other than ъ/Ъ |
| Normalizer.NormalizeMixedSteps | index.js:52-59 | `normalizeMixed` keeps the length, and each character either stays or is replaced as the tables allow |
| Normalizer.NormalizeMixedRemovesRussian | index.js:48-55 | the result contains none of ы, Ы, э, Э, ъ, Ъ |
| Normalizer.NormalizeTokenIdempotent | index.js:54-58 | normalising a token twice equals normalising it once |
| Normalizer.TokensOfNormalized | index.js:52-59 | the whitespace runs of the normalised text are the normalised runs of the input |
| Normalizer.NormalizeMixedIdempotent | index.js:42-60 | `normalizeMixed` is idempotent |
| Normalizer.NormalizeMixedWithoutCyrillic | index.js:49-56 | text without Cyrillic letters is returned unchanged |
| Normalizer.ExampleRussianLetter | index.js:48-55 | `привыт` becomes `привит`, not the `привіт` of the comment at line 41 |
| Normalizer.ExampleMixedWord | index.js:56 | `прив` + Latin `i` + `т` becomes `привіт` |
| LanguageTool.Slice | index.js:86-90 | `slice` within bounds is the sub-sequence between them; it is empty when the bounds cross or start past the end |
| LanguageTool.SliceConcat | index.js:86-87 | `slice` over two adjacent ranges concatenates to the slice over their union |
| LanguageTool.SortByOffset | index.js:81 | the matches come out ordered by `offset ?? 0`, as many as went in |
| LanguageTool.SortPermutes | index.js:81 | the sort is a permutation of the matches |
| LanguageTool.SortIsStable | index.js:81 | the sort is stable: matches at the same offset keep their input order |
| LanguageTool.NextCursor | index.js:85-88 | the cursor never moves backwards |
| LanguageTool.Splice | index.js:83-90 | what the loop appends from a cursor: the text up to each match at or after the cursor, that match's piece, and the rest of the text; matches before the cursor add nothing |
| LanguageTool.SpliceMatches | index.js:82-91 | the loop builds the splice of the sorted matches, and its cursors form a non-decreasing walk |
| LanguageTool.ApplyReplacements | index.js:80-92 | `applyLTReplacements` equals the splice of the stably sorted matches, and its cursor never decreases |
| LanguageTool.AppliedDoNotOverlap | index.js:85-88 | the matches the loop applies start at or after the cursor and do not overlap one another |
| LanguageTool.SpliceOfApplied | index.js:85 | a skipped match, one that overlaps an applied one, contributes nothing |
| LanguageTool.SpliceOfCoveredText | index.js:86-90 | when every piece is its original span, the splice from a cursor is the rest of the text |
| LanguageTool.NoReplacementKeepsText | index.js:80-92 | with no string replacement in any match, the text comes back unchanged |
| LanguageTool.Autocorrected | index.js:72-77 | a failed request or an empty match list leaves the text unchanged |
| LanguageTool.AutocorrectWithLanguageTool | index.js:63-79 | the autocorrected text; unchanged when no match carries a replacement |
| Detector.DetectLang | index.js:95-109 | Cyrillic text is `uk` with a Ukrainian-only letter, else `ru` with a Russian-only letter, else `uk`; other text gets the detector's code lower-cased when it has two characters, else `en` |
| Detector.DetectedCodeIsLowerPair | index.js:96-108 | the detected code is always two lower-case characters |
| Detector.DetectorConsultedOnlyWithoutCyrillic | index.js:96-101 | the detector's answer is ignored for text with Cyrillic letters; for text without them the code depends on that answer alone, not on the text |
| Detector.CyrillicIsUkrainianOrRussian | index.js:96-100 | Cyrillic text is `uk` or `ru`, and `ru` exactly without Ukrainian-only and with Russian-only letters |
| Detector.RussianAfterNormalizingNeedsYo | index.js:96-100 | once ы/э/ъ are gone, as after `normalizeMixed`, Cyrillic text is `ru` only through Ё/ё |
| Detector.SharedLettersAreUkrainian | index.js:99 | `привит`, with only letters the two alphabets share, is `uk` |
| LangCodes.AliasIsCanonical | api/webhook.js:19-23 | every value of the alias table maps to itself and is a lower-case ASCII code |
| LangCodes.NormLang | api/webhook.js:16-25 | `null` for the empty code; a result exactly when the lower-cased code is in the table, and then a canonical lower-case code |
| LangCodes.NormLangIgnoresCase | api/webhook.js:18 | `normLang` does not depend on letter case |
| LangCodes.NormLangFixedPoint | api/webhook.js:19-24 | every non-null result is a fixed point of `normLang` |
| LangCodes.NormLangChinese | api/webhook.js:21-22 | `zh`, `zh-hans` and `zh-cn` give `zh-cn`; `zh-hant` and `zh-tw` give `zh-tw` |
| LangCodes.MemoryPairCode | api/webhook.js:27-30 | a table code becomes its table value, `ZH-CN` or `ZH-TW`; every other code is returned as it is; only letter case ever changes, and a code without a bar stays without one |
| LangCodes.MemoryPairCodeExamples | api/webhook.js:27-30 | `zh-cn` and `zh-tw` are upper-cased; `Zh-cn`, not an exact key, and `uk` are left as they are |
| LangCodes.NormLangAsWritten | index.js:26-35 | the code as written returns null for the empty code, and never a method of `Object.prototype`, because the key is lower-cased first |
| LangCodes.ObjectLookup | index.js:34 | `map[key]` on an object literal finds an own key's value, and otherwise something exactly for the inherited names: `constructor`, `__proto__` and the ten methods of `Object.prototype` |
| LangCodes.LowerIsNoPrototypeMethod | index.js:28 | a lower-cased key never names a method of `Object.prototype`, since each of those names holds a capital letter |
| LangCodes.NormLangAsWrittenAgrees | index.js:29-34 | apart from the inherited names `constructor` and `__proto__`, the code as written returns what `normLang` should |
| LangCodes.NormLangAsWrittenLeaksConstructor | index.js:34 | `normLang("Constructor")` as written returns the inherited `Object` function instead of null |
| LangCodes.MemoryPairCodeAsWritten | index.js:36-39 | as written, `map[code] || code` agrees with `MemoryPairCode` on every code except the inherited names; since the key is not lower-cased, a method name such as `toString` gives that inherited method |
| LangCodes.MemoryPairCodeAsWrittenOnLowerCase | index.js:36-39 | on a lower-case code, the as-written lookup agrees with `MemoryPairCode` except on `constructor` and `__proto__` |
| LangCodes.MemoryPairCodeAsWrittenLeaksConstructor | index.js:36-39 | as written, the code `constructor` gives the inherited `Object` function instead of itself |
| Providers.MyMemoryPair | index.js:114 | the `langpair` is as long as the two codes and a bar, with the bar right after the source code |
| Providers.MyMemoryPairSplits | index.js:114 | the `langpair` splits at its bar back into the two codes, up to letter case |
| Providers.TranslateMyMemory | index.js:112-125 | a result exactly when the reply has a non-empty text, and then that text trimmed |
| Providers.LibreText | index.js:135 | the first truthy one of `translatedText`, `translated_text`, `d[0].translatedText`, and nothing when none is |
| Providers.FirstLibreResult | index.js:128-141 | nothing when no instance answers with a text; otherwise the trimmed text of the first instance, in list order, that has one |
| Providers.TranslateLibre | index.js:126-142 | the instances are tried in order and stop at the first text; every instance before it had none; the result is that text trimmed, or null after both failed |
| Providers.SourceOrAuto | index.js:144 | a missing source becomes `auto`; a given one is kept |
| Providers.SameLanguage | index.js:145 | the chain's guard holds only for a known source, other than `auto`, that equals the target up to letter case |
| Providers.Translation | index.js:143-151 | nothing when source and target agree; otherwise MyMemory's trimmed text when it is non-empty, else LibreTranslate's first trimmed text when that is non-empty, else nothing; a result is never empty |
| Providers.MyMemoryComesFirst | index.js:146-147 | once MyMemory has a text, LibreTranslate's answer does not matter |
| Providers.AllProvidersFail | index.js:143-151 | when every provider fails there is no translation |
| Providers.LibreStage | index.js:126-142 | LibreTranslate's result, the first trimmed text; the requests go to the instances in list order and stop after the first one that answers with a text, every earlier one having answered without |
| Providers.LibreTraceDeterminesCalls | index.js:128-141 | the instances' answers fix the requests the LibreTranslate stage posts |
| Providers.TranslateSmartToTarget | index.js:143-151 | the result is the fallback chain's; nothing is called exactly when a known source equals the target case-insensitively; otherwise MyMemory is asked first, with `auto` for a missing source, and LibreTranslate's instances only when MyMemory gave no non-empty text, in order, stopping after the first that answers with a text |
| Providers.ChainTraceDeterminesCalls | index.js:143-151 | the services' answers fix the requests the chain makes |
| Bot.SetLangArgument | index.js:173-174 | the argument, when there is one, is a non-empty lower-case word |
| Bot.SetLangReadsSecondWord | index.js:173-175 | for any message of words separated by whitespace, between optional blank ends, the argument is the second word lower-cased, whatever follows it; a message of one word has none |
| Bot.SetLangOfBlank | index.js:173-175 | an empty message, or one of whitespace only, has no argument |
| Bot.StoredCode | index.js:176 | the canonical code when the argument is in the table, else the argument itself |
| Bot.StoredCodeIdempotent | index.js:176 | storing a stored code again changes nothing |
| Bot.StoredCodeIsLowerWord | index.js:176 | a stored code is a non-empty lower-case word |
| Bot.PrefStore.constructor | index.js:19 | the store starts empty |
| Bot.PrefStore.Preference | index.js:201 | `userPrefs.get(id)`: the stored code exactly when the user has one |
| Bot.PrefStore.SetLang | index.js:172-179 | without an argument nothing is stored and the usage hint is sent; otherwise the stored code is written under the sender, replacing any earlier code, and the confirmation names it; every stored code stays a lower-case word |
| Bot.PrefStore.MyLang | index.js:168-171 | the reply names the stored code, or `(не встановлено)` |
| Bot.DefaultTarget | index.js:206-207 | `pl` exactly for `uk` and `ru`, else `ru` |
| Bot.Target | index.js:202-208 | the lower-cased preference when there is one, else the default for the lower-cased source; always a non-empty lower-case code |
| Bot.TargetWebhook | api/webhook.js:178 | the lower-cased preference, else the default for the source as it is |
| Bot.TargetsAgreeOnDetectedSources | api/webhook.js:178 | both target rules agree on every code `detectLang` returns |
| Bot.TargetsDifferOnUpperCase | api/webhook.js:178 | for a source `UK` the rules differ: `pl` versus `ru` |
| Bot.SkipSameLanguage | index.js:211 | the handler's check: a source and a target, both present, where the lower-cased source is the target |
| Bot.DefaultNeverSkips | index.js:203-211 | without a preference the handler never skips for same language |
| Bot.PreferenceSkipsOwnLanguage | index.js:211 | with a preference the handler skips exactly when the source is the preferred language |
| Bot.ChainGuardAfterSkip | index.js:211 | after the handler's check, the chain's own same-language guard never fires |
| Bot.PrefixCalls | index.js:189-195 | LanguageTool is always called; the detector only for text without Cyrillic letters |
| Bot.HandlerReply | index.js:186-219 | the handler's reply to a message: the reply after detection, for the normalised and corrected text and its detected language |
| Bot.ReplyFor | index.js:201-219 | a reply exists exactly when the handler does not skip and the chain returns a translation |
| Bot.ReplyText | index.js:217 | the reply ends with the translation, on a line of its own after the header |
| Bot.NoReplyInPreferredLanguage | index.js:203-211 | a message already in the preferred language gets no reply |
| Bot.ReplyNamesTwoLanguages | index.js:214-219 | every reply is `Переклад (src→target):` over a non-empty translation, with target different from src |
| Bot.DefaultIsPolishForUkrainian | index.js:207 | Ukrainian goes to Polish by default |
| Bot.PryvytGoesToPolish | index.js:189-208 | `привыт` is corrected to `привит`, detected as `uk` and sent to `pl` |
| Bot.Prepare | index.js:189-195 | the normalised and autocorrected text, and the requests made before translating |
| Bot.Respond | index.js:200-219 | the reply of the handler's second half; only translation services are called, none when it skips, and otherwise exactly the chain's requests, MyMemory first |
| Bot.HandleText | index.js:182-223 | messages from bots are ignored; otherwise the reply is the pipeline's, and the calls are LanguageTool, the detector for non-Cyrillic text, then the translation chain's requests, which are empty exactly when the handler skips |
| Bot.StoredAsWritten | index.js:176-177 | as written, what `/setlang` stores for every argument other than `constructor` and `__proto__`, the only inherited names a lower-cased key can hit |
| Bot.TargetAsWritten | index.js:203-208 | as written, the target for a missing or string preference |
| Bot.TargetMemoryPairCodeAsWritten | index.js:203-208 | the target is lower case, so the as-written `memoryPairCode` can go wrong on it only for `constructor` and `__proto__`, never for a method of `Object.prototype` |
| Bot.SetLangConstructorSilencesUser | index.js:176-204 | as written, `/setlang constructor` stores a function, and every later message throws and gets no reply; the corrected store keeps `constructor`, which then reaches `memoryPairCode` as the target, where the as-written lookup would return `Object` again and the own-key lookup returns `constructor` |

## Left out

- Network transport is not modelled: HTTP requests, their timeouts, the JSON parsing and the `try`/`catch` around each call. A failed call is an absent answer.
- The LanguageTool and detector answers are parameters. This covers the URLs and request bodies at index.js:65-71 and index.js:102-104.
- Telegraf wiring is not modelled: `bot.start`, `bot.help` and their texts, `bot.launch`, the signal handlers, `reply_to_message_id`, and any failure of `ctx.reply` itself.
- The serverless wrapper is not modelled: the `module.exports` handler and the `ensureBot` cache in `api/webhook.js`.
- Configuration is not modelled: environment variables, dotenv, `process.exit`, and console logging.
- Concurrency is not modelled: async/await and the interleaving of handlers for different messages. Each handler run is modelled as one sequential step.
- `api/webhook.js` quotes its help text and replies at lines 149-182 with escaped backticks outside string literals. Taken literally, the file does not parse. The model assumes the evident template literals.
- Chars.Lower: lower-cases only the Latin and Cyrillic alphabets used here (ASCII, А-Я, Ѐ-Џ, Ґ), not the full Unicode case mapping of `toLowerCase`.
- LanguageTool.Slice: string indices are code points, not UTF-16 code units. This matters for LanguageTool offsets in text beyond the Basic Multilingual Plane.
- LanguageTool.Off: offsets and lengths are natural numbers. The negative and non-numeric values JavaScript would accept are not modelled, since LanguageTool never sends them.
- Detector.DetectLang: "length 2" counts characters, not UTF-16 code units.
- Chars.Tokens: the empty strings `split(/(\s+)/)` yields at the ends of the text are not produced. They normalise to themselves and add nothing to the join.
- Providers.LibreText: truthy values that are not strings, which `String(t)` would convert, are not modelled. Reply fields are optional strings.
- Providers.TranslateMyMemory: a non-string `translatedText` is an absent answer, as the `typeof` check makes it.
- LangCodes.MemoryPairCode: models the own-key lookup of `memoryPairCode`, not the inherited-member lookup the code as written also does; `LangCodes.MemoryPairCodeAsWritten` models that. Its key is not lower-cased, so the methods of `Object.prototype` (`toString`, `valueOf` and the others) are found as well, but only lower-case targets reach it (`Bot.TargetMemoryPairCodeAsWritten`). In the program as written the difference is unreachable, because `normLang` already turns `constructor` and `__proto__` into non-strings and the handler throws before translating. Once `normLang` is corrected, the target `constructor` does reach `memoryPairCode` (`Bot.SetLangConstructorSilencesUser`), so the correction needs the own-key lookup in `memoryPairCode` too, and the model uses it.
- Bot.SetLangConstructorSilencesUser: the text of the confirmation sent when a function is stored is not modelled, only what is stored and what follows.

## Findings

| source | as written | input that shows it | evidently intended | confidence | as-written member | corrected member |
|---|---|---|---|---|---|---|
| index.js:26-35 | the lookup `map[code]` on a plain object literal also finds inherited members; `normLang` returns the `Object` function for `constructor` and `Object.prototype` for `__proto__` | `normLang("Constructor")` | only the table's own keys: `null` for any other code | not executed | LangCodes.NormLangAsWrittenLeaksConstructor | LangCodes.NormLang |
| index.js:172-211 | `/setlang constructor` stores that function; at the next message `pref.toLowerCase()` throws, the handler's `catch` swallows it, and the user never gets a translation again until another `/setlang` | `/setlang constructor`, then any text | the argument is stored as the string `constructor` and used as the target; `memoryPairCode` then needs the own-key lookup too, or it returns `Object` for that target | not executed | Bot.SetLangConstructorSilencesUser | Bot.StoredCode |
