# Chinese names for English names: the `/generate-name` pipeline

This project models the name-generation core of the `POST /generate-name`
handler in `server.js`. Given an English name, the handler:

1. rejects a missing or empty name with status 400;
2. splits the name into a given name and a surname (`splitEnglishName`);
3. synthesizes three names from glyph tables keyed by the initials, with the
   defaults `'w'` and `'l'` (`generateChineseNameFromEnglish`);
4. builds a pool from the pattern buckets whose regular expression matches,
   followed by a fixed list of additional names;
5. shuffles the pool with a linear congruential generator seeded from the
   name and the clock (`createSeed`, `shuffleArray`);
6. selects up to three database names. It skips names already served for
   the same English name unless fewer than three would remain, takes one
   name of each length 2, 3 and 4 where it can, and fills up without
   replacement. It records the picks in the process-wide history
   `global.generatedNameSets`;
7. answers with the first three of the synthesized names followed by the
   selected names.

There are seven modules, one per stage:

- `NameModel` holds the shared values and the draw-to-index rule.
- `NameSplitting` holds `trim`, `split(/\s+/)`, `join` and `splitEnglishName`.
- `NameSynthesis` holds the table lookup and name assembly.
- `NameDatabase` holds the buckets and the pool.
- `SeededShuffle` holds `createSeed` and `shuffleArray`.
- `NameSelection` holds the filter, the two selection loops and the history class `NameHistory`.
- `GenerateNameRoute` holds the handler.

Randomness and time are parameters:

- A `Math.random()` value is a real draw `r` with `0 <= r < 1`. The index it
  selects in a list of length `n` is `Math.floor(r * n)`.
- `Date.now()` is a non-negative integer `now`.
- The glyph tables and the buckets are parameters too. The tables must
  satisfy `ValidTables`: the default letters `'w'` and `'l'` have entries,
  and every list the handler draws from is non-empty.

Four behaviours of the code are easy to misread:

- Whitespace-only input is accepted. `!englishName` (server.js:70) rejects
  only a missing or empty name, so `"   "` passes. Names are then
  synthesized from an empty given name, which falls back to the `'w'` list.
  `GenerateName` and `SplitEnglishNameSpec` state this behaviour.
- The surname is the last token, and all earlier tokens, joined by single
  spaces, form the given name (server.js:16-22).
- `IsSpace` lists every character that JavaScript's `trim` and `\s` treat as
  white space, not only the ASCII ones.
- The three names of an answer can coincide. They are drawn independently
  (server.js:301-304), and the history and the no-repeat filter apply only to
  the database names, which never reach the answer. `AnswerMayRepeat` shows
  an answer holding one name three times.

## Model

| member | source | states |
|---|---|---|
| `NameModel.ToLower` | server.js:255-256 | Lowering maps exactly the ASCII capitals to their lower-case letters, leaves every other character alone, and never returns a capital. |
| `NameModel.RandomIndex` | server.js:268-269 | The index `Math.floor(r * n)` that a draw selects lies in `[0, n)`. A draw of 0 selects index 0. |
| `NameModel.ScaledIsProduct` | server.js:268 | The n-fold sum behind `RandomIndex` equals the product `r * n`, so `RandomIndex` is exactly `Math.floor(r * n)`. |
| `NameSplitting.LeadingSpaces` | server.js:16 | The prefix that `trim` drops at the front is all white space, and the character after it is not white space. |
| `NameSplitting.TrailingSpaces` | server.js:16 | The suffix that `trim` drops at the end is all white space, and the character before it is not white space. |
| `NameSplitting.Trim` | server.js:16 | The trimmed string has no white space at either end. |
| `NameSplitting.BlankTrim` | server.js:16 | Trimming gives the empty string exactly when the input is all white space. |
| `NameSplitting.SplitRuns` | server.js:16 | `split(/\s+/)` always returns at least one piece. |
| `NameSplitting.SplitRunsSpaceFree` | server.js:16 | No piece of the split contains white space. |
| `NameSplitting.SplitRunsNonEmpty` | server.js:16 | Without trailing white space, every piece after the first is non-empty. The first piece is non-empty too when there is no leading white space. |
| `NameSplitting.SplitTrimmedWords` | server.js:16 | A trimmed, non-empty string splits into non-empty, white-space-free tokens. |
| `NameSplitting.SplitRunsSingle` | server.js:16-18 | The split has one piece exactly when the string has no white space, and that piece is then the whole string. |
| `NameSplitting.SplitRunsWordPrefix` | server.js:16 | A white-space-free word in front of a string is glued to the first piece of that string's split. |
| `NameSplitting.SplitAfterSpace` | server.js:16 | One space in front of a string that starts with a non-space adds one empty piece in front of its split. |
| `NameSplitting.SplitWordSpace` | server.js:16 | A word, a space and a string split into the word followed by the string's pieces. |
| `NameSplitting.JoinWordsTrimmed` | server.js:21 | Words joined by single spaces form a non-empty string with no white space at either end. |
| `NameSplitting.SplitJoin` | server.js:16-21 | Round trip: words joined with `' '` split back into the same words. |
| `NameSplitting.JoinSnoc` | server.js:20-21 | Joining with one more word appends a space and that word. |
| `NameSplitting.SplitOneToken` | server.js:17-18 | With one token, the given name is the trimmed input and the surname is empty. |
| `NameSplitting.SplitManyTokens` | server.js:19-22 | With several tokens, the surname is the last token, non-empty and free of white space. The given name is non-empty, and given name, space and surname re-join all tokens. |
| `NameSplitting.SplitEnglishNameSpec` | server.js:15-24 | `splitEnglishName` in full: one token, several tokens, and a given name that is empty exactly when the input is blank. |
| `NameSplitting.SplitEnglishNameOfWords` | server.js:15-24 | A name written as words separated by single spaces splits into the earlier words joined (given name) and the last word (surname). |
| `NameSynthesis.FirstNameChars` | server.js:255-260 | The list the given-name glyph is drawn from is never empty. |
| `NameSynthesis.LastNameChars` | server.js:256-265 | The surname list is empty exactly when there is no surname. |
| `NameSynthesis.LookupByInitial` | server.js:255-265 | A present initial selects its own list. A missing initial selects the `'w'` list for the given name and the `'l'` list for a surname. The choice depends only on the initial, up to ASCII case. |
| `NameSynthesis.GenerateChineseName` | server.js:253-298 | The name has two glyphs without a surname and three with one, surname first. Each glyph comes from the list its position draws from. The Chinese name is the glyph characters in that order, and the pinyin is their pinyin joined by single spaces. |
| `NameSynthesis.GeneratedLength` | server.js:276-286 | With single-character glyphs, a synthesized name has 2 characters without a surname and 3 with one. |
| `NameSynthesis.PinyinSplitsIntoGlyphs` | server.js:279-284 | When every table pinyin is one word, splitting a synthesized pinyin on white space gives back the glyphs' pinyin in order. |
| `NameSynthesis.CustomNames` | server.js:301-304 | The loop yields exactly three names, the k-th synthesized from the k-th set of draws. |
| `NameDatabase.Matching` | server.js:307 | The filter keeps exactly the buckets whose pattern matches the input, and no more buckets than there are. |
| `NameDatabase.MatchingAppend` | server.js:307 | Filtering distributes over concatenation of bucket lists, so the matching buckets keep their declared order. |
| `NameDatabase.FlattenMembers` | server.js:312-314 | A name is in the concatenated bucket names exactly when some bucket holds it. |
| `NameDatabase.CollectAvailableNames` | server.js:307-345 | The statements building `availableNames` produce `AvailableNames`. That is the matching buckets' names in declared order, or the last bucket's names when none matches, followed by the additional names. |
| `NameDatabase.PoolLayout` | server.js:216-345 | With the catch-all bucket last, some bucket always matches, so the fallback branch is unreachable. The pool is then the matching first-letter buckets' names, the catch-all's names and the additional names, in that order. |
| `NameDatabase.PoolMembers` | server.js:216-345 | A name is in the pool exactly when it is an additional name or belongs to a matching bucket. The catch-all's names are always in the pool, so the pool is non-empty when they are. |
| `SeededShuffle.CreateSeed` | server.js:349-356 | The seed is the sum of each character code times its one-based position, plus the supplied timestamp. |
| `SeededShuffle.PositionWeightedSnoc` | server.js:351-353 | Reading the name front to back, one more character adds its code times its weight. |
| `SeededShuffle.WeightedCodeSumFromFront` | server.js:349-356 | The sum `CreateSeed` is specified with equals the front-to-back sum of each code times its one-based position, as the loop reads the name. |
| `SeededShuffle.JsRemainder` | server.js:362 | JavaScript's `%`: the remainder lies in `[0, m)` for a non-negative dividend and in `(-m, 0]` for a negative one, and the dividend is `m` times the truncated quotient plus the remainder. |
| `SeededShuffle.NextSeed` | server.js:362 | From a non-negative state, the next generator state lies in `[0, 233280)`. |
| `SeededShuffle.ScaledIndex` | server.js:361-364 | `random(max)` returns an index in `[0, max)`. |
| `SeededShuffle.Swap` | server.js:368 | A swap keeps the length and the multiset of elements. |
| `SeededShuffle.Picks` | server.js:361-367 | The generator chooses one partner for each position from the last down to 1. |
| `SeededShuffle.PicksValid` | server.js:366-367 | Every partner lies in `[0, i]` for its position i. |
| `SeededShuffle.SwapDownPermutes` | server.js:366-369 | Swapping down with any partners keeps the length and the multiset. |
| `SeededShuffle.ShuffledPermutes` | server.js:359-371 | `shuffleArray` returns a permutation of its input. |
| `SeededShuffle.ShuffleStep` | server.js:366-369 | One loop iteration advances the state, swaps position i with the chosen partner, and continues at i - 1. |
| `SeededShuffle.ShuffleInPlace` | server.js:361-369 | The in-place swap loop leaves the array holding `Shuffled` of its old contents. |
| `SeededShuffle.ShuffleArray` | server.js:359-371 | The copy is shuffled and returned. The result is `Shuffled(items, seed)`, has the input's length and is a permutation of the input. |
| `NameModel.JsLengthBounds` | server.js:398-400 | `length` counts each character as one or two UTF-16 code units. |
| `NameModel.JsLengthBmp` | server.js:398-400 | `length` equals the number of characters exactly when no character lies above U+FFFF. |
| `NameSelection.ByLength` | server.js:397-401 | The filter keeps exactly the names whose Chinese name has the given `length`, counted in UTF-16 code units. |
| `NameSelection.LengthsPresent` | server.js:404-405 | After t rounds, at most t lengths are collected. |
| `NameSelection.LengthsPresentOrdered` | server.js:404-405 | The collected lengths lie between 2 and t + 1 and ascend strictly. |
| `NameSelection.LengthsPresentMembers` | server.js:404-405 | A length is collected exactly when it is between 2 and t + 1 and some name has it. |
| `NameSelection.FindByChinese` | server.js:410 | `findIndex` returns -1 exactly when no entry has the key. Otherwise it returns the first index whose entry has the key. |
| `NameSelection.RemoveAtFacts` | server.js:411 | `splice(k, 1)` shortens the list by one, and the removed entry and its Chinese name leave the multisets once. |
| `NameSelection.RemoveAtMembers` | server.js:411 | `splice(k, 1)` keeps every other entry and adds none. |
| `NameSelection.Unserved` | server.js:383-385 | The filter keeps exactly the names whose Chinese name was not served before. Its Chinese names are a sub-multiset of the input's. |
| `NameSelection.UnservedFresh` | server.js:383-385 | Names taken from the unserved ones repeat no Chinese name served before. |
| `NameSelection.UnservedDistinct` | server.js:383-385 | Filtering keeps the Chinese names pairwise different when they were. |
| `NameSelection.PickStillPooled` | server.js:410 | A pick whose Chinese name no earlier pick has is still found in the pool. |
| `NameSelection.DiversityStep` | server.js:406-411 | A round finds its pick in the pool and removes one entry with that Chinese name. Picks and pool together still hold each Chinese name of the names to use exactly as often. |
| `NameSelection.PicksStep` | server.js:405-407 | A round that finds names of its length appends one, and its Chinese name differs from every earlier pick's. |
| `NameSelection.PicksSkip` | server.js:405 | A round that takes no name appends nothing and keeps the picks in order. |
| `NameSelection.RoundStep` | server.js:405-411 | Both effects of a round that picks. |
| `NameSelection.PickOfLength` | server.js:405-412 | One round keeps the loop invariant: one pick per length present, in order, and picks plus pool split the names to use. |
| `NameSelection.PickOnePerLength` | server.js:404-413 | The diversity loop leaves, in order, one pick for each of the lengths 2, 3 and 4 that occur, all from the names to use. The pool is the rest. |
| `NameSelection.MoveStep` | server.js:416-420 | Moving pool entry i to the picks keeps the names, and their Chinese names, split between picks and pool. |
| `NameSelection.FillUpToThree` | server.js:416-420 | The fill loop adds `min(3 - picked, pool size)` names, drawn from the pool without replacement. |
| `NameSelection.PickNames` | server.js:395-420 | Both loops together satisfy `PickedFrom`: `min(3, n)` names from the names to use, without replacement by Chinese name, with the lengths that occur first and in order. |
| `NameSelection.PickedParts` | server.js:395-420 | The diversity picks followed by the fill picks satisfy `PickedFrom`. |
| `NameSelection.SelectionCoversLengths` | server.js:403-413 | Every length 2, 3 or 4 that occurs among the names to use occurs among the selected names. The diversity picks have pairwise different lengths. |
| `NameSelection.SelectionDistinct` | server.js:395-420 | When the Chinese names to use are pairwise different, so are the selected ones. |
| `NameSelection.NameHistory.constructor` | server.js:77-79 | The history starts empty. |
| `NameSelection.NameHistory.SelectNames` | server.js:380-426 | The selection is drawn as `PickedFrom` states, from the unserved names or, after a reset, from all names. Without a reset it repeats no Chinese name served before. The entry becomes the kept (or emptied) history followed by the picks, and no other entry changes. |
| `GenerateNameRoute.FinalNames` | server.js:429-432 | `slice(0, 3)` of the concatenation: `min(3, total)` names, the synthesized ones first, then the selected ones. |
| `GenerateNameRoute.FinalNamesAreCustom` | server.js:429-432 | With three synthesized names, the answer is exactly those names. |
| `GenerateNameRoute.OneGlyphDrawsAgree` | server.js:259-286 | With tables offering one glyph per list (which satisfy `ValidTables`), any two sets of draws synthesize the same name. |
| `GenerateNameRoute.AnswerMayRepeat` | server.js:301-432 | Nothing makes the answer names distinct: with one-glyph tables the answer holds three names, all equal. |
| `GenerateNameRoute.BuildPool` | server.js:307-377 | The pool is the shuffle of the collected names and a permutation of them. |
| `GenerateNameRoute.RecordedAfterSelect` | server.js:423-426 | After a selection, the history entry is the kept history followed by the picks. |
| `GenerateNameRoute.UpdatedAfterSelect` | server.js:388-426 | The history after a selection is updated as `Updated` describes: the entry is recorded, and every other English name keeps its entry or its absence. |
| `GenerateNameRoute.GenerateName` | server.js:66-435 | A missing or empty name gets the 400 answer and the history is unchanged. Otherwise the answer is exactly the three synthesized names. The history entry records the selection from the shuffled pool, and no other entry changes. |

## Left out

- HTTP plumbing is left out because it is I/O: Express, `cors`, `body-parser`, the static files, `app.listen`, JSON serialisation of the answer, and the 500 answer of the `catch` block (server.js:1-12, 468-476).
- The commented-out DeepSeek request (server.js:437-466) is left out because it is dead code that calls a network service.
- The module-level snippet at server.js:58-63 is left out. It refers to `selectedChars`, which is never defined. Loading the file as written would therefore stop with a reference error before any route exists; the model describes the handler as if the snippet were absent.
- The table data itself is left out; the tables are parameters restricted by `ValidTables`. The `phoneticMapping` in the file has only `'a'` and `'b'`, and no `'w'` entry, `lastNameInitials` or `secondChars`. With those tables the lookups at server.js:259-269 fail, and the request ends in the 500 answer that is not modelled.
- The bucket and additional-name data is a parameter, not transcribed. `CatchAllLast` states how the file declares the buckets.
- The rationale prose (server.js:280, 285, 289) is left out. It is represented by the glyphs and names it is built from (`Composed`). The texts read a `meaning` field that the table entries in the file do not define. Line 289 calls `.replace` on that field, so an entry shaped like the ones in the file makes the request end in the 500 answer. `Glyph.meaning` assumes the field is present.
- The `englishMeaning`/`chineseMeaning` fields of a synthesized name are left out for the same reason.
- `NameModel.RandomIndex` and `SeededShuffle.ScaledIndex` compute `Math.floor(r * n)` and `Math.floor(state / 233280 * max)` with exact rationals, not IEEE doubles.
- `SeededShuffle.NextSeed` computes `seed * 9301 + 49297` with unbounded integers. In JavaScript the first step exceeds 2^53 for current timestamps and is rounded, so the model does not claim bit-exact generator output. It keeps only the range property that the index bounds need.
- `SeededShuffle.CharCode` is a Unicode code point, and `CreateSeed` loops once per character. `charCodeAt` and `name.length` work on UTF-16 code units, which differ for characters outside the Basic Multilingual Plane.
- `NameModel.ToLower` lowers ASCII letters only. `toLowerCase` also lowers other scripts, which changes only the lookup key and the `/^x/i` test for non-ASCII initials.
- A non-string `englishName` (a number, an array, an object) is left out; the model takes an optional string.
- English names that collide with inherited object keys (such as `"constructor"`) are left out. For them `global.generatedNameSets[englishName]` is not an array and the request fails; the history is modelled as a map.
- Concurrent requests sharing `global.generatedNameSets` are left out; each request is one atomic step of `NameHistory`.
- The browser scripts (`script.js`, `public/`) are left out because they are UI code.
- `NameSelection.PickOnePerLength` states without replacement on the multiset of Chinese names, not on entries. After the pick, `findIndex` and `splice` remove the first entry with the same Chinese name, which need not be the very entry picked when two entries share a Chinese name.
