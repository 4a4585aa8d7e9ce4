# I Ching oracle — a Dafny model

This project models the core of an I Ching application. It comes in two editions:

- a web app: React hooks and an Express server;
- the original desktop script, `iching_4.py`.

A reading is six lines. Each line is the sum of three coins, with yin counting 2 and yang counting 3, so a line is worth 6, 7, 8 or 9. Lines 6 and 9 are "changing" lines.

The six lines give a binary pattern, where an even value reads '0' and an odd one '1'. The King Wen table maps that pattern to a hexagram number from 1 to 64. Turning every 6 into 7 and every 9 into 8 gives the mutated hexagram.

Around this core sit:

- the question hash that seeds the coins;
- the hook state machine (`useOracle`) that casts line by line and saves a completed reading;
- the server's validators, rate limiter, history page size and streaming relay;
- the history list kept in browser storage (`useHistory`);
- the history page's filters and CSV export;
- the translation lookup.

Modules, one file each:

| module | file | models |
|---|---|---|
| `Wrappers` | wrappers.dfy | `Option` |
| `Text` | text.dfy | JavaScript/Python string primitives: UTF-16 length, `trim`/`strip`, `split`, `join`, `String(n)`, `parseInt` |
| `Lines` | lines.dfy | `src/utils/randomness.js` (hash, line, pattern, mutation, changing lines) |
| `KingWen` | king_wen.dfy | `src/data/hexagrams.js` (King Wen table, its inverse, trigrams, `hex`, `HEXAGRAMS`) |
| `PyOracle` | python_oracle.dfy | `iching_4.py` (its table, line, pattern, mutation, names, the button handler), related to the JavaScript |
| `Session` | session.dfy | `src/hooks/useOracle.js` (state, transitions, derived values, the saved reading) |
| `App` | app.dfy | `src/App.jsx` (same transitions; the POST body it sends) |
| `Validation` | validation.dfy | `validateConsultaBody`, `validateOraculoBody` in `server/index.js` |
| `RateLimit` | rate_limit.dfy | `createRateLimiter`, the three limiters, the prune loop |
| `HistoryLimit` | history_limit.dfy | the `limit` of `GET /api/consultas` and SQLite's `LIMIT` |
| `EventStream` | event_stream.dfy | the streaming relay of `POST /api/oraculo` and its `mutacionInfo` sentence |
| `History` | history.dfy | the local-storage mode of `src/hooks/useHistory.js` |
| `HistoryPage` | history_page.dfy | the filters and the CSV export of `src/components/HistoryPage.jsx` |
| `I18n` | i18n.dfy | `t` and the initial language of `src/i18n/index.jsx` |

Conventions:

- A `string` is a sequence of Unicode scalar values. JavaScript's `.length` and `charCodeAt(0)` are modelled through UTF-16 units (`Text.Utf16Length`, `Text.FirstCodeUnit`).
- `undefined` and `null` are `None`.
- Coins, clocks, random numbers, hexagram texts, dictionaries, identifiers, timestamps and the outcome of each network call are parameters.

## Model

| member | source | states |
|---|---|---|
| Text.Utf16Length | server/index.js:103 | JavaScript's `.length` lies between the number of characters and twice that, and equals it exactly when no character is outside the Basic Multilingual Plane |
| Text.TrimEmptyIffAllSpace | src/hooks/useOracle.js:71 | a trimmed question is empty exactly when every character is white space |
| Text.JoinSplit | server/index.js:392-393 | joining the pieces of `split('\n')` with '\n' gives back the buffer, so no text is lost when it is cut into lines |
| Text.SplitJoin | server/index.js:392-393 | splitting a join of pieces without the separator recovers the pieces |
| Text.DecimalRoundTrip | src/hooks/useOracle.js:110 | the decimal rendering of a hexagram number reads back as that number |
| Text.DecimalStringInjective | src/hooks/useOracle.js:110 | two numbers render the same only when they are equal |
| Text.ParseDecimalString | src/components/HistoryPage.jsx:20 | `parseInt` reads back what `String(n)` renders, with or without a radix |
| Text.ParseIntString | server/index.js:282 | `parseInt` reads back any integer as written in decimal, with its minus sign |
| Lines.QuestionHash | src/utils/randomness.js:10-13 | a missing or empty question hashes to 0; otherwise the hash is the sum over its characters of the first UTF-16 unit of each |
| Lines.QuestionHashAdditive | src/utils/randomness.js:10-13 | the hash of a concatenation is the sum of the hashes |
| Lines.QuestionHashExamples | src/utils/randomness.test.js:23-35 | "" and a missing question give 0, and "AB" gives 131 |
| Lines.CodeUnitSumVsCodePointSum | src/utils/randomness.js:9-13 | the hash as written never exceeds the code-point sum, and equals it exactly when every character is in the Basic Multilingual Plane |
| Lines.CodePointHash | src/utils/randomness.js:9-13 | the corrected hash is the sum of the code points, 0 for a missing question |
| Lines.GenerateLine | src/utils/randomness.js:44-53 | a line is worth 6 to 9, with three coin words each "yin" or "yang" whose values add up to the line |
| Lines.LineValueByYangCount | src/utils/randomness.js:42-53 | the line is 6 plus the number of yang coins |
| Lines.EveryLineValueOccurs | src/utils/randomness.test.js:54-70 | each of 6, 7, 8 and 9 comes from some toss of three coins |
| Lines.Pattern | src/utils/randomness.js:56-58 | the pattern has one character per line, '0' exactly for an even value and '1' otherwise |
| Lines.PatternOnlySeesParity | src/utils/randomness.js:56-58 | two readings have the same pattern exactly when their lines agree in parity |
| Lines.PatternExamples | src/utils/randomness.test.js:95-97 | 6 and 8 read as yin and 7 and 9 as yang: 6,7,8,9,6,7 gives "010101" |
| Lines.StablePatternExamples | src/utils/randomness.test.js:99-105 | six stable yin lines give "000000" and six stable yang lines "111111" |
| Lines.ChangingPatternExamples | src/utils/randomness.test.js:107-113 | a changing yin line counts as yin and a changing yang line as yang |
| Lines.Mutate | src/utils/randomness.js:61-67 | the mutated list has the same length, 6 becomes 7, 9 becomes 8, and every other value is kept |
| Lines.ChangingLines | src/utils/randomness.js:70-74 | the listed positions are strictly increasing and are exactly those holding 6 or 9 |
| Lines.HasChangesIffChangingLines | src/utils/randomness.js:70-79 | `hayMutaciones` holds exactly when `getLineasMutantes` is not empty |
| Lines.MutateStable | src/utils/randomness.js:61-79 | a mutated reading has no changing line, so mutating it again changes nothing |
| Lines.MutateFixedIffNoChanges | src/utils/randomness.js:61-79 | a reading equals its mutation exactly when it has no changing line |
| Lines.PatternFlipsAtChangingLines | src/utils/randomness.js:56-74 | mutation flips the pattern exactly at the changing positions |
| Lines.MutateExamples | src/utils/randomness.test.js:125-128 | a changing yin line becomes stable yang and a changing yang line stable yin, in place: 6,7,8,9,6,9 gives 7,7,8,8,7,8 |
| Lines.MutateAllYangExample | src/utils/randomness.test.js:130-132 | six changing yang lines give six stable yin lines |
| Lines.MutateStableExample | src/utils/randomness.test.js:134-136 | stable lines come through unchanged |
| Lines.ChangingLinesExamples | src/utils/randomness.test.js:151-166 | the changing positions the tests state |
| Lines.ChangingLinesNone | src/utils/randomness.test.js:155-157 | a reading without 6 or 9 has no changing position |
| Lines.ChangingLinesAll | src/utils/randomness.test.js:159-161 | a reading of only 6 and 9 lists every position |
| Lines.HasChangesExamples | src/utils/randomness.test.js:172-191 | all six `hayMutaciones` verdicts the tests state: a 6 or a 9 anywhere makes a change (`[7,8,6,8,7,8]`, `[7,8,7,8,9,8]`, `[6,9,6,9,6,9]`), only 7s and 8s make none (`[7,8,7,8,7,8]`, `[7,7,7,7,7,7]`, `[8,8,8,8,8,8]`) |
| KingWen.FindSpec | src/data/hexagrams.js:45-50 | a search of the table returns the value of the first entry with the key, and nothing exactly when no entry has it |
| KingWen.EntriesWellFormed | src/data/hexagrams.js:2-19 | the table has 64 entries, each key is a six-bit pattern, and the ordinals are 1 to 64 in order |
| KingWen.EntryKeysDistinct | src/data/hexagrams.js:2-19 | no pattern is written twice |
| KingWen.EveryPatternListed | src/data/hexagrams.js:2-19 | every six-bit pattern is a key of the table |
| KingWen.LookupSpec | src/data/hexagrams.js:2-19 | the lookup is defined exactly on the six-bit patterns, gives an ordinal from 1 to 64, and the entry at that ordinal carries the pattern |
| KingWen.LookupInjective | src/data/hexagrams.js:2-19 | distinct patterns get distinct hexagram numbers |
| KingWen.LookupSurjective | src/data/hexagrams.js:2-19 | every number from 1 to 64 is the hexagram of some pattern |
| KingWen.LookupExamples | src/data/hexagrams.js:3-18 | the six-yang pattern is hexagram 1, the six-yin one hexagram 2, and "010101" is 64 |
| KingWen.PatternOfSpec | src/data/hexagrams.js:45-50 | `patronParaNumero` answers exactly for 1 to 64, with a six-bit pattern |
| KingWen.PatternOfRoundTrip | src/data/hexagrams.js:45-50 | looking up the pattern of a number gives back that number |
| KingWen.LookupRoundTrip | src/data/hexagrams.js:45-50 | the pattern of a pattern's number is that pattern |
| KingWen.GetTrigrams | src/data/hexagrams.js:35-42 | for a pattern, the lower trigram is named from characters 0 to 2 and the upper one from characters 3 to 5 |
| KingWen.TrigramTableComplete | src/data/hexagrams.js:24-33 | the trigram table has all eight three-bit keys, each once, with eight distinct non-empty names |
| KingWen.TrigramNameOfTrigram | src/data/hexagrams.js:35-42 | on a three-bit key the `|| t` fallback is never taken: the result is the table's name |
| KingWen.TrigramNameInjective | src/data/hexagrams.js:24-33 | different trigrams have different names |
| KingWen.GetTrigramsDeterminesPattern | src/data/hexagrams.js:35-42 | the pair of trigram names determines the pattern |
| KingWen.GetTrigramsNames | src/data/hexagrams.js:35-42 | a pattern gets both its names from the trigram table |
| KingWen.GetTrigramsFallbackExample | src/data/hexagrams.js:35-42 | a string shorter than a pattern shows its raw slices, the lower one "12" and an empty upper one |
| KingWen.Hex | src/data/hexagrams.js:52-56 | a record carries the number and the texts it was built from |
| KingWen.HexagramsConsistent | src/data/hexagrams.js:52-58 | `HEXAGRAMS` has exactly the keys 1 to 64; each record's number is its key, and its trigram names are those of the number's pattern |
| KingWen.HexOutOfRange | src/data/hexagrams.js:52-56 | a number without a pattern gets empty trigram names |
| PyOracle.PyTableMatchesJs | iching_4.py:24-89 | the desktop program's table is the web table, entry for entry |
| PyOracle.PyGenerarLinea | iching_4.py:206-210 | the desktop line is a value from 6 to 9 |
| PyOracle.PyLineMatchesJs | iching_4.py:206-210 | the desktop line is the web line for the same coins |
| PyOracle.PyPatternMatchesJs | iching_4.py:214 | Python's parity rule builds the same pattern as `getPatron` |
| PyOracle.PyMutadoMatchesJs | iching_4.py:264 | the Python mutation is `calcularMutado` |
| PyOracle.PyMutantesMatchesJs | iching_4.py:263 | the Python list of changing positions is `getLineasMutantes` |
| PyOracle.HexagramaNombreSpec | iching_4.py:212-221 | six lines always name a hexagram, as "{num}. {name}" with the number of the web pattern; the "unknown" text appears only for other lengths |
| PyOracle.NumberedNameInjective | iching_4.py:219 | "{num}. {name}" determines the number |
| PyOracle.HexagramaNombreInjective | iching_4.py:212-221 | two six-line readings get the same name only when their patterns agree |
| PyOracle.JsHashAgreesIffBmp | src/utils/randomness.js:9-13 | the web hash equals the Python `sum(ord(c))` exactly when the text stays in the Basic Multilingual Plane |
| PyOracle.JsHashDiffersOnEmoji | src/utils/randomness.js:9-13 | for one emoji the web hash is 55357 and the Python hash is 128512 |
| PyOracle.CodePointHashMatchesPython | iching_4.py:249-256 | the corrected hash of the stripped question is Python's for every text |
| PyOracle.CodePointHashExamples | src/utils/randomness.test.js:23-35 | the corrected hash still gives the values the tests expect |
| PyOracle.LanzarYMostrarSpec | iching_4.py:247-275 | the hash is taken on the first press only; at six lines a press changes nothing; otherwise one line is added, and the reading is shown and logged exactly when it is the sixth |
| PyOracle.CompletionMatchesJs | iching_4.py:262-275 | on the sixth line the changing positions are the web ones; "Sin mutaciones" is shown exactly when no line changes; the log names the mutated hexagram exactly then |
| PyOracle.MutatedNameLoggedIffChanges | iching_4.py:165-169 | the log entry's "Mutado:" line, written only for a non-empty name different from the original, appears exactly when some line changes |
| PyOracle.EtiquetaIffNoChanges | iching_4.py:269-273 | the label reads "Sin mutaciones" exactly when no line changes |
| PyOracle.Reiniciar | iching_4.py:280-283 | a reset clears the lines and the hash and keeps the log |
| PyOracle.SixPressesComplete | iching_4.py:257 | a press never takes the reading past six lines, and at six it changes nothing |
| Session.HexagramaInfo | src/hooks/useOracle.js:14-23 | info exists exactly for six lines, and its number is the King Wen number of the pattern, from 1 to 64 |
| Session.HexagramaInfoIsEntry | src/hooks/useOracle.js:14-23 | the info is the `HEXAGRAMS` record of that number, whose pattern is the reading's |
| Session.DerivedValues | src/hooks/useOracle.js:50-68 | nothing is derived before six lines; then the original hexagram always exists, and a mutated hexagram exists exactly when there are changing lines, different from the original |
| Session.MutatedIsAnotherHexagram | src/hooks/useOracle.js:65-68 | a complete reading with a changing line mutates into a different hexagram |
| Session.SetPregunta | src/hooks/useOracle.js:42 | typing changes the question box and nothing else |
| Session.ConfirmarPregunta | src/hooks/useOracle.js:70-76 | a blank question changes nothing; otherwise the trimmed question is confirmed and a fresh cast starts |
| Session.ConsultaGeneral | src/hooks/useOracle.js:78-83 | a general reading starts a fresh cast without a question and keeps the question box |
| Session.Reiniciar | src/hooks/useOracle.js:118-125 | every field returns to its initial value |
| Session.LanzarMonedasSpec | src/hooks/useOracle.js:85-116 | a cast at six lines does nothing; otherwise it appends one line and keeps the earlier ones, and the reading is saved exactly on the sixth line, with the switch to the result phase |
| Session.TransitionsPreserveValid | src/hooks/useOracle.js:42-125 | every transition keeps at most six lines of 6 to 9, with the result phase exactly when the reading is complete |
| Session.ConsultaOriginal | src/hooks/useOracle.js:98-114 | the saved reading carries the question and lines, always knows its original hexagram, and names it "{n}. {chino} - {nombre}" |
| Session.ConsultaMutado | src/hooks/useOracle.js:98-114 | the mutated hexagram and its name are saved exactly when a line changes, and that hexagram is never the original |
| Session.SixCastsComplete | src/hooks/useOracle.js:85-116 | from a fresh cast, six casts complete the reading |
| Session.RunLength | src/hooks/useOracle.js:85-104 | casting grows the reading one line at a time up to six and no further, reaching the result phase on the sixth |
| App.LanzarMonedas | src/App.jsx:42-84 | the component's transition is the hook's, and it posts a body exactly when the hook would save the reading |
| App.PostBodyFields | src/App.jsx:69-77 | the posted body holds the reading's fields; an undefined number is omitted and a missing mutated name is `null` |
| App.PostBodyAccepted | src/App.jsx:69-77 | for a complete reading the server's verdict depends only on the lengths of the question and the names |
| App.PostedBodyAccepted | src/App.jsx:42-84 | what the component posts is accepted by the server's validator exactly when the question fits in 1000 UTF-16 units and the names in 200 |
| Validation.ValidateConsultaBodyAccepts | server/index.js:100-129 | the validator accepts exactly the bodies that meet every stated limit, including absent-or-valid mutated fields |
| Validation.ValidateConsultaBodyOrder | server/index.js:100-129 | the checks run in source order: each of the seven messages is reported exactly when every earlier check passed and its own failed |
| Validation.AcceptedLineasAreReading | server/index.js:106-111 | an accepted body holds six line values, each 6, 7, 8 or 9 |
| Validation.ValidateOraculoBodyAccepts | server/index.js:131-150 | the oracle validator accepts exactly the valid bodies; a missing question is allowed, a null one is refused |
| Validation.ValidateOraculoBodyOrder | server/index.js:131-150 | each of the five oracle messages is reported exactly when every earlier check passed and its own failed |
| RateLimit.ClientKey | server/index.js:63 | the client key is never empty, and is the address when there is a non-empty one |
| RateLimit.Check | server/index.js:61-79 | one request changes only its client's record; it passes exactly when the count is within `max`, and otherwise gets 429 |
| RateLimit.CheckCounts | server/index.js:65-72 | inside the window the count goes up by one and the window stays; otherwise a new window opens with count 1 |
| RateLimit.RunInWindow | server/index.js:61-79 | inside one window every request is counted, refused ones too, whatever the limiter; only those within their limiter's `max` pass |
| RateLimit.RoomAtMostMax | server/index.js:74-77 | with one limiter at most `max` requests pass in a window |
| RateLimit.AtMostMaxPerWindow | server/index.js:61-79 | a window opened at `t0` lets at most `max` requests of one limiter through before it ends |
| RateLimit.SharedStoreExample | server/index.js:51-97 | the limiters share one store: after ten saved readings, the same client's first oracle request is refused |
| RateLimit.Prune | server/index.js:54-59 | pruning drops exactly the records whose window has passed and keeps the others unchanged |
| RateLimit.PruneIsInvisible | server/index.js:54-72 | pruning never changes a later request's verdict or its record |
| HistoryLimit.LimitAsWritten | server/index.js:282 | a missing, non-numeric or zero limit gives 50; every other value is only capped from above at 100 |
| HistoryLimit.RowsReturned | server/db.js:42-47 | a negative SQLite `LIMIT` returns every row; otherwise at most `limit` rows |
| HistoryLimit.NegativeLimitUnbounded | server/index.js:282 | as written, `?limit=-1` passes the cap and returns all 500 rows of a 500-row table |
| HistoryLimit.Limit | server/index.js:282 | the corrected limit is always from 1 to 100 |
| HistoryLimit.LimitBoundsRows | server/index.js:282 | no request reads more than 100 rows, and the correction agrees with the code wherever the code's limit is not negative |
| HistoryLimit.LimitDefault | server/index.js:282 | the corrected limit is 50 exactly for a missing, non-numeric, non-positive or explicit 50 |
| EventStream.ProcessLine | server/index.js:395-406 | a line is relayed exactly when it is a "data: " line other than "[DONE]" whose payload parses to non-empty content, and then as that content; it ends the stream exactly when such a payload makes the property access throw; every other line is skipped |
| EventStream.EmitAppend | server/index.js:395-407 | two runs of lines are processed as the first, then the second only if the first did not throw |
| EventStream.AbortStops | server/index.js:401-417 | a throwing line keeps what was written before it, and nothing after it is written |
| EventStream.FeedAllSpec | server/index.js:385-408 | however the reply is chunked, the output is what the complete lines yield, each once, in order, up to the first that throws; until then the buffer holds the text after the last '\n' |
| EventStream.BufferIsTail | server/index.js:391-393 | until a line throws, the buffer never holds a line break and is a suffix of the text received |
| EventStream.ChunkingInvisible | server/index.js:385-408 | what any chunking of a text writes is what receiving it whole writes, and the whole state agrees until a line throws |
| EventStream.UnterminatedLineHeld | server/index.js:391-393 | text without '\n' only grows the buffer and writes no event |
| EventStream.RespondShape | server/index.js:377-418 | every response is text events closed by exactly one "[DONE]" or error; "[DONE]" comes exactly for an OK reply in which nothing threw, after the text of the body's complete lines; a status that is not OK writes only "Error de OpenAI (status)" |
| EventStream.IndexListRoundTrip | server/index.js:325-328 | the 1-based list in the sentence reads back as the 0-based positions the client sent |
| EventStream.MutacionInfoStable | server/index.js:325-331 | without changing lines the sentence is the fixed "stable" text in either language; with them it starts with "Lines " or "Las líneas " and the 1-based numbered list |
| History.Filter | src/hooks/useHistory.js:149 | a filter is no longer than its input and keeps only elements that pass |
| History.FilterSpec | src/hooks/useHistory.js:149 | a filter keeps order, and keeps exactly the elements that pass |
| History.Find | src/hooks/useHistory.js:104-105 | the first item with the identifier, or nothing exactly when none has it |
| History.SaveLocal | src/hooks/useHistory.js:18-20 | storage keeps the first twenty items, in order |
| History.AddLocal | src/hooks/useHistory.js:22-34 | the new entry, not a favourite and without a note, goes first; the earlier items follow in order, up to twenty in all |
| History.GuardarConsulta | src/hooks/useHistory.js:75-100 | a cloud row is shown first without touching storage; otherwise (no session or a failed insert) the local entry is stored and shown first |
| History.ToggleFavorito | src/hooks/useHistory.js:103-105 | toggling an identifier that is not shown changes nothing |
| History.LimpiarHistorial | src/hooks/useHistory.js:163-170 | in local mode storage and the list are emptied; in cloud mode nothing changes |
| History.OperationsPreserveInv | src/hooks/useHistory.js:18-170 | every local operation keeps storage within twenty items and a prefix of what is shown |
| History.ToggleFavoritoSpec | src/hooks/useHistory.js:103-114 | toggling sets every stored item with the identifier to the negation of the shown item's flag, so the item's own flag flips, and changes nothing else |
| History.ToggleUnstored | src/hooks/useHistory.js:103-114 | toggling an item that is shown but not stored flips no flag: the list becomes what storage holds, and the item leaves the page |
| History.FullSave | src/hooks/useHistory.js:18-79 | a local save with twenty stored stores the new entry and the first nineteen, and shows the new entry before all twenty |
| History.ToggleAfterFullSave | src/hooks/useHistory.js:75-114 | after such a save the oldest reading is shown but not stored, and toggling it only removes it from the page |
| History.UpdateNotaSpec | src/hooks/useHistory.js:127-134 | the note is set on exactly the items with the identifier |
| History.EliminarConsultaSpec | src/hooks/useHistory.js:147-152 | deleting removes every item with the identifier and keeps the others in order |
| History.SyncKeepsFailed | src/hooks/useHistory.js:173-205 | after a sync storage is empty when every insert succeeded; otherwise it holds exactly the failed items in their order |
| HistoryPage.FilteredSpec | src/components/HistoryPage.jsx:16-34 | the page shows, in their original order, exactly the items that pass every active filter |
| HistoryPage.FieldsRecord | src/components/HistoryPage.jsx:56 | a record of safe fields reads back (RFC 4180) as its values |
| HistoryPage.RowAsWrittenRoundTrip | src/components/HistoryPage.jsx:48-55 | as written, a row reads back as its six values when the date and names hold no comma or quote |
| HistoryPage.DateCommaShiftsColumns | src/components/HistoryPage.jsx:49 | a date holding a comma splits into two fields, so the row reads back as seven fields |
| HistoryPage.DateCommaExample | src/components/HistoryPage.jsx:47-49 | the date "10/10/2026, 14:33:00" gives a seven-field row under a six-column header |
| HistoryPage.RowRoundTrip | src/components/HistoryPage.jsx:47-55 | with every field quoted a row reads back as its six values, whatever they hold |
| HistoryPage.CsvFileLines | src/components/HistoryPage.jsx:47-56 | with no line break in a cell, a file splits into the header line and then each item's record, in order |
| HistoryPage.ExportCsvLines | src/components/HistoryPage.jsx:47-56 | the exported file, with the date and names unquoted as written, splits into the header line and each item's row as written; a line reads back as the item's values when its date and names hold no comma or quote |
| HistoryPage.ExportCsvQuotedLines | src/components/HistoryPage.jsx:47-56 | the corrected file, every field quoted, splits into the header and one line per item that reads back as that item's values, whatever they hold besides line breaks |
| I18n.InitialLang | src/i18n/index.jsx:21-25 | the language is never empty; a non-empty saved choice wins; otherwise English for a browser language starting with "en", else Spanish |
| I18n.ReloadKeepsLang | src/i18n/index.jsx:21-31 | once the effect has written the language back, the next load starts in that same language, whatever the browser's language is then |
| I18n.FirstLoadDecides | src/i18n/index.jsx:21-31 | over any run of loads, each writing its language back, the saved choice is the language of the first load |
| I18n.FallbackChain | src/i18n/index.jsx:35-36 | the text is the current language's non-empty entry, else the Spanish non-empty entry, else the key |
| I18n.EmptyTranslationFallsThrough | src/i18n/index.jsx:36 | an empty translation counts as missing |
| I18n.ReplaceFirstSpec | src/i18n/index.jsx:39 | substitution replaces the first occurrence and keeps the rest verbatim |
| I18n.NoParamsUnchanged | src/i18n/index.jsx:37-41 | an empty parameter object leaves the text as no parameters would |
| I18n.FirstOccurrenceOnly | src/i18n/index.jsx:38-40 | of two identical placeholders only the first is replaced |
| I18n.SubstituteExample | src/i18n/index.jsx:35-43 | "{n} y {n}" with n = 3 gives "3 y {n}" |

## Left out

- The entropy mixer (`lanzarMoneda` in both editions). It combines the clock, a cryptographic random number and the question hash through SHA-256. Its outcome, one coin of 2 or 3, is a parameter. The hash therefore matters only through its definition.
- `generar_linea` also writes the coins to a label. That is display only.
- Drawing, animation timers, `ultimaMoneda` and `animatingLine` timing, and every Tk widget of `iching_4.py`, apart from the text the labels and log receive.
- The English overlay (`HEXAGRAMS_EN` and the `lang` argument of `getHexagramaInfo` in `src/hooks/useOracle.js`). The English hexagram data file is not part of this model. The saved reading always uses the Spanish texts, as the source does.
- The hexagram and trigram texts. Only the trigram names and the table structure are modelled; the long texts are a parameter.
- The `try/except` of `get_hexagrama_nombre`. It cannot fire on a list of integers and is not modelled.
- Network, database and storage I/O. Storage, the cloud database and SQLite are values; the outcome of each cloud call is a parameter. The cloud branches of `toggleFavorito`, `updateNota` and `eliminarConsulta` and the cloud fetch of `fetchConsultas` are not modelled. Their effect on the shown list is the same map or filter as the local one.
- `History.GuardarConsulta`: storage is only related to the shown list when there is no session, because a cloud insert does not write storage.
- `crypto.randomUUID`, `Date.now`, `new Date().toISOString()`: identifiers and timestamps are parameters.
- `toLocaleString` and `toLowerCase` in the history page are parameters. Case folding is not modelled. The `created_at || fecha` fallback is folded into the rendered date.
- The JSON export of the history page. It is `JSON.stringify`, with nothing to state beyond it.
- The OpenAI request, its prompt text and the JSON parsing of each streamed payload. What parsing makes of a payload is a parameter (`EventStream.Payload`): it does not parse, the property access throws, or it gives a content string. A non-string truthy content (a number, say) is not modelled.
- `EventStream.MutacionInfo`: `lineasMutantes` is never validated by the server. The model takes a list of whole numbers. A list of strings renders differently (`"0" + 1` is `"01"`), and a non-array value without `map` throws. Neither is modelled.
- `EventStream.Respond`: the rate limiter and the validator run before the relay and are modelled on their own (`RateLimit`, `Validation`). A failure while writing the error in the `catch` block is not modelled.
- `I18n.T`: `$` patterns in a substituted value (`$&`, `$1`) are not modelled. Values are inserted literally.
- `I18n`: the dictionaries themselves and the SEO title and description are inputs or omitted.
- Express routing, the JSON body-size limit and authentication (`requireAuth`). Only the validators and limiters are modelled. The server's `DELETE` and database helpers other than `obtenerHistorial`'s `LIMIT` are not part of this model.
- Floating point: a JSON number is a `real`. `JSON.parse` never gives NaN, but a literal too large for a double, such as `1e400`, parses to `Infinity`. In the source an infinite number fails every range check, since it lies above 64 or below 1. The model has no infinite value; a real outside 1..64 fails the same checks.
- `Validation.IsNumberIn`: compares exact reals, while the source compares doubles after rounding. A literal such as `64.000000000000001` rounds to 64 and passes the source's check, but its exact real is refused here. The line values are affected the same way: `6.0000000000000001` rounds to 6 and passes `[6, 7, 8, 9].includes` (server/index.js:109), while `Validation.IsLineValue` refuses it. Only numbers within a rounding step of a bound or of a line value are affected.
- `App.PostedBodyAccepted`: states the validator's verdict only. The store also needs the write limiter (`consultasWriteLimiter`, at most thirty per fifteen-minute window; `RateLimit`), which runs before validation and answers 429. The limiters share one store keyed by client, so the same client's oracle and delete requests count toward that limit too (`RateLimit.SharedStoreExample`). The store also needs the database insert to succeed; a failed insert answers 500 (server/index.js:261-275).
- `Session.LanzarMonedas`: a cast is modelled as one atomic step. In the source `lanzarMonedas` reads `lineas` from its render closure, awaits `generarLinea`, and only then appends (src/hooks/useOracle.js:85-94). The button stays enabled while that await is pending (src/components/CoinToss.jsx:17-18). Two clicks in that window both read the same list: at five lines both append a sixth line and the reading is saved twice (src/hooks/useOracle.js:106); below five, one of the two lines is lost.
- `App.LanzarMonedas`: the same race, in src/App.jsx:42-51 and the POST at src/App.jsx:66. Two quick clicks at five lines post the reading twice.
- `History.ToggleFavoritoSpec`: states the flip only for a stored identifier. After a local save with twenty readings stored, the oldest is still shown until the next load but is no longer stored (src/hooks/useHistory.js:18-34 and 76-79). Toggling it writes nothing and replaces the list with storage, so the reading disappears from the page and its flag is unchanged (`History.ToggleUnstored`, `History.ToggleAfterFullSave`).
- `HistoryLimit.RowsReturned`: SQLite binds a `limit` below -2^63 (for example `?limit=-100000000000000000000`) as a REAL that is not an integer. It then fails with "datatype mismatch", which the server answers with 500, and no rows come back. The model treats every negative limit as unbounded.
- `HistoryPage.ExportCsvLines`: a question or note can hold a line break, because the question box is a textarea and Shift+Enter inserts a newline (src/components/QuestionForm.jsx:10-15). Such a quoted cell spans several lines of the file. Reading that file back is not modelled, and every export lemma requires `NoLineBreak`.
- `I18n.InitialLang`: a saved choice other than "en" or "es" is taken as is. `SEO[lang]` is then undefined and the effect throws. The dictionaries and the SEO table are not modelled.

Where the descriptions of the application and its code differ, the model follows the code:

- JavaScript `trim` and Python `strip` remove different character sets (`Text.IsJsSpace`, `Text.IsPySpace`).
- The server does not check that `hexOriginal` is the hexagram of `lineas`; `Validation` states only what it checks.
- The client puts no limit on the question's length; the server allows 1000 UTF-16 units (`App.PostedBodyAccepted`).

## Findings

| source | as written | input that shows it | evidently intended | confidence | as-written member | corrected member |
|---|---|---|---|---|---|---|
| src/utils/randomness.js:9-13 | `c.charCodeAt(0)` of each code point: a character outside the Basic Multilingual Plane adds only its high surrogate | the question "😀" (U+1F600): 55357 here, 128512 in `iching_4.py` | the sum of code points, "igual que en Python" as the comment says | not executed | Lines.QuestionHash, PyOracle.JsHashDiffersOnEmoji | Lines.CodePointHash, PyOracle.CodePointHashMatchesPython |
| server/index.js:282 | `Math.min(parseInt(limit) \|\| 50, 100)` caps from above only; a negative value reaches SQLite, where a negative `LIMIT` means no limit | `GET /api/consultas?limit=-1` returns the whole table | a page size from 1 to 100 | not executed | HistoryLimit.LimitAsWritten, HistoryLimit.NegativeLimitUnbounded | HistoryLimit.Limit, HistoryLimit.LimitBoundsRows |
| src/components/HistoryPage.jsx:49 | the date column is written unquoted, and `toLocaleString` puts ", " between date and time | a reading whose date renders "10/10/2026, 14:33:00" gives a seven-field row under the six-column header | every field quoted, as the question and note already are | not executed | HistoryPage.RowAsWritten, HistoryPage.ExportCsvLines, HistoryPage.DateCommaExample | HistoryPage.Row, HistoryPage.RowRoundTrip, HistoryPage.ExportCsvQuotedLines |
