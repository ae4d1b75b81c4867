# sierrabravo in Dafny

A model of the text-processing core of the sierrabravo Telegram bot (a Cloudflare Worker).

## What is modelled

**The market-data scraper**, `src/services/iranjibScraper.js`:

- `parseRow` finds the first occurrence of a row label in the page. From there to the end of the page it collects every cell fragment matched by `/<td[^>]*>([\s\S]*?)<\/td>/g`, checks how many there are, and returns two cells, each cleaned:
  - every `<…>` token is removed;
  - the result is trimmed.
- The part of `fetchMarketData` that runs once the page text is in hand reads the gold row and the Tether row, and either throws the "layout may have changed" error or builds the `{ gold, tether }` result.

**`parseGoldPrice`**, `src/commands/currencyprize.js`. This is the older, hard-wired reader of the 18-karat gold row. It throws one of two errors, and needs four cells.

**The entry point**, `src/index.js`:

- **The command table.** It is a `Map` filled by three `commands.set` calls. It is modelled as the class `CommandTable`.
- **`handleUpdate`.** It decides whether a message is a command, which name `text.split(' ')[0].split('@')[0]` cuts out, and which handler runs. It also sends the error reply when that handler throws, and answers `OK`.

How the files divide the work:

| File | Contents |
|---|---|
| `wrappers.dfy` | `Option` and `Result` |
| `js_strings.dfy` | The JavaScript string built-ins used: `indexOf`, `startsWith`, `split(sep)[0]`, `trim` (with ECMAScript's whitespace set) |
| `html_scan.dfy` | The two regular expressions, written as explicit left-to-right scans, plus `clean` |
| `iranjib_scraper.dfy` | `parseRow` and the post-fetch step |
| `currency_prize.dfy` | `parseGoldPrice` |
| `bot_index.dfy` | The command table, command-name extraction and dispatch |

The two regular expressions are specified independently of their scans:

- **The cell regex.** The predicate `TdMatch(s, a, b)` states what the regex accepts at `a`:
  - `<td`, then a run of non-`>` characters and a `>`;
  - then the shortest stretch up to a `</td>`.

  The global match is the scan `TdSpans`. It tries each position left to right and, after a match, restarts at its end.
- **The tag regex.** `/<[^>]+>/g` with `replace` is `StripTags`.

## Model

| member | source | states |
|---|---|---|
| JsStrings.IndexOfFrom | src/services/iranjibScraper.js:12 | `indexOf` from a start position finds an occurrence with none before it, and `None` (-1) means none at all |
| JsStrings.StartsWith | src/index.js:38 | `text.startsWith('/')`: the text holds `/` at index 0; `BotIndex.CommandName` states what it decides |
| JsStrings.IndexOf | src/services/iranjibScraper.js:12-15 | `html.indexOf(label)` is the first occurrence; -1 exactly when the label occurs nowhere |
| JsStrings.SplitHead | src/index.js:40 | `split(sep)[0]` is the longest prefix without `sep`, cut just before the first `sep`, and the whole string when there is none |
| JsStrings.SkipWhitespace | src/services/iranjibScraper.js:24 | the index of the first non-whitespace character at or after `i`, with only whitespace skipped |
| JsStrings.SkipWhitespaceBack | src/services/iranjibScraper.js:24 | the index just past the last non-whitespace character, with only whitespace cut off the end |
| JsStrings.Trim | src/services/iranjibScraper.js:24 | `trim()` gives a slice of the input with no whitespace at either end, and all it removes is whitespace |
| JsStrings.TrimIdempotent | src/services/iranjibScraper.js:24 | trimming twice is trimming once |
| HtmlScan.OpenTdAtOccurs | src/services/iranjibScraper.js:18 | the character test for `<td` is an occurrence of the literal `<td` |
| HtmlScan.CloseTdAtOccurs | src/services/iranjibScraper.js:18 | the character test for `</td>` is an occurrence of the literal `</td>` |
| HtmlScan.FirstGt | src/services/iranjibScraper.js:18 | the first `>` at or after a position, or none, which ends the `[^>]*>` part of the regex |
| HtmlScan.FirstCloseTd | src/services/iranjibScraper.js:18 | the first `</td>` at or after a position, or none, which is where the lazy `[\s\S]*?` stops |
| HtmlScan.MatchTdAt | src/services/iranjibScraper.js:18 | a match at `a` ends after `a` and within the string |
| HtmlScan.MatchTdAtCorrect | src/services/iranjibScraper.js:18 | the scan at `a` finds a match exactly where the regex matches at `a`, and the regex has at most one match there, the one found |
| HtmlScan.TdSpans | src/services/iranjibScraper.js:18 | the `/g` scan: a match at each position, one step on on failure, past the match on success; `HtmlScan.TdSpansValid` and `HtmlScan.TdSpansLeftmost` state what it finds |
| HtmlScan.MatchTdAtThrough | src/services/iranjibScraper.js:18 | any opening tag ended by a `>` and followed by the nearest `</td>` is the match the scan finds |
| HtmlScan.ValidSpansCons | src/services/iranjibScraper.js:18 | a regex match followed by valid later matches is a valid list of matches |
| HtmlScan.TdSpansValid | src/services/iranjibScraper.js:18 | every span of the global scan is a regex match, inside the string, and the spans are in order and do not overlap |
| HtmlScan.CoveredCons | src/services/iranjibScraper.js:18 | a position covered by the later spans is still covered once a span is added in front |
| HtmlScan.TdSpansLeftmost | src/services/iranjibScraper.js:18 | no match is skipped: every position where the regex matches lies inside some span of the scan |
| HtmlScan.NoMatchAfterFailedOpen | src/services/iranjibScraper.js:18 | once a `<td` cannot be completed, no later `<td` can either |
| HtmlScan.TdSpansSkip | src/services/iranjibScraper.js:18 | text without `<td` in it adds no span |
| HtmlScan.NoCloseInPlainText | src/services/iranjibScraper.js:18 | text without `<` holds no `</td>` |
| HtmlScan.PlainCellPieces | src/services/iranjibScraper.js:18 | `<td>x</td>` has its opening tag, `x` and its closing tag where expected |
| HtmlScan.PlainCellMatch | src/services/iranjibScraper.js:18 | a plain cell `<td>x</td>` with no `<` inside is matched as a whole |
| HtmlScan.TdSpansPlainCell | src/services/iranjibScraper.js:18 | after text with no `<`, a plain cell is the next span |
| HtmlScan.TdFragments | src/services/iranjibScraper.js:18 | `match(...)`: the text of each span of the scan, in order, and the empty list for `null`; `HtmlScan.TdFragmentsShape` and `HtmlScan.TdFragmentsDelimited` state what the fragments are |
| HtmlScan.MatchIsSelfContained | src/services/iranjibScraper.js:18 | a matched fragment, taken on its own, is a complete match of the regex |
| HtmlScan.TdFragmentsShape | src/services/iranjibScraper.js:18 | `match(...)` returns one fragment per span, each the text of its span and each a complete regex match |
| HtmlScan.TdFragmentsDelimited | src/services/iranjibScraper.js:18 | each fragment starts with `<td` and ends with `</td>` |
| HtmlScan.CloseInsideOpeningTag | src/services/iranjibScraper.js:18 | a fragment may contain another `</td>`: in `<td</td></td>` the first one is swallowed by `[^>]*` |
| HtmlScan.TdSpansTwoPlainCells | src/services/iranjibScraper.js:18 | two plain cells after text with no `<` are the first two spans |
| HtmlScan.TdFragmentsTwoPlainCells | src/services/iranjibScraper.js:18 | the first two fragments after such text are the two cells, whatever follows |
| HtmlScan.TdFragmentsOnePlainCell | src/services/iranjibScraper.js:18 | text with no `<` followed by one plain cell yields exactly that cell |
| HtmlScan.TdSpansExactlyTwoPlainCells | src/services/iranjibScraper.js:18 | plain text followed by two plain cells that end the page gives exactly those two spans |
| HtmlScan.TdFragmentsExactlyTwoPlainCells | src/services/iranjibScraper.js:18 | text with no `<` followed by two plain cells yields exactly those two |
| HtmlScan.TagAtStart | src/services/iranjibScraper.js:24 | a tag token found at the start has `<`, at least one character and `>` |
| HtmlScan.TagAtStartNone | src/services/iranjibScraper.js:24 | no tag starts at the front exactly when there is no `<` there, `<` is directly followed by `>`, or no `>` follows |
| HtmlScan.StripTags | src/services/iranjibScraper.js:24 | `replace(/<[^>]+>/g, '')` never makes a string longer |
| HtmlScan.SubsequenceRefl | src/services/iranjibScraper.js:24 | every string is a subsequence of itself |
| HtmlScan.SubsequenceDropHead | src/services/iranjibScraper.js:24 | dropping the first character keeps a subsequence a subsequence |
| HtmlScan.SubsequenceTrans | src/services/iranjibScraper.js:24 | a subsequence of a subsequence is a subsequence |
| HtmlScan.SliceIsSubsequence | src/services/iranjibScraper.js:24 | a slice is a subsequence |
| HtmlScan.SubsequenceMembers | src/services/iranjibScraper.js:24 | a subsequence holds only characters of the string it comes from |
| HtmlScan.StripTagsSubsequence | src/services/iranjibScraper.js:24 | removing tags only deletes characters: the rest keep their order |
| HtmlScan.StripTagsTagFree | src/services/iranjibScraper.js:24 | no `<x…>` token is left after removing tags, even one formed by joining pieces |
| HtmlScan.TagFreeSlice | src/services/iranjibScraper.js:24 | a slice of tag-free text is tag-free |
| HtmlScan.StripTagsOfTagFree | src/services/iranjibScraper.js:24 | tag-free text passes through unchanged |
| HtmlScan.StripTagsPlainPrefix | src/services/iranjibScraper.js:24 | text with no `<` in front passes through, and the rest is stripped |
| HtmlScan.StripTagsDropsTag | src/services/iranjibScraper.js:24 | a leading `<…>` token is deleted as a whole |
| HtmlScan.StripTagsOpenCell | src/services/iranjibScraper.js:24 | a leading `<td>` is deleted |
| HtmlScan.StripTagsCloseCell | src/services/iranjibScraper.js:24 | `</td>` on its own is deleted |
| HtmlScan.StripTagsPlainCell | src/services/iranjibScraper.js:24 | stripping `<td>x</td>` with no `<` in `x` leaves `x` |
| HtmlScan.Clean | src/services/iranjibScraper.js:24 | `clean` returns trimmed, tag-free text whose characters all come from the input, in order |
| HtmlScan.CleanIdempotent | src/services/iranjibScraper.js:24 | `clean` of `clean` is `clean` |
| HtmlScan.CleanPlainCell | src/services/iranjibScraper.js:24 | `clean` of a plain cell is its trimmed text |
| IranjibScraper.CellsAfter | src/services/iranjibScraper.js:12-18 | no cells (`null`) exactly when the label is absent; otherwise the fragments of the page from the first occurrence of the label |
| IranjibScraper.Max | src/services/iranjibScraper.js:20 | `Math.max` is one of its arguments and at least both |
| IranjibScraper.ParseRow | src/services/iranjibScraper.js:11-29 | `parseRow` as written: `null` exactly when the label is absent, there are no cells, or there are fewer than `max(valueIndex, changeIndex)`; a parsed row has both indices in range and holds the two cleaned cells |
| IranjibScraper.ParseRowChecked | src/services/iranjibScraper.js:11-29 | `parseRow` with the corrected guard: a row exactly when the label occurs and both indices name a cell, and the row holds the two cleaned cells |
| IranjibScraper.CellsAfterLeadingMarker | src/services/iranjibScraper.js:12-17 | a page that starts with the label is scanned from its start |
| IranjibScraper.ParseRowTwoPlainCells | src/services/iranjibScraper.js:11-29 | a label followed by `<td>x</td><td>y</td>` parses to `x` and `y`, trimmed |
| IranjibScraper.ParseRowOneCellThrows | src/services/iranjibScraper.js:20-26 | with one cell and columns 0 and 1, the guard lets `clean(cells[1])` throw, and the corrected guard gives `null` |
| IranjibScraper.ParseRowCheckedAgrees | src/services/iranjibScraper.js:20-28 | the as-written and corrected guards give the same row wherever the as-written one parses, and parse in the same cases |
| IranjibScraper.ParseRowThrowsExactly | src/services/iranjibScraper.js:20-26 | the as-written `parseRow` throws exactly when the label occurs and there are exactly `max(valueIndex, changeIndex)` cells, at least one |
| IranjibScraper.ParseRowResultClean | src/services/iranjibScraper.js:24-28 | both strings returned are trimmed and hold no tag token |
| IranjibScraper.ParseRowFromFirstMarker | src/services/iranjibScraper.js:12-17 | only the page from the first occurrence of the label matters; later copies of the label change nothing |
| IranjibScraper.MarketDataFor | src/services/iranjibScraper.js:46-64 | the post-fetch step over the two labels: a TypeError out of either `parseRow` ends it, a `null` from either is the layout error, else both quotes; `IranjibScraper.MarketDataFailsIff` and `IranjibScraper.MarketDataValues` state its outcomes |
| IranjibScraper.QuoteOf | src/services/iranjibScraper.js:55-63 | a row's `value` becomes `price` and its `change` stays `change` |
| IranjibScraper.MarketDataFrom | src/services/iranjibScraper.js:46-49 | the post-fetch step with the page's gold and Tether labels; `IranjibScraper.MarketDataFromFailsIff` and `IranjibScraper.MarketDataFromValues` state its outcomes |
| IranjibScraper.MarketDataFailsIff | src/services/iranjibScraper.js:46-53 | the post-fetch step fails exactly when the gold row (0, 1) or the Tether row (1, 2) does not parse |
| IranjibScraper.MarketDataValues | src/services/iranjibScraper.js:55-64 | on success each `value` becomes `price` and each `change` stays `change`, gold and Tether from their own columns |
| IranjibScraper.MarketDataTypeErrorExactly | src/services/iranjibScraper.js:46-53 | the TypeError escapes exactly when the gold row has one cell or the Tether row has two |
| IranjibScraper.MarketDataFromFailsIff | src/services/iranjibScraper.js:46-53 | the same two facts with the page's own gold and Tether labels |
| IranjibScraper.MarketDataFromValues | src/services/iranjibScraper.js:46-64 | the quotes on success, with the page's own labels |
| IranjibScraper.GoldRowExample | src/services/iranjibScraper.js:46 | a gold row as labelled on the page, with two plain cells, parses to those cells |
| CurrencyPrize.ParseGoldPrice | src/commands/currencyprize.js:2-3 | `parseGoldPrice(html)` with its fixed label; `CurrencyPrize.ParseGoldPriceOutcomes` states its outcomes |
| CurrencyPrize.ParseGoldPriceFor | src/commands/currencyprize.js:2-32 | "target row" error exactly when the label is absent; "data cells" error exactly when it is present with fewer than four cells; otherwise the cleaned cells 0 and 1 |
| CurrencyPrize.GoldPriceAgreesWithParseRow | src/commands/currencyprize.js:2-31 | where `parseGoldPrice` succeeds, `parseRow(html, label, 0, 1)` returns the same two strings, as written and corrected |
| CurrencyPrize.GoldPriceStricterThanParseRow | src/commands/currencyprize.js:18-20 | the two readers disagree exactly on rows with two or three cells, where only `parseRow` succeeds |
| CurrencyPrize.TwoCellRowRejected | src/commands/currencyprize.js:18-20 | a label followed by two plain cells is rejected by `parseGoldPrice` and read by `parseRow` |
| CurrencyPrize.ParseGoldPriceOutcomes | src/commands/currencyprize.js:3-29 | the two errors and the result for the page's own label |
| BotIndex.CommandTable.constructor | src/index.js:9 | `new Map()` is empty |
| BotIndex.CommandTable.Set | src/index.js:10-12 | `set` adds or replaces the one entry and leaves the others alone |
| BotIndex.CommandTable.Has | src/index.js:42 | `commands.has(name)`: the name is a key of the table; `BotIndex.CommandTable.Get` states how it relates to `get` |
| BotIndex.CommandTable.Get | src/index.js:42-43 | `get` returns a handler exactly when `has` holds, and it is the stored one |
| BotIndex.BuildCommands | src/index.js:9-12 | the table built at load time maps `/start`, `/ping` and `/currencyprize` to their handlers and nothing else |
| BotIndex.RegisteredCommandsExactly | src/index.js:9-12 | exactly three names are registered, each to its own handler |
| BotIndex.CommandName | src/index.js:38-40 | a name exactly when the text starts with `/`; the name is a non-empty prefix starting with `/`, with no space or `@`, cut at the first space or `@` |
| BotIndex.CommandNameFirstSeparator | src/index.js:40 | the name is the prefix before the first space or `@` |
| BotIndex.CommandNameBeforeSeparator | src/index.js:39-40 | a name followed by a space or `@` and anything is cut off at that separator |
| BotIndex.CommandNameStripsBotSuffix | src/index.js:39-40 | `/ping@YourBotName x` names `/ping` |
| BotIndex.CommandNameIgnoresNewline | src/index.js:40 | only U+0020 separates: `/ping\nx` is one name |
| BotIndex.TextOf | src/index.js:35 | the message's text, or the empty string when it has none; `BotIndex.NoTextRunsNothing` states that such a message dispatches nothing |
| BotIndex.Dispatch | src/index.js:33-43 | through the table's `has` and `get`, a handler is chosen exactly when there is a message whose text is a command whose name is in the table, and it is the table's handler |
| BotIndex.HandleUpdate | src/index.js:32-55 | the response is always `OK`; the dispatched handler runs; one `sendMessage` call, with the message's chat and thread as arguments, exactly when it throws |
| BotIndex.NonCommandRunsNothing | src/index.js:38-54 | text not starting with `/` runs nothing, sends nothing, and answers `OK` |
| BotIndex.NoTextRunsNothing | src/index.js:33-35 | no message, or no text, dispatches nothing |
| BotIndex.OnlyRegisteredCommandsRun | src/index.js:9-45 | with the module's table a handler runs exactly for `/start`, `/ping` and `/currencyprize`, each its own |
| BotIndex.FailureSendsOneReply | src/index.js:44-50 | a failing handler gets exactly one error reply in its chat and thread, a succeeding one none |
| BotIndex.DispatchByName | src/index.js:42-43 | once the name is known, the table alone decides |
| BotIndex.PingWithBotSuffixRuns | src/index.js:39-45 | `/ping@YourBotName x` runs the ping handler |
| BotIndex.PingWithNewlineDoesNotRun | src/index.js:40-42 | `/ping\nx` runs nothing |

## Left out

- The network fetch of the page is left out, along with the response-status error in `fetchMarketData` (`src/services/iranjibScraper.js:37-44`). The model starts from the page text.
- The asynchronous `/currencyprize` handler is left out (`src/commands/currencyprize.js:35` on). It is network I/O and message sending.
- `src/telegram.js` is not part of this model. It makes outbound HTTP calls; a reply is recorded as a `Reply` value instead.
- `src/commands/start.js` is not part of this model: a database insert and a keyboard payload. `src/commands/ping.js` is not part of it either: a wall-clock latency measurement.
- `src/api/goldapi.js` is not part of this model: HTTP fetches and floating-point arithmetic.
- `src/utils/errorHandler.js` is not part of this model: message formatting and an outbound call.
- `fetch` in `src/index.js:15-25` is left out. It parses a JSON POST body and answers other methods with a fixed text, which is HTTP plumbing.
- `console.error` logging is left out.
- `BotIndex.HandleUpdate` leaves out what the handlers do. Whether the handler that ran throws is the parameter `handlerFails`.
- `BotIndex.HandleUpdate`: `Reply.threadId` records the thread argument `handleUpdate` passes to `sendMessage`. `sendMessage` (`src/telegram.js:10-21`) drops it, so the reply lands in the chat, not the thread.
- `BotIndex.HandleUpdate` assumes the error reply never fails. If `sendMessage` rejects inside the `catch`, `handleUpdate` rejects too, and no `OK` is returned.
- The signed-payload validator is left out: no file shown implements it.
- `HtmlScan.Clean` removes only `<…>` tokens and whitespace. The left-to-right and right-to-left marks U+200E and U+200F are kept by `clean`, and so does the model.
- `IranjibScraper.ParseRow` takes integer column indices. JavaScript's non-integer numbers, `NaN` and strings as indices are left out. A negative index makes `cells[i]` `undefined`, which is modelled as the same TypeError.
- A `char` stands for one UTF-16 code unit. Characters outside the Basic Multilingual Plane, which take two units, are left out. The labels and markup involved are all single units.
- The JavaScript regular-expression engine in general is left out. Only the two patterns used are modelled, as scans.

## Findings

| source | as written | input that shows it | evidently intended | confidence | as-written member | corrected member |
|---|---|---|---|---|---|---|
| src/services/iranjibScraper.js:20 | `cells.length < Math.max(valueIndex, changeIndex)` lets a row with exactly `max` cells through, and `clean(cells[max])` then throws a TypeError on `undefined` | a gold label followed by one cell `<td>x</td>`, read with columns 0 and 1; a Tether row with two cells, read with columns 1 and 2 | `cells.length <= Math.max(...)`, returning `null` whenever an index is past the last cell | not executed | IranjibScraper.ParseRowOneCellThrows | IranjibScraper.ParseRowChecked |

A cell fragment can hold a second `</td>`. `HtmlScan.CloseInsideOpeningTag` shows it: the `[^>]*` of the opening tag can swallow a `</td`. The model states what does hold instead: every fragment is one complete match of the regex, and the lazy part stops at the first `</td>` after the opening tag's `>`.
