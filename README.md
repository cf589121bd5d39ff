# ERP CV deadline highlighter: a verified model of the content script

The content script of the ERP CV deadline highlighter runs inside the ERP
placement page. While it is active, a timer fires once a second. On each
tick the script:

- expands an XPath template into one address per table row (rows 2 to 600);
- looks up the deadline cell at each address;
- reads its `DD-MM-YYYY HH:MM` text;
- compares that deadline with the clock;
- colours the cell and up to ten cells before it in its row as overdue (red),
  due within 24 hours (amber) or upcoming (green), and gives them a tooltip.

A set of `row-<index>-<text>` keys keeps a row from being marked twice.
Messages from the popup start, stop, clear and query the script, and the
listener also answers a `ping`. A
start also arms a five-minute auto-stop.

The model is split into Dafny modules that follow the script's parts:

| file | module | models |
|---|---|---|
| `wrappers.dfy` | `Wrappers` | `Option`, standing for `null`/NaN results |
| `text.dfy` | `Text` | `trim()`, `String(n)` and digit runs |
| `addresses.dfy` | `Addresses` | `String.prototype.replace` with a string pattern and a replacement free of `$`, and `generateXPathExpressions` |
| `timestamp.dfy` | `Timestamp` | `split(/[- :]/)`, `parseInt`, and `getElementDateTimeFromText` |
| `classify.dfy` | `Classify` | `getDeadlineStatus` and `getTimeRemaining` |
| `annotate.dfy` | `Annotate` | the `Cell` class (style, title and class list, updated in place), `getRowElements`, `applyDeadlineHighlight` and the clearing loop |
| `scanner.dfy` | `Scanner` | see below |

`Scanner` models:

- the frame search of `initializeExtension`;
- the class `ContentScript`, which holds the four globals and has methods for
  start, stop, auto-stop, clear, one tick of `highlightDeadlines`, and the
  message listener.

A tick is specified by a sequence of per-address `Step`s. Those are
`Missing`, `Blank`, `Seen`, `Unparsed` and `Mark`, and they are computed from
the keys recorded before the tick. The `Tick` method is proved to produce:

- the keys those steps add;
- the two counters;
- for every cell of the document, the state that the step-by-step function
  `CellAfter` gives.

The lemmas about `NewKeys` and `CellAfter` state what the scan promises. A
key is added exactly for a highlighted row. Keys of one tick never collide.
A cell outside every highlighted row group is untouched. The last highlight
to reach a cell decides its look. No class is ever taken away.

The host is given to the model as parameters:

- the XPath evaluator, as a function from an address to an optional cell
  position;
- `new Date(y, m, d, h, min)`, as a function to an optional epoch
  millisecond;
- the clock;
- `toLocaleString`;
- the frame names, where `None` is a name that cannot be read across origins;
- the timer ids.

`getElementDateTimeFromText` does not check the calendar, and the model does
not add such a check: `31-04-2024 10:00` is passed to the `Date`
constructor, which rolls it over (`Timestamp.NoCalendarCheck`). Any action
other than the five the listener knows is answered with `Unknown action`.

## Model

| member | source | states |
|---|---|---|
| Text.TrimIsInfix | content.js:113 | `trim()` gives the infix of the text between a blank-only prefix and a blank-only suffix, and the result neither starts nor ends with a blank |
| Text.TrimIdempotent | content.js:314 | trimming text that was already trimmed (the tick trims, then the parser trims again) changes nothing |
| Text.Decimal | content.js:94 | `String(n)` for a natural number: at least one character, all decimal digits, and no leading zero unless it is `0`; `Text.DecimalRoundTrip` reads it back |
| Text.DecimalRoundTrip | content.js:94 | reading back the decimal digits that `String(n)` writes gives `n` |
| Text.DecimalInjective | content.js:323 | different numbers have different decimal texts |
| Text.Trim | content.js:113 | `trim()` of the text; what it returns is stated by `Text.TrimIsInfix` (blank-only prefix and suffix dropped, the result neither starting nor ending with a blank) and `Text.TrimIdempotent` |
| Addresses.ReplaceFirst | content.js:94 | `replace` with a string pattern and a `$`-free replacement (the decimal row number); `Addresses.ReplaceFirstAt` states that it substitutes exactly the first occurrence, and `Addresses.ReplaceFirstAbsent` that text without the pattern is returned unchanged |
| Addresses.ReplaceFirstAt | content.js:94 | `replace` with a string pattern and a `$`-free replacement substitutes exactly the first occurrence and keeps the text around it |
| Addresses.ReplaceFirstAbsent | content.js:94 | a template without the placeholder comes back unchanged |
| Addresses.GenerateXPathExpressions | content.js:90-98 | returns `max(0, end - start + 1)` addresses; entry `j` is the template with its first placeholder replaced by `start + j`, then trimmed |
| Addresses.AddressFromParts | content.js:94-95 | with one placeholder after a `{`-free prefix, the address is prefix, decimal row number and suffix, and no placeholder is left in it |
| Addresses.AddressesDistinct | content.js:93-95 | different row numbers give different addresses when the suffix starts with a non-digit |
| Addresses.ConfiguredAddresses | content.js:13-15 | every address of the configured template is the fixed XPath with the decimal row number in place, has no placeholder left, and no two rows share an address |
| Timestamp.Split | content.js:113 | `split(/[- :]/)` always returns at least one field; `Timestamp.SplitJoin` states that it cuts the text at its separators, and `Timestamp.SplitPieces` that no field contains one |
| Timestamp.SplitJoin | content.js:113 | there is one field more than the text has separators, and the fields joined back with those separators, in order, give the text |
| Timestamp.SplitPieces | content.js:113 | no field that `split(/[- :]/)` returns contains `-`, a space or `:` |
| Timestamp.SplitNoSeparator | content.js:113 | text without `-`, space or `:` splits into one field |
| Timestamp.SplitFiveFields | content.js:113 | given separators at four positions, and a fifth or the end, the first five fields are the runs between them |
| Timestamp.SplitDeadlineText | content.js:113 | the first five fields of `D-M-Y H:N...` are D, M, Y, H and N |
| Timestamp.ParseInt | content.js:120-124 | `parseInt(s, 10)`; `Timestamp.ParseIntDigits` states that it reads a leading digit run and ignores the rest, `Timestamp.ParseIntRejects` that some texts give NaN, `Timestamp.ParseIntDecimal` that it reads back `String(n)` |
| Timestamp.ParseIntDigits | content.js:120-124 | `parseInt` of digits followed by a non-digit is the value of the digits; the rest is ignored |
| Timestamp.ParseIntRejects | content.js:120-127 | `parseInt` of the empty string, or of text starting with something other than a blank, sign or digit, is NaN |
| Timestamp.ParseIntDecimal | content.js:120-124 | `parseInt` reads back the decimal text of any number |
| Timestamp.ReadFieldsNone | content.js:120-130 | one unreadable field makes the reading of the fields fail |
| Timestamp.ReadFieldsAll | content.js:120-124 | when every field reads as a number, the reading is those numbers, in order |
| Timestamp.GetElementDateTimeFromText | content.js:106-145 | the parser; stated by the lemmas below: `null` for blank text, fewer than five fields, an unreadable field or a NaN time (`BlankTextRefused`, `ShortTextRefused`, `UnreadableFieldRefused`, `ReadFiveFields`), otherwise the constructor's time (`DeadlineIsConstructed`), and the `DD-MM-YYYY HH:MM` round trip (`ParseFormattedDeadline`) |
| Timestamp.DeadlineIsConstructed | content.js:106-140 | a deadline is only read from non-blank text of at least five fields, and its time is what `new Date` gave for its five numbers |
| Timestamp.BlankTextRefused | content.js:108-110 | empty or all-blank text gives `null` |
| Timestamp.ShortTextRefused | content.js:115-118 | text that splits into fewer than five fields gives `null` |
| Timestamp.UnreadableFieldRefused | content.js:126-130 | text one of whose first five fields `parseInt` cannot read gives `null` |
| Timestamp.GarbageRefused | content.js:115-118 | `garbage` is one field, so it gives `null` |
| Timestamp.ReadFiveFields | content.js:120-140 | for non-empty text that is already trimmed, as the scan passes it after its own `trim()` (content.js:314): when the first five fields read as numbers, the result is the deadline `new Date(year, month - 1, day, hour, minute)`, and `null` exactly when that time is NaN |
| Timestamp.ParseFormattedDeadline | content.js:106-145 | round trip: a deadline written as `DD-MM-YYYY HH:MM`, possibly followed by more fields, reads back as the same numbers (month made zero-based), and is `null` exactly when the `Date` constructor gives NaN |
| Timestamp.ExampleDeadline | content.js:103-106 | `05-03-2024 14:30` is passed to the constructor as year 2024, month 2, day 5, 14:30 |
| Timestamp.NoCalendarCheck | content.js:132-138 | `31-04-2024 10:00` is passed to the constructor as 31 April; it is refused only if the constructor gives NaN |
| Classify.GetDeadlineStatus | content.js:199-222 | overdue exactly when the difference is negative, warning exactly when it is between 0 and 86 400 000 ms inclusive, upcoming exactly above that; each status paired with its configured colour and message |
| Classify.StatusMonotone | content.js:199-222 | seen at a later time, a deadline is never in a less urgent status |
| Classify.Truncation | content.js:268-274 | whole days, whole hours of the rest and whole minutes of the rest are below 24 hours and 60 minutes and fall short of the difference by less than one unit |
| Classify.GetTimeRemaining | content.js:263-277 | overdue form exactly for a negative difference; hours below 24, minutes below 60; the days, hours (and minutes) cover the absolute difference to within one hour (one minute) |
| Classify.RemainingUnique | content.js:263-277 | any normal decomposition within one unit of the difference equals the one `getTimeRemaining` gives |
| Classify.StatusAgreesWithRemaining | content.js:263-267 | the status is overdue exactly when the remaining time is in its overdue form |
| Classify.RemainingText | content.js:270-275 | the line `Overdue by: <d>d <h>h` or `Time remaining: <d>d <h>h <m>m` with the decimal numbers of the decomposition; `Classify.OverdueTextHasNoMinutes` states the overdue form's shape |
| Classify.OverdueTextHasNoMinutes | content.js:270 | the overdue line starts `Overdue by: `, ends with the hours, and has no `m` (no minutes) in it |
| Annotate.StatusClassInjective | content.js:252 | the three `erp-status-*` classes are distinct |
| Annotate.Highlighted | content.js:237-252 | the state a cell is left in by the highlight: status colour, grey 1px solid border, the given title, and the cell's classes plus `erp-deadline-highlighted` and `erp-status-<status>`; `Annotate.HighlightIdempotent` adds that it is idempotent |
| Annotate.Title | content.js:248 | the tooltip `Deadline: <locale text>\nStatus: <message>\n<remaining>`; `Annotate.ApplyDeadlineHighlight` states which status and remaining time it carries |
| Annotate.Cell.Highlight | content.js:237-252 | one cell gets transition, status colour, grey 1px solid border, shadow, the title, and the two marker classes |
| Annotate.HighlightIdempotent | content.js:230-255 | highlighting twice with the same status and title leaves the cell as highlighting once |
| Annotate.Cleared | content.js:383-389 | the state a cell is left in by clearing: background, border and shadow reset, title emptied, transition kept, the four marker classes removed; `Annotate.ClearIdempotent` and `Annotate.ClearAfterHighlight` relate it to itself and to the highlight |
| Annotate.Cell.Clear | content.js:383-389 | one cell has background, border and shadow reset, title emptied, and the four marker classes removed |
| Annotate.ClearIdempotent | content.js:383-389 | clearing twice is clearing once |
| Annotate.ClearAfterHighlight | content.js:383-389 | clearing a highlight restores the cell as clearing alone would, except for the transition the highlight set |
| Annotate.GetRowElements | content.js:152-191 | empty for no cell; otherwise the cell and its preceding siblings, nearest first, `1 + min(10, col)` of them |
| Annotate.GroupIsRowElements | content.js:179-186 | the listed cells are exactly the cell and the up to ten cells before it |
| Annotate.HighlightCells | content.js:234-254 | every listed cell is highlighted once in effect, however often it is listed |
| Annotate.ApplyDeadlineHighlight | content.js:230-255 | every cell of the row group gets the highlight for the status and remaining time of the deadline against now |
| Annotate.ClearCells | content.js:381-390 | every cell carrying the highlight class is cleared, and every other cell is unchanged |
| Scanner.FindTargetFrame | content.js:40-61 | the named frame if the lookup finds one; else the first frame whose readable name matches; else the window; it always finds a target |
| Scanner.ResolutionUnique | content.js:40-61 | only one target fits that description |
| Scanner.RowKey | content.js:323 | the key `row-<i>-<text>`; `Scanner.RowKeyInjective` states that it tells addresses and texts apart |
| Scanner.RowKeyInjective | content.js:323 | keys `row-<i>-<text>` of different indices or texts differ |
| Scanner.StepAt | content.js:299-345 | the outcome of one address against the keys recorded before the tick (`Missing`, `Blank`, `Seen`, `Unparsed` or `Mark`); `Scanner.ContentScript.ScanAddress` is proved to carry it out, and the `NewKeys` and `CellAfter` lemmas below state what a sequence of them does |
| Scanner.NewKeysExactly | content.js:323-345 | a tick adds a key exactly for an address whose row group it highlighted, with that address's index and text |
| Scanner.NewKeysBelow | content.js:323-326 | the keys the first `n` addresses add never carry a later index, so no address sees a key added earlier in the same tick |
| Scanner.MarkedWithinProcessed | content.js:316-345 | the highlighted count never exceeds the processed count, which never exceeds the number of addresses |
| Scanner.CellAfterUntouched | content.js:298-351 | a cell outside every highlighted row group keeps its state through the tick |
| Scanner.CellAfterLastMark | content.js:298-351 | the last highlight to reach a cell decides its style and title, and leaves its two classes on it |
| Scanner.CellAfterKeepsClasses | content.js:298-351 | a tick never takes a class away from a cell |
| Scanner.Started | content.js:63-74 | after a start the script is active with a timer and the target found, and the keys are kept |
| Scanner.Stopped | content.js:366-373 | after a stop there is no timer and the script is inactive, and target and keys are kept |
| Scanner.StopIdempotent | content.js:366-373 | stopping twice is stopping once |
| Scanner.Reply | content.js:403-443 | `start` succeeds exactly when inactive (else `Extension already running`); an action outside the five gets `Unknown action` |
| Scanner.ContentScript.constructor | content.js:28-31 | the script loads with no timer, no target, inactive and with no keys |
| Scanner.ContentScript.InitializeExtension | content.js:34-66 | finds the target as `FindTargetFrame` does, becomes active with the new timer, and reports success |
| Scanner.ContentScript.StartHighlighting | content.js:69-81 | on an active script with a target, the running timer is replaced by the new one and the control invariant `Valid` is kept |
| Scanner.ContentScript.Stop | content.js:366-373 | the new state is the stopped state |
| Scanner.ContentScript.AutoStop | content.js:77-80 | the auto-stop acts as a stop, in whatever state it fires |
| Scanner.ContentScript.Clear | content.js:378-397 | with a target and a readable document, every highlighted cell is cleared and the keys are emptied; otherwise nothing changes; `Valid` is kept |
| Scanner.ContentScript.Tick | content.js:283-361 | inactive or without a target it changes nothing; otherwise keys, counters and every cell end as the steps of the configured addresses prescribe; `Valid` is kept |
| Scanner.ContentScript.ScanConfigured | content.js:288-351 | the addresses of any template and row range, expanded as `generateXPathExpressions` does and scanned in order (`Tick` passes the configured template and rows 2 to 600): keys, counts and cells as the steps of those addresses prescribe |
| Scanner.ContentScript.ScanAll | content.js:298-351 | the loop over the addresses produces the keys, counts and cell states of its steps |
| Scanner.ContentScript.ScanAddress | content.js:299-350 | one address: skipped when missing, blank or already keyed; otherwise highlighted and keyed if its text is a deadline |
| Scanner.ContentScript.MarkDeadline | content.js:329-345 | a parsed deadline highlights the row group against the clock and records the key; an unparsed one changes nothing |
| Scanner.ContentScript.RecordDeadline | content.js:337-345 | for a parsed deadline, the row group is highlighted with the status and title for the clock at that address, the key `row-<i>-<text>` is added, and no other cell changes |
| Scanner.ContentScript.HighlightGroup | content.js:342 | the call of `applyDeadlineHighlight` on the found cell: its row group is highlighted as `Annotate.ApplyDeadlineHighlight` states, and no other cell of the document changes |
| Scanner.ContentScript.HandleMessage | content.js:403-443 | the reply is the one for the state the message finds; start, stop and clear have their effects on the state and the cells, and status, ping and unknown actions change nothing; `Valid` is kept |

## Left out

- Timers: `setInterval` and `setTimeout` are not modelled as time. A tick and the auto-stop are method calls the environment makes. The timer id is a parameter. `AutoStop` may fire in any state, because `stopHighlighting` never cancels it. Timer ids have the type `TimerId` of positive numbers, as browsers hand them out, so `if (intervalID)` is modelled as "a timer is set".
- `Addresses.ReplaceFirst`: the `$&`, `$$`, `` $` `` and `$'` patterns that JavaScript expands in a string replacement are not modelled. The script only passes the row number, whose decimal text has no `$`.
- XPath evaluation against the live DOM is an abstract evaluator from an address to an optional cell position. A position outside the table counts as no node.
- `targetFrame.document`: `Tick` and `Clear` take the document of the target as a parameter, `None` when it cannot be read. The caller supplies the document of `targetFrame`; the model does not tie that document to the frame it holds.
- `previousElementSibling` is the cell one column to the left in the same row.
- `new Date(...)`, the clock and `toLocaleString` are host functions given as parameters. Their time-zone and locale behaviour is not modelled.
- `getDeadlineStatus` divides with `real`, which is exact. JavaScript's floating-point quotient of an integer number of milliseconds by 3 600 000 is not modelled.
- Exceptions: the try/catch blocks of `getElementDateTimeFromText`, `getRowElements`, `highlightDeadlines` and the message listener are not modelled. Nothing in the model throws, except that the evaluator and `targetFrame.document` may fail.
  - A failing evaluation is `None` for that one address.
  - An unreadable document is `None` for the whole tick. Every address would then be skipped, so the tick changes nothing.
  - Because nothing throws, the error reply `{success: false, message: error.message}` is never produced.
- The `Failed to start extension` reply is unreachable, because `initializeExtension` always returns true. `Scanner.Reply` has no branch for it.
- `el && el.style` in `applyDeadlineHighlight` and the `filter(el => el !== null)` in `getRowElements` are always true for table cells, so the model has no branch for them.
- Console logging, `safeInitialize` and its retry strategies, the URL checks, `background.js` and `popup.js` are not part of this model.
- `Timestamp.ParseFormattedDeadline`: the round trip is proved for zero-padded fields, as the table writes them. Unpadded or signed fields are covered only by the general lemmas `ReadFiveFields` and `ParseIntDigits`.
- `parseInt(s, 10)` is modelled for leading blanks, one sign and a digit run. Values too large for a double are not rounded.
