# PortScanner model

A Dafny model of the scanning core of the NR34P3R console port scanner,
`main.py` class `PortScanner`. It covers four parts:

- **Port-range resolution** (`processPortRange`). The answer to the
  "Port range" prompt becomes the ports to probe:
  - empty or `default` selects the 34 common ports;
  - `1` selects the single port typed at a second prompt;
  - `2` selects every port;
  - `start-end` selects an inclusive range.
  - Anything unusable falls back to the default list.
- **Description scraping** (`parseData` inside `fetchServiceInfo`). The
  page's tables are given as rows of cell texts. Each row is handled as
  follows:
  - the description column is chosen by the row's width;
  - the port token is taken from the start of the first cell;
  - the description is cleaned of `[n]` markers, other `[...]` annotations,
    surrounding whitespace and one trailing period;
  - the result is stored in the scanner's `descriptions` map in place, so a
    later row overwrites an earlier one with the same key.
- **One probe** (`scanPort`). The outcome of `connect_ex` and of the
  service-name lookup are inputs. An open port yields
  `(port, host, service, description)`. Anything else yields nothing.
- **Aggregation** (`startScan`):
  - the `as_completed` loop runs over any completion order (a permutation of
    the probed ports);
  - it counts progress and collects the open-port rows;
  - the rows are shown sorted by port and numbered from 1, or the "No open
    ports found" notice is shown.

The files follow the program's structure:

| file | module | contents |
|---|---|---|
| `wrappers.dfy` | `Wrappers` | `Option` |
| `text.dfy` | `Text` | the Python string operations used: `strip`, `lower`, `split`, `int()`, `str()` |
| `port_range.dfy` | `PortRange` | `processPortRange` and the default list |
| `descriptions.dfy` | `Descriptions` | port-token extraction, description cleaning, what a row and a page store |
| `probe.dfy` | `Probe` | `scanPort`, as written and corrected |
| `aggregate.dfy` | `Aggregate` | the collection loop, the sort, the numbered table |
| `scanner.dfy` | `Scanner` | class `PortScanner` with its `descriptions` map, the scraping loops, `fetchServiceInfo` and `startScan` |

Python's string operations are modelled on their ASCII part:

- `strip()` removes ASCII whitespace: space, tab, LF, VT, FF, CR and the
  separators U+001C..U+001F.
- `lower()` folds `A`-`Z`. No other character lower-cases to a letter of
  "default", so the comparison with `"default"` is exact.
- `int()` accepts an optional sign and ASCII digits, surrounded by the
  whitespace C's `isspace` recognises: space, tab, LF, VT, FF and CR. It does
  not skip U+001C..U+001F, so `int("80\x1c")` raises `ValueError` although
  `int("80\x1c".strip())` is 80.
- The regular expressions' `\d` is an ASCII digit.

The description column is the one the code uses: index 5 in rows of exactly
six cells, index 4 otherwise, and a row is read when it has more cells than
that index (main.py:139-142).

## Model

| member | source | states |
|---|---|---|
| `Text.Strip` | main.py:144-151 | `str.strip()`: a contiguous slice of the input, starting where leading whitespace ends, with no whitespace at either end |
| `Text.StripOfPadded` | main.py:243 | whitespace around a text with non-blank ends is exactly what `strip()` removes |
| `Text.StripLeft` | main.py:144 | the suffix left after the leading whitespace, which is all removed |
| `Text.StripRight` | main.py:151 | the prefix left before the trailing whitespace, which is all removed |
| `Text.StripLeftDropsSpace` | main.py:144 | everything `lstrip()` drops is whitespace |
| `Text.StripRightDropsSpace` | main.py:151 | everything `rstrip()` drops is whitespace |
| `Text.Lower` | main.py:236 | `lower()` keeps the length and lower-cases each character |
| `Text.Count` | main.py:258 | the number of occurrences of a character: at most the length, zero exactly when it does not occur |
| `Text.CountOccurrences` | main.py:258 | the count is the character's multiplicity in the text |
| `Text.Split` | main.py:261 | `split(sep)` gives one more piece than separators, no piece holds the separator, and joining the pieces with it gives back the input |
| `Text.SplitAtFirst` | main.py:261 | splitting peels off exactly the text before the first separator |
| `Text.SplitNone` | main.py:261 | a text without the separator is a single piece |
| `Text.ParseInt` | main.py:243 | `int()`: a value is produced only when the text left after stripping is a signed decimal, and it is that decimal's value; other text is the `ValueError` case |
| `Text.ParseSigned` | main.py:243 | on stripped text, only a signed decimal is read, with its value |
| `Text.ParseSignedAccepts` | main.py:243 | every signed decimal is read back with its value |
| `Text.ParseIntAccepts` | main.py:243 | a signed decimal surrounded by `int()` whitespace (space, tab, LF, VT, FF, CR) is accepted with its value |
| `Text.IntPaddingOf` | main.py:243 | when `int()` whitespace surrounds text with non-blank ends, `strip()` takes exactly that off and `int()` skips all of it |
| `Text.ParseIntShape` | main.py:243 | whatever `int()` accepts is a signed decimal surrounded by `int()` whitespace, with the value returned |
| `Text.StripBounds` | main.py:243 | the stripped text is the slice between a whitespace prefix and a whitespace suffix |
| `Text.ParseIntOfStrip` | main.py:243 | on stripped text `int()` reads exactly the signed decimal, and stripping first never changes a number `int()` alone reads |
| `Text.SeparatorNotSkipped` | main.py:243 | `int("\x1c5")` is rejected, while `int("\x1c5".strip())` is 5: `strip()` removes more than `int()` skips |
| `Text.StripOfDigits` | main.py:243 | `strip()` takes exactly the surrounding whitespace off a run of digits |
| `Text.StripIdempotent` | main.py:151 | stripping twice is stripping once |
| `Text.ParseIntNeedsDigit` | main.py:250-252 | text with no digit is rejected |
| `Text.ParseSignedNeedsFinalDigit` | main.py:250-252 | stripped text that does not end in a digit is rejected |
| `Text.NatToString` | main.py:215 | `str(n)`: non-empty decimal digits with no leading zero |
| `Text.IntToString` | main.py:215 | `str(n)` for any integer; the decimal rendering for non-negative ones |
| `Text.DigitsOfNatToString` | main.py:215 | the digits of `str(n)` read back as `n` |
| `Text.ParseIntOfNatToString` | main.py:243 | `int(str(n)) == n`, with any `int()` whitespace around the digits |
| `Text.NatToStringLength` | main.py:144 | a number below 10^k has at most k digits |
| `PortRange.Range` | main.py:256 | `range(lo, hi)`: `hi - lo` consecutive integers starting at `lo` |
| `PortRange.DefaultPortsWellFormed` | main.py:40-44 | the default list has 34 entries, strictly ascending, all in 1..65535 |
| `PortRange.AdjacentAscending` | main.py:40-44 | ascending neighbours make the whole list strictly ascending |
| `PortRange.RangeWellFormed` | main.py:254-264 | an inclusive range of valid ports is a well-formed answer |
| `PortRange.SingletonWellFormed` | main.py:245-246 | a single valid port is a well-formed answer |
| `PortRange.Fallback` | main.py:238 | every fallback to the default list is a well-formed answer |
| `PortRange.ProcessPortRange` | main.py:226-275 | every answer is non-empty, strictly ascending (so duplicate-free) and within 1..65535 |
| `PortRange.SinglePortMode` | main.py:240-252 | the single-port option yields a well-formed answer whatever is typed at the second prompt |
| `PortRange.FullRangeMode` | main.py:254-256 | the full-range option yields a well-formed answer |
| `PortRange.CustomRangeMode` | main.py:258-270 | the custom-range option yields a well-formed answer whatever the text around the dash |
| `PortRange.RangeOrDefault` | main.py:263-267 | the two converted ends give a well-formed answer, the range or the default list |
| `PortRange.RangeOrDefaultChoice` | main.py:261-270 | the range is chosen exactly when both ends converted and 1 <= start <= end <= 65535, the default list otherwise |
| `PortRange.DefaultSelection` | main.py:236-238 | an empty answer or "default" in any letter case gives exactly the 34-entry default list |
| `PortRange.FullRange` | main.py:254-256 | "2" gives exactly 1..65535 ascending |
| `PortRange.SinglePort` | main.py:240-252 | "1" gives `[p]` when the prompted text is an integer p in 1..65535, otherwise the default list |
| `PortRange.SinglePortTyped` | main.py:240-246 | any port 1..65535 typed in decimal, padded with any whitespace `strip()` removes, is probed alone |
| `PortRange.NotDefaultKeyword` | main.py:236 | an answer containing a dash is never the "default" keyword |
| `PortRange.CustomRange` | main.py:258-270 | "a-b" with one dash gives a..b inclusive when both parse and 1 <= a <= b <= 65535, otherwise the default list |
| `PortRange.DashAnswer` | main.py:236-261 | "x-y" with dash-free halves is not empty, not "default", not "1" or "2", contains a dash and splits into exactly `[x, y]` |
| `PortRange.CustomRangeOfParts` | main.py:261 | a two-piece split converts exactly its two pieces |
| `PortRange.TooManyDashes` | main.py:258-270 | more than one dash fails the two-way unpacking and gives the default list |
| `PortRange.Unrecognized` | main.py:272-275 | any other answer without a dash gives the default list |
| `PortRange.SeparatorInRange` | main.py:258-270 | "80\x1c-443" gives the default list: `int()` does not skip the separator before the dash |
| `PortRange.UnreadableLow` | main.py:258-270 | a range answer whose start `int()` rejects gives the default list |
| `PortRange.HttpRangeExample` | main.py:258-264 | "80-443" probes the 364 ports 80..443 |
| `PortRange.DecimalRendering` | main.py:261 | `int(str(n)) == n` and a decimal rendering has no dash, so it is one half of a range answer |
| `PortRange.TypedRange` | main.py:258-264 | any valid range typed in decimal as "a-b" probes exactly a..b inclusive |
| `PortRange.RangeIsNotDefault` | main.py:263-264 | a selected range never coincides with the default list |
| `Descriptions.LeadingDigits` | main.py:144 | `\d{1,5}`: the longest digit prefix of at most the given length |
| `Descriptions.PortToken` | main.py:144 | `^\d{1,5}(?:-\d{1,5})?` matches exactly when the text starts with a digit; the match is a prefix, one to five digits optionally followed by a dash and one to five digits |
| `Descriptions.PortTokenLongest` | main.py:144 | the match is greedy: no port token that is a prefix of the text is longer than the one returned, so "6000-6063" keys the whole range |
| `Descriptions.LeadingDigitsMaximal` | main.py:144 | every digit prefix within the cap is covered by the leading digit run |
| `Descriptions.RangeWithinMatch` | main.py:144 | a range prefix splits where the leading digit run ends, and its second run is covered by the second digit run |
| `Descriptions.LeadingDigitsOfRun` | main.py:144 | the digit prefix stops at the first non-digit or at the length cap |
| `Descriptions.PortTokenOfRun` | main.py:144 | a bare run of one to five digits is its own token |
| `Descriptions.PortTokenOfRange` | main.py:144 | "a-b" with runs of one to five digits, followed by a non-digit, yields "a-b" |
| `Descriptions.IndexOf` | main.py:151 | the position of the first occurrence of a character |
| `Descriptions.NumericRefLength` | main.py:149 | the length of a `[digits]` marker at the start of the text: a bracket, digits and a closing bracket, 0 if none |
| `Descriptions.NumericRefOfMarker` | main.py:149 | a leading `[` digits `]` is measured to its closing bracket |
| `Descriptions.RemoveNumericRefs` | main.py:149 | `sub(r"\[\d+\]", "")` never lengthens the text, only keeps its characters, and changes nothing without a `[` |
| `Descriptions.NumericRefsKeepPlain` | main.py:149 | text without `[` is copied unchanged in front of whatever follows it |
| `Descriptions.RemoveNumericRefsMarker` | main.py:149 | a `[digits]` marker after text without `[` is deleted and the text before it kept: `x + "[12]" + z` becomes `x` followed by the cleaned `z` |
| `Descriptions.MarkerRemoved` | main.py:149 | a leading marker is deleted and the scan goes on after it |
| `Descriptions.KeptBeforeMarker` | main.py:149 | a character other than `[` is copied and the scan goes on after it |
| `Descriptions.RemoveBracketed` | main.py:151 | `sub(r"\[[^\]]*\]", "")` never lengthens the text, only keeps its characters, changes nothing without a `[` or without a `]`, and leaves no `[` followed later by `]` |
| `Descriptions.RemoveBracketedPair` | main.py:151 | a `[...]` annotation after text without `[` is deleted and the text before it kept: `x + "[" + y + "]" + z` becomes `x` followed by the cleaned `z` |
| `Descriptions.IndexOfAtMost` | main.py:151 | the first `]` comes no later than any `]` |
| `Descriptions.DropTrailingDot` | main.py:153 | the text changes exactly when it ends in a period, and then it loses exactly that period; otherwise it is unchanged |
| `Descriptions.NoBracketPairSlice` | main.py:151 | a slice of bracket-free text is bracket-free |
| `Descriptions.CleanDescription` | main.py:147-153 | the cleaned cell is never longer than the cell, uses only its characters, has no `[...]` left and does not start with whitespace |
| `Descriptions.CleanPlain` | main.py:147-153 | a cell without brackets is only stripped and loses a trailing period |
| `Descriptions.CleanRemovesOneDot` | main.py:153 | exactly one trailing period is removed: cleaning `body + "."` gives `body` |
| `Descriptions.CleanWithFootnote` | main.py:147-153 | a cell `body + "[n]"` with bracket-free body cleans to the stripped body without its trailing period |
| `Descriptions.FootnoteKept` | main.py:147 | a cell starting with text and ending in a marker is unchanged by `strip()` |
| `Descriptions.FootnoteRemoved` | main.py:149 | the trailing marker of such a cell is deleted, leaving the body |
| `Descriptions.CleanAfterMarkers` | main.py:147-153 | a stripped cell whose markers leave bracket-free text is cleaned as that text |
| `Descriptions.DescriptionColumn` | main.py:139-142 | the column is 4 or 5, and a row is read exactly when it has at least five cells, and then the chosen column exists |
| `Descriptions.RowEntry` | main.py:136-157 | a row stores something exactly when it has at least five cells and its stripped first cell starts with a digit; the key is the regex match on that cell (`PortToken`, the longest port-token prefix) and the value the cleaned cell 5 (six-cell rows) or 4 |
| `Descriptions.Store` | main.py:156-157 | storing an entry puts its description under its key and leaves every other key as it was |
| `Descriptions.StoreAll` | main.py:156-157 | storing rows in order never removes a key |
| `Descriptions.RowEntries` | main.py:135-157 | one entry per row, each the row's own entry |
| `Descriptions.MapSeq` | main.py:135 | applies a function to each row, keeping the length |
| `Descriptions.PageEntries` | main.py:132-135 | one entry per row of the page, counting the rows of every table |
| `Descriptions.PageEntriesFlatten` | main.py:132-135 | the page's entries are the row entries of all its tables' rows, in page order: table boundaries do not matter |
| `Descriptions.StoreAllSnoc` | main.py:156-157 | storing one more entry updates the map built so far |
| `Descriptions.StoreAllKeys` | main.py:156-157 | a key is in the final map exactly when it was already there or some row stores it |
| `Descriptions.LastWriteWins` | main.py:156-157 | a key holds the description of the last row that stores it |
| `Descriptions.UnwrittenKeyUnchanged` | main.py:156-157 | keys no row stores keep their earlier presence and value |
| `Probe.Describe` | main.py:215 | the description under `str(port)`, or "no description available" |
| `Probe.ScanPort` | main.py:202-224 | a row exactly when `connect_ex` returned 0; it has the probed port and host, the looked-up service or "unknown", and the port's description; otherwise nothing |
| `Probe.CallLogger` | modules/custom_logger.py:38-45 | calling `exception` completes exactly with one argument; any other count raises `TypeError` |
| `Probe.ScanPortAsWritten` | main.py:222-224 | as written, a probe whose socket call raises ends in `TypeError` |
| `Probe.HandlerRaisesTypeError` | main.py:222-224 | the as-written probe raises where the corrected one reports nothing, and agrees with it on every returned error number |
| `Probe.DescribeAfterParse` | main.py:156-157 | a row whose stripped first cell is `str(port)` gives the port's description, its cleaned cell, when no later row's port token is `str(port)` |
| `Probe.RowEntryOfPort` | main.py:141-157 | a row of at least five cells whose stripped first cell is `str(port)` stores its cleaned description under `str(port)` |
| `Probe.DescribeUnnamed` | main.py:215 | a port no scraped row names reads "no description available" |
| `Aggregate.ProbeResult` | main.py:317-324 | probing a port of the target yields a row exactly when its connection returned 0, and the row is for that port and host |
| `Aggregate.OpenResults` | main.py:317-324 | the rows collected in completion order, never more than the completions |
| `Aggregate.Collected` | main.py:323-324 | a probe adds at most one row |
| `Aggregate.CollectResults` | main.py:304-324 | progress reaches the number of probed ports; `foundServices` is exactly the rows of the open ports in completion order |
| `Aggregate.OpenResultsAppend` | main.py:319-324 | collecting over two stretches of completions concatenates their rows |
| `Aggregate.OpenResultsContent` | main.py:319-324 | every collected row is the probe result of a probed port, and every probed port that accepted the connection is collected |
| `Aggregate.OpenResultsPermutation` | main.py:316-324 | any completion order collects the same rows, possibly reordered |
| `Aggregate.OpenResultsRemove` | main.py:319-324 | taking one completion out of the order removes exactly its row |
| `Aggregate.OpenResultsDistinct` | main.py:317-324 | each port is probed once, so collected rows have distinct ports |
| `Aggregate.MultisetCancel` | main.py:319 | equal collections stay equal after removing the same element |
| `Aggregate.NoDuplicatesMultiplicity` | main.py:317 | in a duplicate-free sequence each element occurs at most once |
| `Aggregate.TwoOccurrences` | main.py:317 | an element found at two positions occurs at least twice |
| `Aggregate.PermutationNoDuplicates` | main.py:317-319 | a completion order of distinct ports has no repeats |
| `Aggregate.InsertByPort` | main.py:342 | inserting into a port-sorted list keeps it sorted and adds exactly that row |
| `Aggregate.InsertedBound` | main.py:342 | a row whose port bounds the rest may stay in front after an insertion |
| `Aggregate.SortByPort` | main.py:342 | `sorted(..., key=port)`: sorted by port, with the same rows |
| `Aggregate.AscendingUnique` | main.py:342 | two strictly port-ascending lists with the same rows are equal |
| `Aggregate.AscendingHeads` | main.py:342 | such lists start with the same row |
| `Aggregate.AscendingTail` | main.py:342 | the rest of a strictly ascending list is strictly ascending |
| `Aggregate.SortedDistinctAscending` | main.py:342 | sorted rows with distinct ports are strictly ascending |
| `Aggregate.DistinctPortsPermutation` | main.py:342 | reordering rows keeps their ports distinct |
| `Aggregate.Enumerate` | main.py:342-343 | `enumerate(rows, 1)`: row i is numbered i + 1 and keeps port, service and description |
| `Aggregate.Present` | main.py:330-347 | the notice exactly when nothing was found, otherwise a table with one line per found row |
| `Aggregate.Shown` | main.py:342 | the table's rows are `foundServices` sorted by port |
| `Aggregate.ShownRows` | main.py:316-343 | the shown rows are strictly ascending by port, each the probe result of a probed port, and include every open probed port |
| `Aggregate.ReportIndependentOfOrder` | main.py:316-347 | the displayed result does not depend on the order in which probes complete |
| `Aggregate.ReportEmpty` | main.py:330-347 | "No open ports found" appears exactly when no probed port accepted the connection |
| `Aggregate.ReportTable` | main.py:330-345 | the table is numbered 1..n, strictly ascending by port, and lists exactly the open probed ports, each with its service and description |
| `Aggregate.EnumeratedRows` | main.py:342-343 | numbering ascending, probe-backed, covering rows gives the table those properties row by row |
| `Aggregate.SortedPermutationUnique` | main.py:342 | rows with distinct ports have exactly one arrangement sorted by port, so the table order is determined by the rows alone |
| `Aggregate.SortExample` | main.py:342 | rows completing for ports 443, 80, 22 are shown as 22, 80, 443 |
| `Aggregate.PortsNoDuplicates` | main.py:317 | resolved port lists have no repeated port |
| `Scanner.Loaded` | main.py:159-188 | a cache that loads replaces the map; otherwise a fetched page is scraped into it row by row; with neither cache nor page the map is unchanged |
| `Scanner.PortScanner.constructor` | main.py:37 | a new scanner has no descriptions |
| `Scanner.PortScanner.ParseData` | main.py:132-157 | after the nested loops, the map is the old map with every row's entry stored in page order |
| `Scanner.PortScanner.FetchServiceInfo` | main.py:177-188 | the map becomes the cached one when the cache loads; otherwise the scraped page is stored into it; a failed fetch leaves it unchanged |
| `Scanner.PortScanner.StartScan` | main.py:281-345 | descriptions are reset and reloaded; the port range is resolved from the stripped answer; progress reaches the number of resolved ports; the report is the presentation of the rows collected in completion order |
| `Scanner.ScannedPortsReport` | main.py:297-347 | for any range answer (stripped first) and completion order, the notice appears exactly when no resolved port is open; otherwise the table lists exactly the open resolved ports, strictly ascending, numbered from 1, each with its description |
| `Scanner.ParsedRow` | main.py:139-157 | the loop's step-by-step extraction is the row's entry |
| `Scanner.ScannedEntry` | main.py:139-157 | the cells the loop reads give exactly the row's entry |
| `Scanner.RowStep` | main.py:135-157 | storing the next row extends the stored prefix of the table |
| `Scanner.PageStep` | main.py:132-135 | a table contributes nothing before its rows are read, and all of its rows afterwards |

## Left out

- The interactive loop is not modelled: `handleCommands`, `showBanner`,
  `showHelp`, the prompts, and `run("cls")` (main.py:51-96, 361-397). It is
  console I/O and UI recursion.
- The constructor's environment loading, console set-up and banner are not
  modelled.
- The unused `Lock` is not modelled.
- The default list is the module constant `PortRange.DefaultPorts` rather
  than a scanner field, because it is never changed.
- The HTTP request and the HTML extraction are not modelled (main.py:109-130).
  The scraper receives the page's tables as rows of cell texts. `page = None`
  stands for a failed request or a non-200 answer.
- Scanner.PortScanner.StartScan: continues the scan with the map as the fetch
  left it. After a failed request, a non-200 answer, or an exception while
  scraping or writing the cache (main.py:120-124, 158-175), the program
  instead enters `handleCommands`, which never returns normally
  (main.py:74-96), so this scan is never resumed. That command session is not
  modelled. The scan also builds on the corrected `Probe.ScanPort`: as
  written, a probe whose socket call raises ends the scan with a `TypeError`
  and no report (see Findings).
- The JSON cache is taken as a `Cache` value: the file check, the read, the
  `makedirs` and the write-back (main.py:159-188). A cache holding JSON that
  is not a string-to-string object is not modelled.
- Sockets, `gethostbyname`, `connect_ex` and `getservbyport` are inputs: the
  `Target` value gives each port's connect outcome and service name. Host
  resolution failure (main.py:288-294) returns to the prompt and is not
  modelled.
- The thread pool is not modelled. The 100 workers and `as_completed` become a
  sequential loop over an arbitrary completion order (any permutation of the
  ports).
- Time-keeping, the duration's float rounding, and the progress-bar and table
  rendering are not modelled (main.py:301-302, 349-353).
- `build.py` is not part of this model.
- `modules/custom_logger.py` is not part of this model, apart from the arity
  of `exception`.
- Text.ParseInt: models `int()` on ASCII text: C whitespace, an optional sign
  and ASCII digits. Underscore separators, non-ASCII digits and non-ASCII
  whitespace, which Python also accepts, are not modelled. Nor is the limit of
  Python 3.11 and later on the number of digits `int()` converts (4300 by
  default, configurable): beyond it `int()` raises `ValueError`, while the
  model reads a number of any length, such as a port written with 5000
  leading zeros.
- Text.Strip: models `str.strip()` on ASCII whitespace only (including
  U+001C..U+001F). Non-ASCII whitespace such as U+0085, U+00A0 and the
  Unicode spaces is not stripped.
- Text.Lower: models `str.lower()` on ASCII letters only.
- Descriptions.PortToken: models `\d` as an ASCII digit. Python's `\d` also
  matches other Unicode decimal digits.
- Text.Count: its own contract gives bounds and the zero case; the exact
  value, the character's multiplicity, is `Text.CountOccurrences`.
- Descriptions.PortToken: its own contract admits any port-token prefix;
  that the match is the longest one is `Descriptions.PortTokenLongest`.
- Descriptions.NumericRefLength: its own contract states the shape of a
  measured marker; that a leading marker is always measured in full is
  `Descriptions.NumericRefOfMarker`.
- Descriptions.RemoveNumericRefs: its own contract gives bounds and the
  no-`[` case; the deletion of a marker is `Descriptions.RemoveNumericRefsMarker`.
  A marker nested after an unmatched `[` is not characterised.
- Descriptions.RemoveBracketed: its own contract gives bounds and the absence
  of bracket pairs; the deletion of an annotation is
  `Descriptions.RemoveBracketedPair`.
- Descriptions.CleanDescription: its own contract gives bounds; the exact
  result is stated for cells without brackets (`Descriptions.CleanPlain`,
  `Descriptions.CleanRemovesOneDot`) and for cells ending in one footnote
  marker (`Descriptions.CleanWithFootnote`), and each pass has its own exact
  lemma.
- Probe.ScanPort: models the handler as logging and returning `None` (the
  corrected behaviour); see Findings.

## Findings

| source | as written | input that shows it | evidently intended | confidence | as-written member | corrected member |
|---|---|---|---|---|---|---|
| main.py:222-224 with modules/custom_logger.py:38 | the handler calls `exception(e, message)` but `exception` takes one parameter, so the call raises `TypeError`, which `future.result()` (main.py:320) re-raises inside `startScan` | any probe whose socket call raises, e.g. `connect_ex` raising `OSError` | log the error and report the port as closed (`None`) | not executed | `Probe.ScanPortAsWritten`, `Probe.HandlerRaisesTypeError` | `Probe.ScanPort` |
