# Dust tracker — a verified model of its bookkeeping core

The dust tracker keeps a record of the pacman packages installed on an Arch
Linux machine and of when each one was last seen running. From that record it
works out how "dusty" each package is. This project models the part of
`DustTracker` that decides what the database holds and what the dashboard
shows:

- **Inventory reconcile** (`scan_installed_packages`, `_save_package`).
  - The output of `pacman -Qi` is parsed one line at a time.
  - A `Name` line starts a new record. `Description` and `Install Date` lines
    fill in its fields.
  - The value of a field line is whatever follows its first colon, stripped.
  - A later `Description` or `Install Date` line of the same record
    overwrites an earlier one.
  - Each finished record is upserted. The upsert keeps a stored `last_seen`
    and stamps a new package with the scan time.
  - A parse error escapes before the commit, so the transaction is dropped
    and the table keeps its old contents.
- **Activity correlation** (`scan_running_processes`).
  - Each executable is mapped to an owning package: the fifth
    whitespace-separated token of `pacman -Qo`.
  - The owning package's row gets its `last_seen` stamped, if the row exists.
  - One `process_scan` event is appended per resolved executable. Nothing is
    deduplicated.
  - A failed lookup, or one with too few tokens, is skipped.
- **Derived view** (`get_package_stats`).
  - `days_unused`: 999 for `'Never'`, otherwise the day difference truncated
    toward zero.
  - The dust percentage: the capped day count over 30 days, limited to 100.
  - The safety tag.
  - The list ordered by `days_unused` descending, then by name.
  - Three counts: the total, packages unused for a week, and dusty explicit
    packages.
- **Scan cycle** (`/api/scan` and `--scan-only`): the inventory scan, then
  the process scan. The cycle reports the conjunction of the two results.
  A parse exception from the inventory scan escapes before the process scan
  runs: the cycle is `Aborted` and both tables keep their contents. Each
  phase reads the clock on its own.

The model spans seven modules:

- `Wrappers`: `Option` and `Result`.
- `Text`: Python's `startswith`, `split(':', 1)`, `strip()` and `split()`.
- `PackageStore`: table rows, the upsert and the last-seen stamping, as
  functions on maps.
- `Inventory`: the parser's loop, one step at a time.
- `Correlation`: owner resolution and the event rows.
- `DustAnalyzer`: the derived columns, the ordering and the counts.
- `Tracker`: the `DustTracker` class. Its two fields are the `packages` and
  `usage_events` tables. Its methods change them in place, and each method is
  proved against the functions above.

Time is an integer number of seconds. `last_seen` is either `Never` or
`At(t)`.

Some behaviour of the code is easy to overlook:

- `unused_week` leaves out `'Never'` rows: `julianday('Never')` is NULL, so
  the `> 7` test is not true (dust_tracker.py:187), although the list shows
  such a row with 999 days and tags it safe when it is explicit.
- One event is logged per resolved executable, so a package with several
  running processes gets several events in one scan.
- The code never writes `'Never'`. A new package gets the scan time, so a
  `'Never'` row can only come from a database written by something else.
- The owner is the fifth whitespace-separated token of `pacman -Qo`'s
  answer. An executable path that holds whitespace shifts the tokens. With
  exactly one gap of whitespace in the path the owner comes out as `by`:
  a row named `by` would be stamped, and an event for `by` is logged. With
  two gaps it is `owned`, with three `is`, and with more a piece of the
  path.

## Model

| member | source | states |
|---|---|---|
| Text.Strip | dust_tracker.py:70-74 | `str.strip()` over the `isspace` set; its meaning is stated by `Text.StripSpec` |
| Text.Tokens | dust_tracker.py:125 | `str.split()` with no separator; its meaning is stated by `Text.TokensAreWords` and `Text.TokensOfJoinWords` |
| Text.ValueAfter | dust_tracker.py:70-74 | no value exactly when the line has no colon (the IndexError case) |
| Text.ValueAfterSpec | dust_tracker.py:70-74 | a value is the stripped text after the first colon of the line |
| Text.IsSpace | dust_tracker.py:70-74 | Python's `str.isspace()`, the characters `strip()` and `split()` discard: 0x09-0x0D, 0x1C-0x20, 0x85, 0xA0, 0x1680, 0x2000-0x200A, 0x2028, 0x2029, 0x202F, 0x205F and 0x3000 |
| Text.AsciiSpaces | dust_tracker.py:70-74 | among ASCII characters, whitespace is exactly the six of `string.whitespace` and the separators 0x1C-0x1F |
| Text.StartsWith | dust_tracker.py:67-73 | `str.startswith`: the string begins with the prefix |
| Text.StartsWithChars | dust_tracker.py:67-73 | a string starts with a prefix exactly when it is at least as long and agrees with it character by character |
| Text.StartsWithAppend | dust_tracker.py:67-73 | a prefix followed by anything starts with that prefix |
| Text.IndexOf | dust_tracker.py:70-74 | the first occurrence of the separator, or none exactly when it does not occur |
| Text.StripSpec | dust_tracker.py:70-74 | the stripped value is a slice of the input with only whitespace cut from both ends, and it neither starts nor ends with whitespace |
| Text.StripSlice | dust_tracker.py:70-74 | the stripped value starts right after the leading whitespace |
| Text.StripTrailing | dust_tracker.py:70-74 | only whitespace follows the stripped value |
| Text.StripEnds | dust_tracker.py:70-74 | the stripped value neither starts nor ends with whitespace |
| Text.LeadingAllSpaces | dust_tracker.py:70-74 | what `strip()` cuts at the front is all whitespace |
| Text.LeadingStops | dust_tracker.py:70-74 | `strip()` stops cutting at the first character that is not whitespace |
| Text.TrailingAllSpaces | dust_tracker.py:70-74 | what `strip()` cuts at the back is all whitespace |
| Text.TrailingStops | dust_tracker.py:70-74 | `strip()` stops cutting at the last character that is not whitespace |
| Text.WordLengthSpec | dust_tracker.py:125 | a token of `split()` runs over non-whitespace and ends at whitespace or at the end of the text |
| Text.TokensAreWords | dust_tracker.py:125 | every token of a no-argument split is a nonempty run of non-whitespace |
| Text.TokensOfWordThen | dust_tracker.py:125 | a word followed by whitespace or nothing is split off as one token |
| Text.TokensOfLine | dust_tracker.py:123-125 | splitting a command's one-line answer, words joined by single spaces and ended by a newline, gives back exactly those words |
| Text.WordSpaceThen | dust_tracker.py:125 | a word followed by a blank is split off as one token, ahead of the tokens of the rest |
| Text.SpaceThen | dust_tracker.py:125 | a leading blank adds no token |
| Text.NewlineNoTokens | dust_tracker.py:125 | a line break alone holds no token |
| Text.TokensOfJoinWords | dust_tracker.py:125 | splitting words joined by single spaces gives back exactly those words |
| PackageStore.Upsert | dust_tracker.py:87-101 | the named row gets the new metadata; a stored name keeps its `last_seen`, a new name gets `now`; every other row is unchanged |
| PackageStore.Save | dust_tracker.py:87-101 | `_save_package` of one record, a missing field stored as ''; its effect is stated by `PackageStore.Upsert` |
| PackageStore.SaveAll | dust_tracker.py:65-80 | after the upserts of a scan, the table's names are the old names plus the scanned ones |
| PackageStore.SaveAllKeepsLastSeen | dust_tracker.py:87-101 | after a reconcile, every row has its old `last_seen` if it was stored, and `now` otherwise |
| PackageStore.SaveAllUntouched | dust_tracker.py:65-80 | a stored package missing from pacman's answer keeps its row unchanged (nothing is deleted) |
| PackageStore.SaveAllLastWins | dust_tracker.py:65-80 | a name listed more than once ends with the metadata of its last record |
| PackageStore.LastExists | dust_tracker.py:65-80 | every scanned name has a last record |
| PackageStore.SaveAllIdempotent | dust_tracker.py:65-101 | reconciling twice with the same answer equals reconciling once, whatever the clock reads the second time |
| PackageStore.Stamp | dust_tracker.py:127-130 | the keys are unchanged; rows named by the scan get `last_seen = now` and nothing else changes; unnamed rows are unchanged |
| PackageStore.StampMonotone | dust_tracker.py:127-130 | when the clock is not behind a stored time, stamping never moves a `last_seen` backward |
| Inventory.Flush | dust_tracker.py:67-69 | the dict being filled goes to `_save_package` when it holds any key; one without a name raises KeyError (see `Inventory.OrphanDetailRaises`) |
| Inventory.Value | dust_tracker.py:70-74 | `line.split(':', 1)[1].strip()`; its meaning is stated by `Inventory.ValueSpec` |
| Inventory.ValueSpec | dust_tracker.py:70-74 | IndexError exactly when the line has no colon; otherwise the stripped text after the first colon |
| Inventory.Step | dust_tracker.py:66-74 | one turn of the loop: a `Name` line flushes and starts a new dict, a `Description` or `Install Date` line sets its field, a field line without a colon raises IndexError; its effect is stated by `Inventory.RunShape` and `Inventory.FilledStep` |
| Inventory.Run | dust_tracker.py:66-74 | the loop over a prefix of the lines, ended by the first exception; stated by `Inventory.RunNext` and `Inventory.ErrorSticks` |
| Inventory.Parse | dust_tracker.py:65-77 | the loop and the final flush; stated by `Inventory.ParseCharacterization` and `Inventory.ParseRecords` |
| Inventory.ParseCharacterization | dust_tracker.py:65-77 | parsing succeeds exactly when every `Name`/`Description`/`Install Date` line has a colon and no field line comes before the first `Name`; the record names are the `Name` values in order |
| Inventory.ParseRecords | dust_tracker.py:65-77 | on success, one record per block of lines that starts at a `Name` line, in order, carrying the block's `Name` value and the stripped values of its last `Description` and `Install Date` lines, `None` where there is none |
| Inventory.Blocks | dust_tracker.py:66-74 | the lines cut at each `Name` line; lines before the first `Name` line fall in no block (stated by `Inventory.BlocksWellFormed` and `Inventory.BlocksCover`) |
| Inventory.BlocksWellFormed | dust_tracker.py:66-67 | every block starts with a `Name` line and holds no other `Name` line |
| Inventory.BlocksCover | dust_tracker.py:66-67 | the blocks, one after the other, are exactly the lines from the first `Name` line on |
| Inventory.FirstNameSpec | dust_tracker.py:66-67 | no line before the first `Name` line is a `Name` line |
| Inventory.LastValue | dust_tracker.py:71-74 | the stripped value of the last line of a block that starts with a given key (stated by `Inventory.LastValueSpec`) |
| Inventory.LastValueSpec | dust_tracker.py:71-74 | the value of the last `key` line of the block, and `None` when the block has no `key` line: a later field line overwrites an earlier one |
| Inventory.BlockRecords | dust_tracker.py:65-77 | one record per block, in order |
| Inventory.FilledStep | dust_tracker.py:66-74 | one more line keeps the loop's state equal to the records of the finished blocks plus the dict of the open block |
| Inventory.NameFilled | dust_tracker.py:67-70 | a `Name` line turns the open block into a record and opens a block of its own |
| Inventory.DetailFilled | dust_tracker.py:71-74 | any other line joins the open block; a `Description` or `Install Date` line sets that field, the other field unchanged |
| Inventory.RunFilled | dust_tracker.py:66-74 | after any prefix of the lines, the loop's state is the records of its finished blocks and the dict of its open block |
| Inventory.KeysDiffer | dust_tracker.py:71-74 | no line is both a `Description` and an `Install Date` line |
| Inventory.RunShape | dust_tracker.py:65-77 | the loop invariant for every prefix of the lines: when it fails, and which names are flushed or pending |
| Inventory.NoNameValues | dust_tracker.py:66-70 | no names are collected exactly when no line starts with `Name` |
| Inventory.ErrorSticks | dust_tracker.py:65-77 | once a parse has raised, later lines do not change the outcome |
| Inventory.RunNext | dust_tracker.py:65-77 | the loop over one more line keeps a raised exception, and otherwise takes one more step |
| Inventory.RaisedAt | dust_tracker.py:65-77 | an exception raised at any line is the outcome of the whole parse |
| Inventory.OrphanDetailRaises | dust_tracker.py:67-76 | in the two-line answer `[detail, name]`, the `Description` or `Install Date` line leaves a dict without a name and the `Name` line raises KeyError |
| Inventory.NameWithoutColonRaises | dust_tracker.py:70 | the one-line answer of a `Name` line without a colon raises IndexError |
| Inventory.OrphanRaisesAt | dust_tracker.py:65-76 | at any position, the first `Name` line after a field line that no `Name` line precedes raises KeyError, when the lines before it hold their colons |
| Inventory.NameWithoutColonRaisesAt | dust_tracker.py:65-76 | at any position, a `Name` line without a colon raises IndexError, when the lines before it raise nothing and its flush does not raise KeyError |
| Correlation.OwnerOf | dust_tracker.py:123-125 | a name exactly when the lookup answered with at least five tokens, `None` for a failed or short lookup |
| Correlation.OwnerIsWord | dust_tracker.py:125 | a resolved owner is one whitespace-free word |
| Correlation.Resolved | dust_tracker.py:120-139 | the owners of the paths whose lookup succeeded, in path order, duplicates kept; stated by `Correlation.ResolvedCount`, `Correlation.ResolvedFromOutputs` and `Correlation.ResolvedSnoc` |
| Correlation.ResolvedSnoc | dust_tracker.py:120-139 | each further path adds its owner to the resolved names, or nothing when the lookup fails |
| Correlation.ResolvedCount | dust_tracker.py:120-139 | there are exactly as many resolved names as paths whose lookup succeeded |
| Correlation.ResolvedFromOutputs | dust_tracker.py:120-139 | every resolved name is the owner of some executable path |
| Correlation.EventsFor | dust_tracker.py:133-136 | one `process_scan` event stamped `now` per resolved name, in order |
| Correlation.EventsForSnoc | dust_tracker.py:133-136 | each further resolved name appends exactly one more event row |
| Correlation.PositionsSnoc | dust_tracker.py:120-139 | one more path adds its own position to the resolved positions when its owner is resolved, and no other |
| Correlation.NoDeduplication | dust_tracker.py:120-139 | two executables of one package append two identical events |
| Correlation.OwnerOfPacmanLine | dust_tracker.py:123-125 | for pacman's answer `<path> is owned by <pkg> <version>` with its final newline, the owner is `<pkg>` |
| Correlation.ExecutablePathWithSpace | dust_tracker.py:123-125 | in pacman's answer, with its final newline, a path with exactly one gap of whitespace makes the owner come out as `by` |
| Correlation.OwnerOfSpacedPath | dust_tracker.py:123-125 | for a path of any number of words, the owner read is the fifth of the path's words followed by `is owned by <pkg> <version>` |
| Correlation.OwnerOfWords | dust_tracker.py:123-125 | the owner read from a newline-ended answer of at least five words is its fifth word |
| DustAnalyzer.RowOf | dust_tracker.py:152-159 | the query's row for one stored package: its columns and `days_unused` |
| DustAnalyzer.WholeDays | dust_tracker.py:158 | truncation toward zero: the result is the whole number of days in the seconds, and never larger in magnitude |
| DustAnalyzer.DayDifference | dust_tracker.py:158 | NULL exactly for `'Never'`; not negative when `last_seen` is not in the future |
| DustAnalyzer.DaysUnused | dust_tracker.py:156-159 | 999 for `'Never'`, otherwise the truncated day difference |
| DustAnalyzer.DustPercentage | dust_tracker.py:166-167 | 100 from 30 days on; linear, `days*100/30`, up to 30; within [0, 100] for a nonnegative count |
| DustAnalyzer.DustMonotone | dust_tracker.py:166-167 | the dust percentage never drops as the day count grows |
| DustAnalyzer.DustBoundaries | dust_tracker.py:166-167 | 15 days give 50, 30 give 100, and 400 stay at 100 |
| DustAnalyzer.SafetyOf | dust_tracker.py:177 | safe exactly when explicitly installed and unused for more than 30 days |
| DustAnalyzer.ViewOf | dust_tracker.py:165-178 | each list entry copies the row's name, description, install date, explicit flag, `last_seen` and `days_unused` |
| DustAnalyzer.ViewOfSpec | dust_tracker.py:165-178 | each entry has a dust percentage in [0, 100] for a nonnegative day count, and is safe exactly when explicit with more than 30 days |
| DustAnalyzer.NameBefore | dust_tracker.py:161 | the BINARY collation of `ORDER BY ... name`: code point by code point, a proper prefix first |
| DustAnalyzer.NameBeforeTotal | dust_tracker.py:161 | the name order separates any two distinct names (with irreflexive, asymmetric and transitive lemmas beside it) |
| DustAnalyzer.Precedes | dust_tracker.py:161 | the key `ORDER BY days_unused DESC, name`: more idle days first, ties broken by name |
| DustAnalyzer.PrecedesStrictTotal | dust_tracker.py:161 | the order by `days_unused` descending, then name, is a strict total order on rows with distinct names |
| DustAnalyzer.FirstExists | dust_tracker.py:161 | a nonempty table has a row that comes first in that order |
| DustAnalyzer.Ordered | dust_tracker.py:152-162 | as many rows as stored packages |
| DustAnalyzer.OrderedSorted | dust_tracker.py:152-162 | the ordered rows are one row per stored package, each carrying that package's columns and `days_unused`, strictly sorted by `days_unused` descending, then name |
| DustAnalyzer.OrderedCons | dust_tracker.py:152-162 | the row that comes first, followed by the rest of the table in order, lists the whole table in order |
| DustAnalyzer.OrderedUnique | dust_tracker.py:152-162 | any sequence of the table's rows in that order is exactly the ordered list |
| DustAnalyzer.OrderingExample | dust_tracker.py:161 | two packages idle for 10 days and one idle for 5 come out as A, B, C |
| DustAnalyzer.Exceeds | dust_tracker.py:185-196 | SQL's `>` against a constant, never true of NULL, so a `'Never'` row passes neither count's test |
| DustAnalyzer.UnusedWeekNames | dust_tracker.py:184-189 | the rows the `unused_week` query counts: a day difference above 7, never a `'Never'` row (see `DustAnalyzer.NeverAsymmetry`) |
| DustAnalyzer.DustyExplicitNames | dust_tracker.py:191-197 | the rows the `dusty_explicit` query counts: explicit, a day difference above 30, not `'Never'` |
| DustAnalyzer.Summary | dust_tracker.py:181-197 | `total` is the number of packages, `unused_week` the number of rows the `> 7` query selects, `dusty_explicit` the number the third query selects; `dusty_explicit <= unused_week <= total` |
| DustAnalyzer.CountsMatchList | dust_tracker.py:184-197 | `unused_week` counts list entries with a real timestamp and more than 7 days; `dusty_explicit` counts safe entries with a real timestamp |
| DustAnalyzer.NeverAsymmetry | dust_tracker.py:156-197 | a `'Never'` row shows 999 days, is tagged safe when explicit, and is left out of both filtered counts |
| DustAnalyzer.SafetyExamples | dust_tracker.py:177 | explicit at 31 days is safe; explicit at 29 days, and a dependency at 400 days, are risky |
| DustAnalyzer.LongUnused | dust_tracker.py:158-167 | a package idle for 400 days shows 400 days and 100 percent |
| Tracker.InventoryError | dust_tracker.py:53-85 | the exception `scan_installed_packages` lets escape: a parse error once both pacman calls answered |
| Tracker.Reconciled | dust_tracker.py:53-85 | `packages` after the inventory scan returned: every parsed record upserted when both pacman calls answered, otherwise unchanged |
| Tracker.Correlated | dust_tracker.py:103-147 | `packages` after the process scan: the resolved owners stamped when `/proc` could be listed |
| Tracker.Logged | dust_tracker.py:133-136 | the events the process scan appends: one per resolved path |
| Tracker.ViewsOf | dust_tracker.py:164-178 | the list built one row at a time; stated by `Tracker.ViewsOfAt` and `Tracker.ViewsOfNames` |
| Tracker.DustTracker.constructor | dust_tracker.py:25-51 | the tracker starts from what the two tables already hold |
| Tracker.DustTracker.SavePackage | dust_tracker.py:87-101 | the table becomes the upsert of the record (a missing field stored as ''); events unchanged |
| Tracker.DustTracker.ScanInstalledPackages | dust_tracker.py:53-85 | a failed pacman call returns False and changes nothing; a parse error escapes and leaves the table as it was; otherwise returns True with every parsed record upserted in order; events unchanged |
| Tracker.DustTracker.ScanRunningProcesses | dust_tracker.py:103-147 | returns True exactly when `/proc` could be listed; rows of resolved owners stamped `now`; one event appended per resolved path, in order |
| Tracker.DustTracker.GetPackageStats | dust_tracker.py:149-208 | the list is the views of the ordered rows and the counts are the summary of the table, which leaves both tables unchanged |
| Tracker.DustTracker.ScanCycle | dust_tracker.py:224-232 | a parse error aborts the cycle before the process scan with both tables unchanged; otherwise both phases are applied, each with its own clock reading, and the result is the conjunction of their results |
| Tracker.ViewsOfAt | dust_tracker.py:164-178 | the entry at each position is the view of the row at that position |
| Tracker.ViewsOfNames | dust_tracker.py:164-178 | the entries carry exactly the names of the rows |
| Tracker.ViewsOfOrderedRows | dust_tracker.py:149-178 | a list built from rows in `days_unused DESC, name` order has one entry per stored package, with its derived fields, in that order |
| Tracker.PackageList | dust_tracker.py:149-178 | the list `get_package_stats` returns has one entry per stored package, names equal to the table's keys, each entry's derived fields, and strict `days_unused DESC, name` order |
| Tracker.CycleLastSeen | dust_tracker.py:841-844 | after a cycle, a package the process scan resolved has the process scan's time; any other keeps its stored `last_seen`, or the inventory scan's time when it was just inserted; with clocks that do not run backward, no `last_seen` moves backward |

## Left out

- Process and file I/O are parameters.
  - Each pacman call's output is `None` (CalledProcessError) or its text; `pacman -Qi` output is already split into lines.
  - The answer of `pacman -Qqe` is a set of names.
  - The `/proc` listing and its per-path `pacman -Qo` answers are a sequence of optional outputs.
  - A failure to list `/proc` is `None`.
- Tracker.DustTracker.ScanInstalledPackages: the only failure of a pacman call it models is CalledProcessError, which the source catches, returning False. Other exceptions escape it uncaught and are not modelled: pacman cannot be started (FileNotFoundError from `check_output`), or `sqlite3.connect`, an upsert or the commit fails. In the source such an exception ends `/api/scan` and `--scan-only` before the process scan runs.
- Byte decoding is not modelled. A UnicodeDecodeError would abort a scan, inside or outside its `try`.
- The process loop models only the two per-lookup failures it catches, CalledProcessError and IndexError. Any other exception would make the scan return False and roll back; sqlite errors are one example. Such exceptions are not modelled.
- The sqlite connection handling is not modelled, and neither are `init_db` and its schema.
  - Tables are a map keyed by name and a sequence of events.
  - The foreign key from events to packages is not enforced by sqlite, and the model does not enforce it either.
- One clock reading is used for all the upserts of an inventory scan. The source reads `datetime.now()` again for every upserted package. The process scan reads its own clock once, as the source does.
- Tracker.DustTracker.GetPackageStats: the list and both counts are computed from one snapshot of `packages` with one clock reading. The source runs three separate statements, each with its own `julianday('now')`, and no transaction spans them. A day boundary between the statements can therefore make a row show 7 days in the list and still count in `unused_week`. `DustAnalyzer.CountsMatchList` holds only for a shared reading.
- The timezone is not modelled.
  - `get_package_stats` subtracts a local-time `last_seen` from the UTC `julianday('now')`.
  - The model uses a single time line in seconds.
- Timestamps are integers, not ISO strings. A `last_seen` that the Julian-day function cannot read (NULL) is not representable beyond `'Never'`.
- The dust percentage uses exact rational arithmetic, not floats.
- Names are ordered by plain code-point comparison. For UTF-8 text this agrees with sqlite's default (BINARY) collation, which `ORDER BY name` uses.
- The HTML/JavaScript dashboard, the HTTP handler and its routing, the JSON encoding, the systemd unit, the port search, the single-instance check, the CLI dispatch and the printed messages are outside this model.
  - An exception escaping `/api/scan` or `--scan-only` is modelled only as an aborted cycle.
- Text.TokensAreWords: it states only that every token is a word. That the tokens are exactly the words of the input is proved by `Text.TokensOfJoinWords`, for words joined by single spaces, and not for arbitrary runs of whitespace.
