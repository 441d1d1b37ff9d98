# checkswap: swap-trigger and netstat-block scanners

A Dafny model of the core of `debug/checkswap.py`, a diagnostic script that
reads two logs written by a host-monitoring job:

- **The checkswap file** is a CSV of `datetime, recordtype, value` rows.
  With `--mintrigger`, the script folds over these rows.
  - It prints a `restart` line for every `apache restart initiated` record.
    The line reports the value remembered from earlier rows.
  - It prints a `TRIGGERED` line when a `free swap` value falls to the
    trigger or below.
  - It prints a `recovered` line once the value has climbed past both of
    these: the lowest value since the trigger plus `--recovery`, and the
    trigger plus `--debounce`.
- **The details file** is raw text. With `--netstat`, the script finds
  blocks of `netstat` output.
  - A block opens at a timestamped line whose third word is `netstat`.
  - Opening also needs the line's time to be more than 15 minutes
    (`NSFILTER`) after the previously opened block.
  - The block collects the untimestamped lines that follow.
  - The next timestamped line closes it.
  - Each closed block goes to `printnetstat`.
- **`printnetstat`** keeps the connections in `CLOSE_WAIT` or `TIME_WAIT`.
  - It takes the host part of each foreign address.
  - It keeps a host only when every dot-separated piece is an integer.
  - It counts the connections per host.
  - It sorts the hosts by their integer tuples.

Modules:

- `Strings` holds the Python 2 primitives the scanners use:
  - `s[0:n]`;
  - `str.split` with a one-character separator;
  - `int()` on a byte string, which allows surrounding whitespace, an
    optional sign, and whitespace after the sign.
- `Timestamps`:
  - the timestamp converter, as a parameter `Parser`;
  - the epoch;
  - `NSFILTER`;
  - the hours/minutes/seconds split of an elapsed time.
- `SwapRecords` is `CheckSwapRec`.
  - It is a loop that pops up to three fields off the front of the row.
  - `int()` is applied to the third field.
  - A non-integer third field aborts the scan.
- `SwapTrigger` is the `--mintrigger` scan.
  - `Next` is the pure step function.
  - `RunRows` is the fold over rows. It stops at the first error.
  - `SwapScanner` is a class holding `state`, `lastvalue`, `laston`,
    `lowvalue` and the printed lines. Its `Step` method is proved equal to
    `Next`.
  - `ScanSwap` is the loop, proved equal to the fold.
  - The printed lines are a sequence of `SwapEvent` values: `Restart`,
    `Triggered` with an optional elapsed time, and `Recovered` with the low
    value.
- `NetstatBlocks` is `chknetstat`, `chkevent` and the `--netstat` scan.
  - `BlockGrouper` is a class with a `Step` method.
  - `ScanNetstat` is the loop.
  - `Blocks` is an independent description of the blocks the loop hands on.
- `Connections` is the counting and sorting half of `printnetstat`.
- `NetstatReport` runs the whole `--netstat` pass. Each block is read as a
  connection table and aggregated with a fresh count.

In these places the script behaves in ways a reader might not expect,
and the model follows the script:

- The netstat marker is the third token of `split(' ')`. That is a split on
  single spaces, not on any whitespace.
- Lines are read with their line feed. So a line that ends in `netstat` has
  the third token `netstat` plus a line feed, and it does not open a block
  (`NetstatBlocks.NewlineHidesMarker`).
- Hosts are not checked to be four octets in 0..255. `999.1.1.1` and
  five-piece hosts are counted (`Connections.NoRangeCheck`).
- `if rec.value:` treats a value of 0 like a missing value. Neither updates
  `lastvalue`.
- The timestamp of a record that triggers is converted outside any `try`. A
  bad timestamp there aborts the scan.

## Model

| member | source | states |
|---|---|---|
| Strings.Prefix | debug/checkswap.py:47 | the slice `row[0:19]` is a prefix of the line, 19 characters long or the whole line when shorter; slicing never fails |
| Strings.ParseShow | debug/checkswap.py:39 | `int()` reads back the decimal text of every integer, negative ones included |
| Strings.ParseIntPadded | debug/checkswap.py:39 | `int()` gives the same value, or the same ValueError, when whitespace is added on either side of its argument |
| Strings.Split | debug/checkswap.py:48 | `split(sep)` gives at least one piece, and no piece contains the separator |
| Strings.JoinSplit | debug/checkswap.py:48 | splitting loses nothing: joining the pieces with the separator gives back the line |
| Strings.SplitJoin | debug/checkswap.py:48 | pieces free of the separator come back unchanged when their join is split |
| Strings.Before | debug/checkswap.py:73 | `split(':')[0]` is a prefix of the address that has no `:`, and it ends at the end of the address or at its first `:` |
| Timestamps.Head | debug/checkswap.py:47 | the part of a line tested as a timestamp (`row[0:19]`) is its first 19 characters, or the whole line when it is shorter |
| Timestamps.SplitDuration | debug/checkswap.py:154-155 | the elapsed time splits into hours, then minutes and seconds each in 0..59, which add back to the total; hours are not capped at 23 |
| Timestamps.SplitTotal | debug/checkswap.py:154-155 | the split is unique: any hours with in-range minutes and seconds are recovered from their total |
| SwapRecords.Field | debug/checkswap.py:37-41 | the k-th pop yields the k-th field when the row reaches it, and None (the caught IndexError) otherwise |
| SwapRecords.RecordOf | debug/checkswap.py:33-41 | the record fails exactly when the row has a third field that `int()` rejects; otherwise its fields are filled from the front, the record type is the second field, and a value is present exactly when the row has a third field |
| SwapRecords.ParseRecord | debug/checkswap.py:34-41 | the pop loop builds the record `RecordOf` describes: datetime and record type from the first two fields, the value as `int()` of the third, and fields past the third ignored |
| SwapTrigger.Remembered | debug/checkswap.py:141-142 | `lastvalue` takes the record's value only when it is present and nonzero |
| SwapTrigger.Min | debug/checkswap.py:165 | `min` is at most both arguments and is one of them |
| SwapTrigger.Next | debug/checkswap.py:139-168 | the whole new state for one record. A restart prints the old `lastvalue` and changes nothing else; other non-free-swap types change only `lastvalue`. In search mode a free-swap value above `mintrigger` changes only `lastvalue`. A value at or below it prints one TRIGGERED line with the record's datetime and value and, when there is a `laston`, the time since it; it switches to found mode with `laston` at the record's time and `lowvalue` at its value. That step fails, changing nothing, exactly when the datetime does not parse. In found mode `laston` is kept and `lowvalue` becomes the minimum with the value; when the value clears both strict margins one recovered line with the value and that minimum is printed and the mode goes back to search, and otherwise nothing is printed |
| SwapTrigger.Alarms | debug/checkswap.py:148-168 | the TRIGGERED and recovered lines among the printed lines: no more of them than printed lines, and no restart line among them |
| SwapTrigger.NextAlarms | debug/checkswap.py:139-168 | a step that does not fail only appends to the printed lines, and adds one alarm line exactly when it switches mode; a found-mode step that stays in found mode lowers `lowvalue` to the minimum with a free-swap value and leaves it alone otherwise |
| SwapTrigger.ConsumeAbort | debug/checkswap.py:135-141 | a row that raises leaves the state and the printed lines as they were; a row whose third field `int()` rejects raises that error; any other row that is not a free-swap record does not raise |
| SwapTrigger.ConsumeAlarms | debug/checkswap.py:135-168 | what `NextAlarms` states for one record holds for one row of the file |
| SwapTrigger.RunRowsSnoc | debug/checkswap.py:135-168 | the scan over one more row is one more pass of the loop body, unless an earlier row has already aborted it |
| SwapTrigger.RunRowsAppend | debug/checkswap.py:135-168 | the scan over two runs of rows is the scan over the second run started from the state the first run ends in, as long as the first run does not abort |
| SwapTrigger.RunRowsGrows | debug/checkswap.py:135-168 | a scan never takes back a printed line |
| SwapTrigger.LowSinceTrigger | debug/checkswap.py:150-166 | from found mode, as long as no alarm line is printed, the scan stays in found mode and `lowvalue` is the minimum of its value at the start and every free-swap value read since |
| SwapTrigger.RecoveredLow | debug/checkswap.py:161-168 | from found mode with no alarm line printed since, the row that switches back to search is a free-swap row with a value, and it prints exactly one recovered line: that row's datetime and value and, as its low value, the minimum of `lowvalue` at the start and every free-swap value read since, its own included. Right after a trigger, that `lowvalue` is the triggering value (`Next`) |
| SwapTrigger.StartInv | debug/checkswap.py:127-130 | the scan invariant holds before the first row |
| SwapTrigger.AlarmsTrigger | debug/checkswap.py:148-161 | a TRIGGERED line printed in search mode, at or below `mintrigger` and with the time since `laston`, keeps the promises below and becomes the trigger `laston` records |
| SwapTrigger.AlarmsRecover | debug/checkswap.py:164-168 | a recovered line printed in found mode, clearing both margins with a low value at most the triggering value, keeps the promises below and leaves `laston` alone |
| SwapTrigger.NextKeepsInv | debug/checkswap.py:139-168 | every step keeps the invariant: the promises below, mode parity, `laston` equal to the last trigger's time, and `lowvalue` at most the triggering value |
| SwapTrigger.RunRowsKeepsInv | debug/checkswap.py:135-168 | the invariant holds after any number of rows, up to the first abort |
| SwapTrigger.ScanKeepsPromises | debug/checkswap.py:126-168 | for any rows, the printed lines promise four things: TRIGGERED and recovered strictly alternate, starting with TRIGGERED; triggers are at or below `mintrigger`; recoveries clear both margins with a low value at most the preceding trigger's value; the first trigger has no elapsed field and each later one has the time since the previous trigger |
| SwapTrigger.RecoveredBounds | debug/checkswap.py:164-168 | a recovered line never reports a value at or below `mintrigger + debounce`, nor a low value above `mintrigger` |
| SwapTrigger.RunRowsLastValue | debug/checkswap.py:128-142 | after a scan that did not abort, `lastvalue` is the last nonzero value read, or 0 |
| SwapTrigger.RestartReportsLastValue | debug/checkswap.py:139-142 | a restart row prints the value remembered from the rows before it, never its own |
| SwapTrigger.RunRowsAbortStays | debug/checkswap.py:135-136 | once a row aborts the scan, later rows change nothing |
| SwapTrigger.SwapScanner.constructor | debug/checkswap.py:127-130 | the scanner starts in search mode with `lastvalue` 0, no `laston`, and nothing printed |
| SwapTrigger.SwapScanner.Update | debug/checkswap.py:139-168 | the in-place update of the scan variables for one record leaves exactly the state `Next` gives; on an abort only `lastvalue` has changed, since line 142 runs before the timestamp conversion at line 150 raises |
| SwapTrigger.SwapScanner.Step | debug/checkswap.py:139-168 | the same update as `Update`, and it keeps the scan invariant: the promises of the printed lines, mode parity, `laston` and `lowvalue` |
| SwapTrigger.ScanRow | debug/checkswap.py:135-168 | one pass of the loop, `CheckSwapRec` then the record's step, is the outcome of `Consume` on that row; on an abort the printed lines are those of the scan so far |
| SwapTrigger.ScanSwap | debug/checkswap.py:126-168 | the loop over the rows prints the lines of the fold and stops at the first error, and those lines keep the promises |
| NetstatBlocks.NetstatIsEvent | debug/checkswap.py:45-64 | a line `chknetstat` accepts is one `chkevent` accepts, and the time it returns is the time of its first 19 characters |
| NetstatBlocks.EventReadsHeadOnly | debug/checkswap.py:59-64 | `chkevent` reads only the first 19 characters of a line; whatever follows them never changes its answer |
| NetstatBlocks.Opens | debug/checkswap.py:183-187 | a line opens a block exactly when `chknetstat` gives it a time more than 15 minutes after `nsdt`, and the block opens at that time |
| NetstatBlocks.GrouperStepBlocks | debug/checkswap.py:183-201 | one pass of the loop body hands a block on exactly when a timestamped line comes in found state; that block is the buffer with its opening time, and the state goes back to search; a block opens only at a line that passes the filter, with an empty buffer |
| NetstatBlocks.GrouperRunGrows | debug/checkswap.py:180-201 | blocks once handed on are never taken back |
| NetstatBlocks.BlocksCount | debug/checkswap.py:183-201 | each block uses up at least its opening and its closing line, so there are at most half as many blocks as lines |
| NetstatBlocks.Untimestamped | debug/checkswap.py:192-195 | the run of lines buffered into a block: none of them is timestamped, and the line after the run is timestamped |
| NetstatBlocks.GrouperRunSnoc | debug/checkswap.py:180-201 | running the scan over one more line is one more step of the loop body |
| NetstatBlocks.ScannerMatchesBlocks | debug/checkswap.py:172-201 | the two-state scan hands on exactly the blocks of the direct description: skip to an opener, take the untimestamped lines after it, and emit them when a timestamped line ends them; a block still open at the end is not emitted |
| NetstatBlocks.BlocksSpaced | debug/checkswap.py:186-187 | each block opens more than 15 minutes after the previously opened block, and the first one more than 15 minutes after 1970-01-01 00:00:00 |
| NetstatBlocks.BlocksUntimestamped | debug/checkswap.py:194-195 | no block holds a timestamped line, so none holds its own opening or closing line |
| NetstatBlocks.BlocksFramed | debug/checkswap.py:183-201 | every block sits in the log after its opening netstat line, whose time it carries, and before a timestamped closing line; the blocks appear in order, and each closing line comes before the next opener |
| NetstatBlocks.MarkerWords | debug/checkswap.py:45-56 | a line of space-separated words is a marker exactly when its head parses and its third word is `netstat`, and the marker carries the head's time |
| NetstatBlocks.NewlineHidesMarker | debug/checkswap.py:48-49 | a marker line whose third and last word still carries its line feed is not recognised |
| NetstatBlocks.FilterDecides | debug/checkswap.py:186 | of two blocks in a row, the second is captured exactly when it opened more than 15 minutes after the first |
| NetstatBlocks.ClosingLineNotReopened | debug/checkswap.py:192-201 | a netstat line that closes a block is not checked as an opener, however late it comes |
| NetstatBlocks.BlockGrouper.constructor | debug/checkswap.py:173-174 | the grouper starts searching, with the 1970 reference time and no blocks |
| NetstatBlocks.BlockGrouper.Step | debug/checkswap.py:183-201 | the in-place update of `state`, `nsdt` and `ns` for one line is the step of the scan |
| NetstatBlocks.ScanNetstat | debug/checkswap.py:172-201 | the loop hands on the blocks of the direct description; they are spaced by more than 15 minutes, hold no timestamped line, and are framed in order in the log |
| Connections.ParseAll | debug/checkswap.py:76 | the pieces convert exactly when every piece passes `int()`, and the tuple holds their values in order |
| Connections.TupleLePrefix | debug/checkswap.py:84 | a tuple that is a proper prefix of another sorts strictly before it |
| Connections.TupleLeFirstDifference | debug/checkswap.py:84 | after a common prefix, the first position where two tuples differ decides their order |
| Connections.TupleLeTotal | debug/checkswap.py:84 | any two integer tuples are comparable |
| Connections.TupleLeTransitive | debug/checkswap.py:84 | the tuple order is transitive |
| Connections.TupleLeAntisymmetric | debug/checkswap.py:84 | tuples that are each at most the other are equal |
| Connections.KeptNumeric | debug/checkswap.py:72-79 | every host the loop counts passes the `int()` filter |
| Connections.KeptHosts | debug/checkswap.py:72-79 | a host is counted (`Kept`) exactly when some row in `CLOSE_WAIT` or `TIME_WAIT` (`Watched`) has it as the host of its foreign address (`HostOf`) and all its dot-separated pieces pass `int()` (`Octets`) |
| Connections.Insert | debug/checkswap.py:84 | inserting a host adds exactly that host to the listing |
| Connections.InsertSorted | debug/checkswap.py:84 | insertion keeps a listing in ascending order of its keys |
| Connections.InsertionSort | debug/checkswap.py:84 | the sort by keys returns a permutation of its input in ascending order of the keys |
| Connections.SortByTuple | debug/checkswap.py:84 | the sorted keys are a permutation of the keys, in ascending tuple order |
| Connections.TallyAdd | debug/checkswap.py:77 | `iplist.get(thisip, 0) + 1` counts one more occurrence of the host, whether or not it was seen before |
| Connections.CountHosts | debug/checkswap.py:68-81 | the counting loop starts from an empty map; the map's keys are exactly the counted hosts, and each count is the number of that host's rows |
| Connections.KeysOf | debug/checkswap.py:83 | the key listing names every key of the map exactly once |
| Connections.Aggregate | debug/checkswap.py:68-84 | the hosts are the kept hosts, each once, in ascending tuple order; each count is its host's number of rows, and the counts add up to the number of kept rows |
| Connections.CountsAddUp | debug/checkswap.py:77 | summing the counts over the sorted hosts gives the number of watched rows with a numeric host |
| Connections.KeyOfDotted | debug/checkswap.py:76 | a dotted host of natural numbers passes the filter, and its key is exactly those numbers, whatever their size or count |
| Connections.NumericNotTextual | debug/checkswap.py:84 | `9.0.0.1` sorts strictly before `10.0.0.5` |
| Connections.NoRangeCheck | debug/checkswap.py:76 | `999.1.1.1` and a five-piece host pass the filter |
| Connections.EmptyPieceDropped | debug/checkswap.py:74-79 | a host with an empty piece, such as the empty host of `::1`, is dropped |
| NetstatReport.Report | debug/checkswap.py:67-84 | the report of one block carries its opening time, the counts of its own rows from a fresh map, and its hosts in tuple order |
| NetstatReport.AggregateEach | debug/checkswap.py:198-200 | every block gets its own report, in block order |
| NetstatReport.ScanAndAggregate | debug/checkswap.py:198-200 | each block the scan hands on gets its own report: its opening time, counts of its own rows only, and its hosts in tuple order |

## Left out

- Argument parsing is not modelled, and neither is `if args.mintrigger:`. That test also skips the scan when the trigger is 0. The configuration is a given `Config`.
- File opening, `csv.reader` and reading lines are not modelled. The rows and lines are given sequences, and the csv dialect's quoting is not modelled.
- `TextDictReader` is a library whose code is not part of this model. In `NetstatReport` it is the parameter `table`, a total function from a block's lines to rows. Its header matching and its failures are not modelled.
- The timestamp converter (`asctime.asc2dt`) is the parameter `Parser`. It never raises except where the script lets the exception through. `dt2asc` and all printing formats are not modelled. Events are values, not text.
- `timedelta.total_seconds()` returns a float. Elapsed time here is whole seconds.
- The geolocation and reverse-DNS HTTP lookups, JSON decoding and the enriched output rows are network I/O and are not modelled. The model stops at the sorted hosts and their counts.
- NetstatReport.ScanAndAggregate: the lookups are assumed never to raise. In the script an exception there ends the whole `--netstat` scan: a failed `urlopen` (lines 88 and 92), or a `KeyError` when a reply with status 0 has no `Answer` (line 95). So later blocks get no report. Here every block the scan hands on gets one.
- Timestamps.Epoch: `asc2dt('1970-01-01 00:00:00')` is taken to be 0. So every `Parser` is read as counting seconds from 1970-01-01 00:00:00. A converter with another origin would move the first block's 15-minute filter with it.
- SwapTrigger.Next: a `free swap` record without a value is excluded by precondition (`Scannable`, `RowScannable`). In Python 2, `None <= mintrigger` is true, so in search mode such a record triggers, printing `None` as its value and setting `lowvalue` to None. In found mode `min([lowvalue, None])` returns None without raising, and `lowvalue + args.recovery` (line 166) then raises TypeError, which ends the scan. That path is not modelled.
- SwapRecords.ParseRecord: the source's `row.pop(0)` also empties the caller's list. The row here is a value, so that side effect is not modelled.
- Connections.SortByTuple: `ipkeys.sort` is an in-place library sort on a list. It is modelled on sequences, by insertion, and its specification is only "permutation, ascending". Hosts with equal tuples (`1.2.3.4` and `01.2.3.4`) may come in either order, because Python's dictionary order is unspecified.
- Connections.KeysOf: `iplist.keys()` has no specified order, so the key listing is picked in any order.
