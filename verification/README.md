# Job mailer: batch send, CSV write-back and schedulers, in Dafny

This project models the logic of a small job-outreach mailer. The mailer keeps its recipients in a CSV file
(`public/data.csv`), one row per company: Company, Contact Email, Target Role, Status, plus one
history column per earlier send run. Three HTTP routes work on the file:

- **POST /api/send-emails** (`SendEmails`):
  - drops blank rows and names a history column `Sent <date> <time>`;
  - walks the rows whose trimmed Status is `Pending`, one at a time;
  - skips a row that lacks a company, an address or a role;
  - hands every other row's message to the mail transport;
  - marks the row's history cell with `✓`, `✗` or leaves it empty;
  - counts sent and failed rows and collects the error texts;
  - writes the whole table back, header first, with a byte-order mark.
- **POST /api/update-status** (`UpdateStatus`) sets the Status of one non-blank row, picked by its position, and writes the table back the same way.
- **GET /api/view-data** (`ViewData`) lists the non-blank rows with their total and pending counts.

Two schedulers repeat the batch:

- **Interval scheduler** (`IntervalCron`): "every N days at H:M". It computes the next fire time from the last run and holds one timer handle.
- **Cron controller** (`StandardCron`): holds at most one node-cron task.

A fourth route, **GET /api/cron/send-emails** (`CronTrigger`), lets an external scheduler trigger a batch behind an optional Bearer secret.

Shared pieces:

- `Rows`: JavaScript `trim`, the blank-row and Pending filters, positions of pending rows, and the BOM strip on reading.
- `Csv`: column order, RFC 4180 cell quoting (section 2, rules 6 and 7), line join and BOM on writing. It also holds a reference reader for that format, so that "the written file reads back as the table" can be stated and proved.

What each part is in the model:

- **Parser, file system and mail transport** are parameters:
  - the parser is a function from text to rows or an error message;
  - reading a file is a result;
  - the written text is an output;
  - the transport is an oracle.
- **Time** is an integer number of milliseconds. Timers, the awaited batch call and its completion are method calls made by the environment.
- **The transport oracle** (`SendEmails.Mailer`) takes the visit number `j` of the pending row being sent and the message. Only complete rows consult it, so this indexing loses nothing against a sequence of outcomes consumed one per send.

## Model

| member | source | states |
|---|---|---|
| Rows.TrimStartShape | app/api/send-emails/route.ts:86-88 | what the leading trim drops is all whitespace, and what it keeps is a suffix of the text that starts with a non-whitespace character |
| Rows.TrimEndShape | app/api/send-emails/route.ts:86-88 | what the trailing trim drops is all whitespace, and what it keeps is a prefix that ends with a non-whitespace character |
| Rows.TrimEmptyIffBlank | app/api/send-emails/route.ts:38-40 | `trim()` yields the empty string exactly when every character is whitespace |
| Rows.FilterMembers | app/api/send-emails/route.ts:38-40 | `filter` keeps exactly the accepted elements and never lengthens the sequence |
| Rows.FilterAppend | app/api/send-emails/route.ts:54-56 | filtering a concatenation filters each part, so kept elements stay in input order |
| Rows.FilterKeepsOrder | app/api/send-emails/route.ts:164 | a measure that strictly increases along the input strictly increases along the filtered output |
| Rows.FilterSnoc | app/api/send-emails/route.ts:85 | filtering a sequence extended by one element appends that element exactly when it is accepted |
| Rows.MapSeqAppend | app/api/send-emails/route.ts:170 | `map` distributes over concatenation |
| Rows.FilterNarrows | app/api/view-data/route.ts:25-33 | filtering by a weaker test and then by a stronger one is filtering by the stronger one |
| Rows.PendingIsNonBlank | app/api/view-data/route.ts:33 | a row whose trimmed Status is `Pending` always has a non-blank value, so the blank-row filter never drops it |
| Rows.ValidRows | app/api/send-emails/route.ts:38-40 | a row is kept exactly when it is a parsed row with some value that is non-empty after trimming |
| Rows.Trim | app/api/send-emails/route.ts:86-88 | `trim()` never lengthens, and a non-empty result starts and ends with a non-whitespace character |
| Rows.PendingRows | app/api/send-emails/route.ts:54-56 | a row is pending exactly when it is a valid row whose trimmed Status is exactly `Pending` (a missing Status never matches) |
| Rows.PendingOfValid | app/api/view-data/route.ts:32-33 | the pending rows among the non-blank rows are the pending rows of the whole file, in file order |
| Rows.Positions | app/api/send-emails/route.ts:54-56 | the positions returned are in range, strictly increasing, accepted, and include every accepted position |
| Rows.SelectPositions | app/api/send-emails/route.ts:54-56 | the elements at the accepted positions are exactly the filtered elements, in order: `pendingRows` are the same row objects as those in `validRows` |
| Rows.PositionsPrefix | app/api/send-emails/route.ts:85 | the accepted positions of a prefix are a prefix of the accepted positions of the whole |
| Rows.PositionRank | app/api/send-emails/route.ts:85 | an accepted element at position i is the k-th accepted one, where k counts the accepted elements before it |
| Rows.PositionsAgree | app/api/send-emails/route.ts:49-56 | two sequences accepted at the same positions yield the same positions |
| Rows.PendingIndices | app/api/send-emails/route.ts:54-56 | the pending positions are in range, increasing, pending, and select exactly the pending rows |
| Rows.StripPrependedBom | app/api/update-status/route.ts:22-24 | stripping one leading U+FEFF from text written with one BOM in front gives the text back |
| Rows.LoadRows | app/api/send-emails/route.ts:24-35 | a read failure surfaces as its message; otherwise the result is the parser's on a text that is the file less one leading BOM, or the whole file when it starts with none |
| Rows.StripBom | app/api/send-emails/route.ts:26-28 | at most one leading U+FEFF is removed, and the text is left as it is only when it does not start with one |
| Csv.BeforeIrreflexive | app/api/send-emails/route.ts:159-161 | JavaScript's default string order is irreflexive |
| Csv.BeforeTransitive | app/api/send-emails/route.ts:159-161 | the default string order is transitive |
| Csv.BeforeTotal | app/api/send-emails/route.ts:159-161 | any two distinct names are ordered one way or the other |
| Csv.BeforeAsymmetric | app/api/send-emails/route.ts:159-161 | the default string order is asymmetric |
| Csv.SortNames | app/api/send-emails/route.ts:159-161 | `Array.from(set).sort()` lists every name once, strictly ascending, and nothing else |
| Csv.PresentOriginals | app/api/send-emails/route.ts:164 | the original columns present, and only those, in the fixed order Company, Contact Email, Target Role, Status |
| Csv.Header | app/api/send-emails/route.ts:158-166 | the header holds exactly the collected names, each once; every original column precedes every other column, originals in fixed order and the rest ascending |
| Csv.KeysOfHasEveryColumn | app/api/send-emails/route.ts:149-152 | a name is collected exactly when some row has that column |
| Csv.AddEach | app/api/send-emails/route.ts:151 | adding the keys one at a time leaves the union of the set and the keys |
| Csv.CollectFieldNames | app/api/send-emails/route.ts:149-152 | the loop over the rows collects exactly the column names of all rows |
| Csv.DoubleQuotes | app/api/send-emails/route.ts:175 | doubling quotes neither adds nor removes commas or line feeds |
| Csv.Escape | app/api/send-emails/route.ts:172-177 | a value needing no quotes is written as it is; any other value is wrapped in quotes |
| Csv.RowCells | app/api/send-emails/route.ts:171-172 | one cell per header column, the row's value or the empty string when the row lacks that column |
| Csv.Table | app/api/send-emails/route.ts:168-180 | the table meant to be written: the header line, then one line per row, in row order |
| Csv.UnquotedRoundTrip | app/api/update-status/route.ts:76 | a value without comma or line feed reads back whole up to the next separator |
| Csv.QuotedRoundTrip | app/api/update-status/route.ts:73-74 | after the opening quote, collapsing doubled quotes up to the closing quote gives back the original value |
| Csv.FieldRoundTrip | app/api/update-status/route.ts:71-77 | reading an escaped cell gives back the value and stops exactly where the cell ends |
| Csv.QuotedFieldRoundTrip | app/api/update-status/route.ts:73-74 | reading a quoted cell gives back the value and the text after it |
| Csv.ReadQuotedField | app/api/update-status/route.ts:73-74 | a field starting with a quote reads as the quoted text up to its closing quote |
| Csv.RecordRoundTrip | app/api/update-status/route.ts:70-77 | reading a line of escaped cells joined by commas gives back every cell: no value splits or merges |
| Csv.DocumentRoundTrip | app/api/update-status/route.ts:67-79 | reading lines joined by line feeds gives back every line's cells |
| Csv.Serialize | app/api/update-status/route.ts:67-83 | the corrected write-back, header escaped like every cell: whenever the header names a column, the text without its one BOM reads back as the header and every row's cells |
| Csv.SerializeAsWritten | app/api/send-emails/route.ts:168-184 | the write-back as the source builds it, header joined raw; when no header name needs quotes it is exactly the escaped serialisation, so it reads back the same way |
| Csv.TableReadsBack | app/api/update-status/route.ts:82-83 | the escaped lines after one BOM, once the BOM is stripped, read back as the header and every row's cells |
| Csv.PlainRecord | app/api/update-status/route.ts:68 | a line of cells none of which needs quotes is those cells joined with commas, so escaping changes nothing |
| Csv.WriteTable | app/api/update-status/route.ts:50-83 | the write-back serialises the rows as the source does, under the header of every collected column joined raw; when some column is named and no name needs quotes, the written file reads back as that table |
| Csv.HeaderCommaSplits | app/api/send-emails/route.ts:169 | as written, a column name holding a comma reads back as two columns |
| SendEmails.HistoryColumn | app/api/send-emails/route.ts:46 | the history column starts with `Sent ` and is never Status nor any original column |
| SendEmails.HasTextIffTruthy | app/api/send-emails/route.ts:86-91 | `row.K?.trim()` is truthy exactly when the cell exists and is not all whitespace, and its value is then the trimmed text |
| SendEmails.CompleteIffFieldsTruthy | app/api/send-emails/route.ts:91 | the skip test `!company \|\| !to_email \|\| !target_role` fails exactly for complete rows |
| SendEmails.Outcomes | app/api/send-emails/route.ts:85-144 | one outcome per pending row |
| SendEmails.OutcomeAt | app/api/send-emails/route.ts:85-143 | row j's outcome is its own attempt, made as the j-th visit: skipped when incomplete, otherwise sent or refused by the transport's answer |
| SendEmails.Mark | app/api/send-emails/route.ts:136-142 | the history cell is empty exactly for a skipped row (a tick when sent, a cross when refused) |
| SendEmails.MessageFor | app/api/send-emails/route.ts:99-133 | a complete row's message is sent from the configured address (EMAIL_ADDRESS) to its trimmed, non-empty e-mail address, with the subject `Application for ` followed by its trimmed role, and is addressed to its trimmed company |
| SendEmails.Attempt | app/api/send-emails/route.ts:86-143 | a row is skipped exactly when incomplete; sent exactly when complete and accepted by the transport; otherwise refused, naming its trimmed address and the transport's error |
| SendEmails.ErrorText | app/api/send-emails/route.ts:92-140 | a skipped row's error starts `Skipping row - missing fields (Company: `; a refused row's starts `Failed to send to <address>: ` and ends with the transport's error message |
| SendEmails.BatchTotals | app/api/send-emails/route.ts:78-144 | `sent + failed` is the number of pending rows and there is one error per failure |
| SendEmails.OutboxPrefix | app/api/send-emails/route.ts:85-133 | the messages handed over for the first rows are a prefix of those handed over for all rows |
| SendEmails.HandedInRowOrder | app/api/send-emails/route.ts:127-133 | a complete row's message is handed to the transport right after those of the complete rows before it |
| SendEmails.OutboxNext | app/api/send-emails/route.ts:85-133 | visiting one more row hands over its message exactly when it is complete |
| SendEmails.TallyStep | app/api/send-emails/route.ts:92-95 | one more outcome adds one to `sent` or to `failed` and appends its error text when it is not a send |
| SendEmails.TallyNext | app/api/send-emails/route.ts:136-140 | counting outcome j advances the counters and errors to those of the first j+1 outcomes |
| SendEmails.Visit | app/api/send-emails/route.ts:86-143 | one loop body: its outcome is the row's attempt, its error text the one pushed, the marked row the one left behind, and the message it hands over is exactly the row's message when complete |
| SendEmails.SendRow | app/api/send-emails/route.ts:85-144 | one turn of the loop moves the loop state from j to j+1 visited rows: those rows marked, the others untouched, counters and messages those of the first j+1 outcomes |
| SendEmails.SendProgressDone | app/api/send-emails/route.ts:144 | after the last pending row, the counters, errors and messages are the batch's, every pending row is marked by its outcome and every other row is unchanged |
| SendEmails.SendAll | app/api/send-emails/route.ts:85-144 | the send loop in place: `sent`, `failed` and `errors` are those of the outcomes, the transport sees one message per complete row in row order, each pending row is marked by its own outcome and no other row changes |
| SendEmails.PresetColumn | app/api/send-emails/route.ts:49-51 | every valid row gains the empty history cell, in place |
| SendEmails.Preset | app/api/send-emails/route.ts:49-51 | one row per valid row, each with an empty history cell and otherwise exactly its cells |
| SendEmails.PresetKeepsPending | app/api/send-emails/route.ts:49-56 | presetting the history column never changes which rows are pending |
| SendEmails.PendingCount | app/api/send-emails/route.ts:54-58 | the number of pending rows visited is the number of rows of the file whose trimmed Status is `Pending` |
| SendEmails.MarkPresetRow | app/api/send-emails/route.ts:136-142 | marking a preset row writes the outcome's mark into the history cell and nothing else |
| SendEmails.MarkedRowKept | app/api/send-emails/route.ts:146 | after the loop a row keeps every cell it had; its history cell stays empty unless it was pending |
| SendEmails.MarkedCells | app/api/send-emails/route.ts:146 | after the loop every row keeps its cells, and the history cell is the j-th outcome's mark at the j-th pending row and empty elsewhere |
| SendEmails.RecordedCells | app/api/send-emails/route.ts:49-51 | the written table has the rows read, with Status and every other cell unchanged; the history cell is empty for every row that is not pending and is the mark of its outcome for each pending row |
| SendEmails.RunBatch | app/api/send-emails/route.ts:49-193 | with no pending row nothing is sent or written; otherwise the answer carries the count and totals of the outcomes, the transport sees the complete rows' messages in order, the table written is the marked table with the header joined raw, and it reads back as that table when no column name needs quotes |
| SendEmails.Post | app/api/send-emails/route.ts:9-203 | missing credentials answer 500 before anything is read, sent or written; a read or parse failure answers with its message; otherwise the batch as in `RunBatch` over the non-blank rows |
| UpdateStatus.Missing | app/api/update-status/route.ts:10-15 | a request passes the check only with an index and a non-empty status; an empty status is refused |
| UpdateStatus.WithStatus | app/api/update-status/route.ts:47 | setting a status changes exactly row i's Status (creating it if absent); every other row and cell keeps its value, and the row is pending exactly when the new status trims to `Pending` |
| UpdateStatus.SetStatus | app/api/update-status/route.ts:47 | the in-place assignment sets row i's Status and nothing else |
| UpdateStatus.UpdatedHasColumns | app/api/update-status/route.ts:50-53 | the collected names include Status, so the written header is never empty |
| UpdateStatus.Apply | app/api/update-status/route.ts:38-88 | an index outside the non-blank rows answers 400 `Invalid row index` and writes nothing; otherwise the updated table is written with the header joined raw, and reads back as that table when no column name needs quotes |
| UpdateStatus.Post | app/api/update-status/route.ts:6-98 | an unreadable body or file answers 500 with its message; a missing index or a falsy status answers 400 before the file is read; otherwise as `Apply` over the non-blank rows; text is written exactly when the status was updated |
| ViewData.Get | app/api/view-data/route.ts:6-44 | a read or parse failure answers with its message; otherwise the data are exactly the non-blank rows, `totalRows` is their number and `pendingCount` the number of pending rows of the file, never more than `totalRows` |
| ViewData.ListingKeepsFileOrder | app/api/view-data/route.ts:25-31 | the listed rows are the very rows at the non-blank positions of the file, and those positions strictly increase: file order is kept |
| ViewData.PendingCountIsBatchSize | app/api/view-data/route.ts:33 | the pending count shown is the number of rows the next send run visits |
| CronTrigger.Authorized | app/api/cron/send-emails/route.ts:13-21 | with CRON_SECRET unset or empty every request passes; with a secret set, a request passes exactly when its Authorization header is `Bearer ` followed by the secret, and a missing header never passes |
| CronTrigger.BaseUrlAsWritten | app/api/cron/send-emails/route.ts:25-27 | as the source groups it: localhost exactly when neither the public base URL nor the Vercel URL is set, and otherwise `https://` followed by the Vercel URL (`undefined` when unset) |
| CronTrigger.BaseUrl | app/api/cron/send-emails/route.ts:25-27 | the public base URL when set, else `https://` and the Vercel URL when set, else `http://localhost:3000` |
| CronTrigger.BaseUrlAgreesWithoutPublicUrl | app/api/cron/send-emails/route.ts:25-27 | without a public base URL, the expression as written and the intended choice agree |
| CronTrigger.PublicUrlIgnored | app/api/cron/send-emails/route.ts:25-27 | with only the public base URL set, the expression as written gives `https://undefined` while the intended choice gives the public URL |
| CronTrigger.Get | app/api/cron/send-emails/route.ts:10-54 | an unauthorised request answers 401 and makes no call; otherwise exactly one call to the batch endpoint at the base URL as the source computes it, whose answer is wrapped as executed or whose error answers 500 |
| IntervalCron.DayStartShift | lib/cron-interval.ts:57-58 | adding whole days keeps the time of day |
| IntervalCron.AdvanceShape | lib/cron-interval.ts:61-63 | the loop stops at the first candidate start plus k steps that is after now, and every earlier candidate is not |
| IntervalCron.ComputeNextRun | lib/cron-interval.ts:43-64 | the loop computes the next run time; the method answers none exactly where the source's loop would never end |
| IntervalCron.NextRun | lib/cron-interval.ts:42-64 | without a last run, a next run exists and is today or tomorrow at H:M; with one, any next run is ahead of now and no earlier than the last run's day plus the interval at H:M |
| IntervalCron.NextRunIsAhead | lib/cron-interval.ts:66-72 | the armed time is strictly after now, so the timer delay is positive |
| IntervalCron.NextRunDefined | lib/cron-interval.ts:55-64 | there is no next run exactly when a last run is known, the interval is not positive and the first candidate is not ahead of now; then every candidate the loop reaches stays at or before now, so the loop never ends |
| IntervalCron.NextRunWithoutLastRun | lib/cron-interval.ts:46-52 | with no last run, the next run is today or tomorrow at H:M, strictly after now and at most one day ahead |
| IntervalCron.NextRunFromLastRun | lib/cron-interval.ts:54-64 | with a last run, the next run is the last run's day plus k intervals at H:M, for the smallest k >= 1 that is after now; the today/tomorrow candidate plays no part |
| IntervalCron.TimeoutDelay | lib/cron-interval.ts:70-72 | the delay `setTimeout` waits: the given one when it is from 1 to 2^31 - 1 ms, and 1 ms for any other, a longer one included |
| IntervalCron.LongIntervalRefiresAtOnce | lib/cron-interval.ts:55-72 | with an interval of 26 days or more and a run answered within the hour, the planned delay exceeds 2^31 - 1 ms, so the timer armed expires after 1 ms |
| IntervalCron.SafeDelay | lib/cron-interval.ts:66-72 | the corrected delay: at most 2^31 - 1 ms, at most the planned one, equal to it when it fits, and always waited as given |
| IntervalCron.ChainedExpiries | lib/cron-interval.ts:66-72 | the corrected arming re-arms in chunks Node honours: the first chunk from now and each later one from the previous expiry is a delay Node waits as given; every expiry lies ahead of now, only the last reaches the planned time, and a delay that fits takes the single timer the code arms |
| IntervalCron.IntervalScheduler.Status | lib/cron-interval.ts:92-97 | `isRunning` is whether a handle is held, `lastRun` is the recorded last run |
| IntervalCron.IntervalScheduler.constructor | lib/cron-interval.ts:6-7 | nothing is armed and there is no last run |
| IntervalCron.IntervalScheduler.Arm | lib/cron-interval.ts:42-73 | arms a timer for the next run and holds its handle; it expires strictly after now, at the next run time when that is 1 to 2^31 - 1 ms ahead and 1 ms later otherwise; the next run time is ahead of now whenever a last run is known or the time of day is not before midnight; a live handle it overwrites stays armed as an orphan; the last run is untouched |
| IntervalCron.IntervalScheduler.Start | lib/cron-interval.ts:9-81 | clears the held timer, keeps the last run, arms the next run under Node's timer delay, ahead of now, and reports running |
| IntervalCron.IntervalScheduler.Fire | lib/cron-interval.ts:18-20 | a fire records the fire time as the last run before the batch call, whatever its outcome, and keeps the spent handle, so the scheduler still reports running |
| IntervalCron.IntervalScheduler.FireOrphan | lib/cron-interval.ts:70-72 | an orphaned timer runs the job too: it records the last run and starts a batch call |
| IntervalCron.IntervalScheduler.Complete | lib/cron-interval.ts:30-39 | an answered call re-arms the next run at once, under Node's timer delay, and a handle still live (armed by a start made meanwhile) is overwritten and stays armed as an orphan; a failed one leaves the handle alone and arms a retry one hour later whose handle is not kept |
| IntervalCron.IntervalScheduler.FireRetry | lib/cron-interval.ts:38 | a retry timer arms the next run, under Node's timer delay, with the unchanged configuration; a live handle it overwrites stays armed as an orphan |
| IntervalCron.IntervalScheduler.Stop | lib/cron-interval.ts:83-90 | with a handle held, clears it and forgets the last run; otherwise nothing changes; either way the scheduler then reports stopped, and orphans, retries and runs in flight are untouched |
| IntervalCron.StopThenRetry | lib/cron-interval.ts:83-90 | a retry armed before the scheduler is stopped (once or twice) re-arms it: it reports running with a timer ahead of now |
| IntervalCron.BackToBack | lib/cron-interval.ts:18-34 | with an interval of 26 days or more, a run answered within the hour re-arms a timer that expires 1 ms later, and the next run then records its fire time at once |
| IntervalCron.StopThenComplete | lib/cron-interval.ts:30-34 | a run in flight when the scheduler is stopped re-arms it when its call is answered: it reports running with a timer ahead of now |
| StandardCron.ChooseSchedule | lib/cron.ts:8-9 | the argument if non-empty, else CRON_SCHEDULE if non-empty, else `0 8 */3 * *`; never empty |
| StandardCron.CronController.Status | lib/cron.ts:63-68 | `isRunning` is whether a task is held, which is whether any task is active; `schedule` is the current schedule |
| StandardCron.CronController.constructor | lib/cron.ts:3-4 | no task and an empty schedule |
| StandardCron.CronController.Start | lib/cron.ts:6-52 | stops the held task and schedules a fresh one on the chosen schedule; it is then the only active task, and the status reports running on that schedule |
| StandardCron.CronController.Stop | lib/cron.ts:54-61 | leaves no active task and reports stopped with an empty schedule; with nothing held it changes nothing |

## Left out

- The CSV parser (csv-parse with `columns`, `skip_empty_lines` and `trim`) is a parameter returning rows or an error message. Its quoting rules, trimming and empty-line skipping are not part of this model.
- File reads are a read result going in. A write failure after the batch, which would answer 500 after mail was sent, is not modelled.
- The nodemailer transport is an oracle. The transporter options and the fixed letter body are not modelled; a message records the company the body is addressed to.
- The history column name is built from the clock's UTC date and local time. Those texts are parameters, and only what the name guarantees (its prefix, and that it differs from the original columns) is used.
- JSON bodies are not modelled beyond their fields. `rowIndex` is an integer or absent; a `null`, fractional or string index (which the source would compare loosely or fail on) and a non-string `newStatus` are not modelled.
- `Csv.SortNames` orders by Unicode code points. JavaScript's default sort compares UTF-16 code units, which differs for characters outside the Basic Multilingual Plane.
- Cells holding a carriage return are written unquoted, as in the source. The reference reader treats CR as ordinary text, so the round-trip lemmas do not say how other CSV readers treat it.
- Timer mechanics beyond the delay Node waits (`IntervalCron.TimeoutDelay`), `clearTimeout`, the async self-call with `fetch`, and any overlap between a manual and a scheduled run are not modelled. Each event (fire, completion, retry) is one method call the environment makes in some order.
- Calendar time: days are exactly 86 400 000 ms on the local axis. DST and time zones are ignored, and `setDate`/`setHours` are integer day and time-of-day arithmetic.
- IntervalCron.IntervalScheduler.Start: requires an interval of at least one day. With a non-positive interval the source's loop never ends once a last run is known; `ComputeNextRun` answers none for that case but the class does not carry it. A time of day before midnight is allowed: without a last run the next run can then be in the past, and the timer armed for it expires 1 ms later (`IntervalCron.IntervalScheduler.Arm`).
- IntervalCron.IntervalScheduler: orphaned timers, retries and runs in flight re-arm with the configuration of the latest start. In the source, each keeps the interval and time of day of the start whose closure created it.
- The base URL the schedulers call, and the console logging, are not modelled.
- StandardCron.CronController.Start: node-cron's own scheduling, the time zone and expression validation are not modelled. In the source an invalid expression makes `cron.schedule` throw after the old task has been stopped and `currentSchedule` set (lib/cron.ts:20-28), so the module then reports that schedule while no task runs and the stopped task's handle stays held; the model's `Valid()` excludes that state, and every start here succeeds. The job callback only logs and catches every failure, so it changes no state of the controller.
- The PostgreSQL logging, the React page, start-up glue and the thin cron start/stop/status routes are not part of this model.

## Findings

| source | as written | input that shows it | evidently intended | confidence | as-written member | corrected member |
|---|---|---|---|---|---|---|
| app/api/cron/send-emails/route.ts:25-27 | `NEXT_PUBLIC_BASE_URL \|\| VERCEL_URL ? \`https://${VERCEL_URL}\` : 'http://localhost:3000'` groups as `(A \|\| B) ? x : y` | NEXT_PUBLIC_BASE_URL = `https://mail.example.com`, VERCEL_URL unset: the batch is called at `https://undefined/api/send-emails` | the public base URL first, then the Vercel URL, then localhost, as `lib/cron.ts` reads NEXT_PUBLIC_BASE_URL | high, not executed | CronTrigger.PublicUrlIgnored | CronTrigger.BaseUrl |
| app/api/send-emails/route.ts:169 | the header line is `fieldnames.join(',')`, with column names not escaped (also app/api/update-status/route.ts:68) | a column named `Notes, extra` (quoted in the file read) is written bare; the reference reader reads that header back as the two columns `Notes` and ` extra`, and csv-parse, which checks that every record has as many fields as the header, would most likely refuse the next read of the file | header names escaped like every other cell, so the file reads back as written | medium, not executed | Csv.HeaderCommaSplits | Csv.Serialize |
| lib/cron-interval.ts:66-72 | `setTimeout(runEmailJob, msUntilNextRun)` with the delay unchecked; instrumentation.ts:14 takes CRON_INTERVAL_DAYS from the environment with no upper bound | CRON_INTERVAL_DAYS = 26 and a batch answered within the hour: the planned delay is over 25 days, above Node's limit of 2^31 - 1 ms, so Node waits 1 ms and the batches run back to back; as the send route never changes Status, each one mails every Pending row again | the next run at the planned time, however far ahead, e.g. by re-arming in chunks of at most 2^31 - 1 ms | high, not executed | IntervalCron.LongIntervalRefiresAtOnce | IntervalCron.ChainedExpiries |

The routes are modelled as written: they write with `Csv.SerializeAsWritten`, whose header is joined raw, and the trigger endpoint calls `CronTrigger.BaseUrlAsWritten`. The interval scheduler arms its timers with Node's delay as is (`IntervalCron.TimeoutDelay`). `Csv.Serialize`, `CronTrigger.BaseUrl` and `IntervalCron.ChainedExpiries` are the corrected definitions, and the properties proved about them are the evidently intended ones.

How the interval scheduler behaves, as the code has it:

- the last run is recorded when a timer fires, before the batch call, not on successful completion;
- a failed call therefore still moves the cadence;
- `stop` does not keep runs in flight or armed retries from re-arming the scheduler (`IntervalCron.StopThenRetry`, `IntervalCron.StopThenComplete`).
