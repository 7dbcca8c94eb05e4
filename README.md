# Multi-process grep: dispatcher, arbiter, block scanning and chunked scanner

This project models the block-dispatching and line-scanning logic of a small grep suite in Dafny and proves properties of it. The suite has three programs:

- `mygrep.c`: a dispatcher process hands out 8192-byte blocks of a file to a pool of worker processes over pipes. A turn arbiter throttles the requests.
- `psoPr.c`: the same protocol over a System V message queue, with no arbiter.
- `grep2.c`: a single-process scanner. It reads the file in 8192-byte chunks and carries any unfinished line over to the next chunk.

The modules follow the program structure:

- `Bytes` (bytes.dfy):
  - the file's bytes;
  - `ReadAt`, the model of `fread`;
  - `CompleteLinesEnd`, the end of the last complete line, which is the specification of the backward newline scans;
  - `Tokens`, the lines `strtok(buffer, "\n")` returns from a NUL-terminated buffer;
  - `SplitLines`, the lines the `memchr` loop cuts out, empty lines included;
  - `CountMatchingTokens`, the workers' counting loop.
- `Blocks` (blocks.dfy):
  - `BUFFER_SIZE`;
  - the span `[next_pos, min(next_pos + 8192, file_size))` handed out at each step;
  - `AllSpans`, the partition of a file into those spans;
  - the proofs that the partition tiles the file exactly once.
- `Stats` (stats.dfy): the sums and running maximum and minimum that the dispatchers fold results into.
- `MyGrep` (mygrep.dfy):
  - `find_last_complete_line` as a loop;
  - the turn arbiter as a class `TurnControl` over an `array` `processOrder`, with `lastPid` and `currentTurn`;
  - the dispatcher loop as a class `Dispatcher`, with one method per message kind;
  - the worker's block scan.
- `PsoPr` (psopr.dfy):
  - the queue dispatcher as a class `Dispatcher`, with the finish count, addressed replies and the skip of short receives;
  - the pool-size check;
  - the worker's block scan.
- `Grep2` (grep2.dfy):
  - the chunk loop `Scan` as written, rewind included;
  - its specification `Works`, the work buffers the loop builds;
  - the inner loops `FindProcessLen` and `EmitMatchingLines`;
  - a corrected scanner `ScanCorrected` that carries without rewinding.

Things that become parameters of the model:

- The pattern is a parameter `matches: seq<byte> -> bool`, and every result is stated for any pattern.
- Times (`process_time`, `block_time`) are opaque integers passed in by the caller.
- The file is a `seq<byte>` for the workers and the scanner; for the dispatchers it is only its size.
- Pipes, the queue and fork disappear. A dispatcher run is a method over the sequence of messages that arrive, in order.

grep2.c's opening comment promises reading in 8 KB blocks without cutting lines. Its comments on the carry and on the final line say that the rest of a block is kept as the carry and that a last line without a newline is processed at the end. The code also rewinds the file position by the carried length, so the fragment is read twice. The model follows the code; the duplication is listed under Findings.

The arbiter compares `pid % num_processes` with the order entry at the cursor, which is the identity order. So in the code it is each pid's remainder, not its place in the pool, that decides its turn. Real pids need not cover every remainder. When no worker has the remainder the cursor points at, every later request gets WAIT_TURN and the arbiter never moves again. For example, with two workers of pids 1000 and 1002, both have remainder 0: after the first grant the cursor is 1 and no request is ever granted again (`MyGrep.MissingRemainderStalls`, `MyGrep.RemainderCollisionExample`). The model follows the code.

## Model

| member | source | states |
|---|---|---|
| `MyGrep.FindLastCompleteLine` | mygrep.c:78-84 | Result in [0, size]. If `buffer[..size]` holds a newline, the result is one past the last one and no newline follows it. Otherwise the result is `size`, and so 0 for an empty buffer. It equals `CompleteLinesEnd(buffer[..size])`. |
| `Bytes.CompleteLinesEnd` | mygrep.c:78-84 | The end of the last complete line: at most the length. When the bytes hold a newline it is one past the last one, with no newline after it. Otherwise it is the whole length. |
| `Bytes.CompleteLinesEndUnique` | mygrep.c:78-84 | "One past the last newline, or the whole length when there is none" determines the end of the last complete line uniquely. |
| `Bytes.LastNewline` | grep2.c:39-43 | A position reached by the backward scan, with no newline after it and either a newline just before it or no newline at all, is `CompleteLinesEnd` of the bytes read. |
| `Bytes.CompleteLinesEndPositive` | grep2.c:43 | On a non-empty chunk the processed length is at least 1. |
| `Bytes.ReadAt` | mygrep.c:264-266 | A read returns at most the requested count: exactly `min(count, size - pos)` bytes of the file from `pos`, and nothing at or past the end. |
| `Bytes.TokenLen` | mygrep.c:275 | A token's length is the run before the first newline or NUL. |
| `Bytes.Tokens` | mygrep.c:275-283 | The tokens strtok returns from the C string: runs of newlines are skipped and the scan stops at the first NUL. There are no more tokens than bytes. |
| `Bytes.TokensShape` | mygrep.c:275-283 | Every token strtok returns is non-empty and holds neither a newline nor a NUL. |
| `Bytes.TokensIgnoreTerminator` | mygrep.c:267 | The NUL written after the bytes read changes no token. |
| `Bytes.CountMatchingBounds` | mygrep.c:276-283 | The count is at most the number of tokens. It is 0 when the pattern matches none and the token count when it matches all. |
| `Bytes.CountMatchingTokens` | mygrep.c:275-283 | The strtok loop returns the number of tokens of the buffer that the pattern matches, and no more than the number of tokens. |
| `Bytes.TokenEnd` | mygrep.c:275 | strtok's scan stops at the first newline or NUL at or after the start, or at the buffer's end. |
| `Bytes.FirstNewline` | grep2.c:56 | memchr's answer within the bytes: no newline before it, and a newline at it unless it is the end. |
| `Bytes.FirstNewlineUnique` | grep2.c:56 | memchr's answer is the unique position with no newline before it and a newline at it, or the end. |
| `Bytes.SplitLines` | grep2.c:54-68 | The lines the memchr loop cuts out, one per newline plus a last one without a newline. There are no more lines than bytes, and none only for an empty buffer. |
| `Bytes.SplitLinesShape` | grep2.c:54-68 | No line cut out by the memchr loop holds a newline. |
| `Bytes.SplitLinesJoin` | grep2.c:54-68 | The lines joined with newlines, plus the final newline when the work buffer ends with one, give back the work buffer. |
| `Bytes.SplitLinesCount` | grep2.c:54-68 | There is one line per newline, plus one when the buffer does not end with a newline, so empty lines between consecutive newlines are kept. |
| `Stats.RunningMaxBounds` | mygrep.c:358-359 | The running maximum is at least its start value and every value, and it is one of them. |
| `Stats.RunningMinBounds` | mygrep.c:360-361 | The running minimum is at most its start value and every value, and it is one of them. |
| `Stats.MinNotAboveMax` | mygrep.c:358-361 | After at least one value, the minimum is not above the maximum, whatever the start values. |
| `Stats.SumPointwise` | mygrep.c:355 | A pointwise smaller sequence has a smaller sum. |
| `Blocks.NextSpan` | mygrep.c:333-337 | The span starts at the cursor, is non-empty and at most BUFFER_SIZE long, ends within the file, and is short only at the end of the file. |
| `Blocks.AllSpansCount` | mygrep.c:333-337 | The spans handed out from cursor 0 until the end are one per started block of 8192 bytes, that is the size divided by 8192, rounded up. |
| `Blocks.SpansLeft` | mygrep.c:325-337 | No span is left exactly when the cursor is at the end. Otherwise one span is handed out and those after it start at its end. |
| `Blocks.SpansFromCount` | mygrep.c:333-337 | From any cursor within the file, the number of spans still to come is the remaining bytes divided by 8192, rounded up. |
| `Blocks.ContiguousExtend` | mygrep.c:337 | Handing out the next span at the cursor keeps the spans a tiling of [0, next_pos). |
| `Blocks.SpansFromContiguous` | psoPr.c:264-269 | The spans still to come from any cursor tile the rest of the file. |
| `Blocks.ContiguousOrdered` | mygrep.c:333-337 | In a tiling, each span ends no later than any later span starts. |
| `Blocks.ContiguousCovers` | mygrep.c:333-337 | A tiling covers every offset of its range, and its spans do not overlap. |
| `Blocks.AllSpansPartition` | mygrep.c:312-337 | The partition of a file tiles it from 0 to its size, covers every byte, and its spans do not overlap. |
| `Blocks.TwentyThousandBytes` | mygrep.c:333-337 | A file of 20000 bytes is handed out as [0,8192), [8192,16384), [16384,20000). |
| `Blocks.ReadLengths` | psoPr.c:192-196 | The lengths fread returns for each span read in turn, one entry per span. |
| `Blocks.ReadLengthsAt` | psoPr.c:196 | Entry i of the read lengths is the length of the read of span i. |
| `Blocks.ReadsAddUpToFile` | psoPr.c:192-196 | Reading every span from a cursor reads exactly the rest of the file. |
| `MyGrep.CRem` | mygrep.c:103 | C's `%`: the remainder is in [0, n) for a non-negative pid and in (-n, 0] for a negative one. |
| `MyGrep.AfterRequest` | mygrep.c:99-109 | is_process_turn's effect on the arbiter: the state changes exactly when the request is granted (last pid not the caller, remainder at the cursor), and the cursor stays in [0, N). |
| `MyGrep.GrantedPids` | mygrep.c:99-109 | The pids granted, in order, over a sequence of requests: there are no more grants than requests. |
| `MyGrep.GrantedFromRequests` | mygrep.c:99-109 | Every pid granted over a sequence of requests is one of the pids that asked. |
| `MyGrep.RoundRobin` | mygrep.c:99-109 | Over any sequence of requests, the first grant goes to a pid whose remainder is the cursor and which differs from the last pid. Each later grant goes to a pid whose remainder follows the previous one cyclically, and never to the same pid twice in a row. |
| `MyGrep.TurnControl.constructor` | mygrep.c:87-96 | The order is the identity over the pool, the cursor is 0 and the last pid is 0. |
| `MyGrep.TurnControl.IsProcessTurn` | mygrep.c:99-109 | A grant means the pid is not the last pid and its remainder is the order entry at the cursor. A grant advances the cursor mod N and records the pid. A denial changes nothing. |
| `MyGrep.SinglePoolStarves` | mygrep.c:100-106 | With a pool of one, once a pid has been granted, none of its later requests is ever granted. |
| `MyGrep.SinglePoolExample` | mygrep.c:100-106 | With a pool of one, three requests from pid 1000 get exactly one grant. |
| `MyGrep.MissingRemainderStalls` | mygrep.c:103-107 | When no requesting pid has the remainder at the cursor, nothing is granted and the arbiter's state does not change. |
| `MyGrep.RemainderCollisionExample` | mygrep.c:103-107 | With a pool of two and pids 1000 and 1002, which share remainder 0, any run of their requests after a first one from 1000 gets exactly one grant. |
| `MyGrep.TurnControl.IsProcessTurnCorrected` | mygrep.c:99-109 | The arbiter without the repeat check for a pool of one; its answer and effect are the corrected functions. |
| `MyGrep.CorrectedArbiter` | mygrep.c:99-109 | The corrected arbiter grants every request of a pool of one, and grants exactly what the code grants for larger pools. |
| `MyGrep.Dispatcher.constructor` | mygrep.c:194-198 | Statistics zeroed except the minimum at 999999, a fresh arbiter, the cursor at 0 and every child active. |
| `MyGrep.Dispatcher.HandleRequest` | mygrep.c:322-348 | Past the end of the file: FINISH_WORK and one fewer active child. A denied turn: WAIT_TURN with cursor, children and arbiter unchanged. A granted turn: ASSIGN_BLOCK for the next span, the cursor moved to its end and the span recorded. The statistics are untouched and the invariant is kept. |
| `MyGrep.Dispatcher.HandleResult` | mygrep.c:349-362 | The process time, bytes and matches are added, the block time updates the maximum and minimum, and the cursor, children and spans are unchanged. |
| `MyGrep.Dispatcher.Step` | mygrep.c:318-363 | A request is answered with its own message retyped: FINISH_WORK past the end of the file, with one fewer active child. WAIT_TURN when the arbiter denies the turn, with nothing else changed. ASSIGN_BLOCK for the next span when it grants the turn, with the cursor moved to its end and the span recorded. A result is appended and folded into the five statistics. Any other message type is ignored. The arbiter's state is `AfterRequest` of the old one on a grant and unchanged otherwise. The reply is the one `Replay` owes the request given the ledger (arbiter, cursor, finished children) before it, and the ledger moves on as `Replay` books it. The reply, the new span and the new result are exactly what that message contributes to the run's accounting. |
| `MyGrep.Dispatcher.Serve` | mygrep.c:318-363 | One pass of the loop keeps the run's accounting: replies to the requests so far, spans recorded for the assignments, results for the reports. The replies so far stay the replay from the ledger at the start of the run. |
| `MyGrep.ReplayReply` | mygrep.c:322-348 | Answering one more request with the reply owed, or answering nothing, extends the replay and moves its ledger by that reply. |
| `MyGrep.ReplayAt` | mygrep.c:322-348 | In a replay, every reply is the kind owed given the ledger of the replies before it: FINISH_WORK when the cursor is at the end, else ASSIGN_BLOCK or WAIT_TURN as the arbiter grants or denies. That reply then books the ledger. |
| `MyGrep.CursorGrows` | mygrep.c:333-337 | Along a replay the cursor never moves back. |
| `MyGrep.FinishIsFinal` | mygrep.c:325-348 | Once a request is answered FINISH_WORK, every later request is answered FINISH_WORK too. |
| `MyGrep.ReplayTotals` | mygrep.c:318-348 | Where a replay leads: the finished children are the start's plus the FINISH_WORK replies. The cursor moves forward within the file, and the spans it passed are one per ASSIGN_BLOCK reply. The arbiter is where the consulted requests (ASSIGN_BLOCK and WAIT_TURN) take it, and the pids it granted are exactly the ASSIGN_BLOCK replies' pids. |
| `MyGrep.AccountedStep` | mygrep.c:318-363 | Handling one more message keeps the accounting when its reply, span and result are the ones that message contributes. |
| `MyGrep.Dispatcher.Run` | mygrep.c:312-363 | The loop stops only when no child is active or the messages run out. The replies answer the handled requests one for one, in order and with their pids. Each reply is ASSIGN_BLOCK, WAIT_TURN or FINISH_WORK. The spans recorded are the old ones followed by the spans of the ASSIGN_BLOCK replies. The results are the old ones followed by the handled reports, and the statistics are the folds over them. The replies are the replay from the ledger at the start, so each one is the kind owed at its point; with `ReplayTotals`, the arbiter, the cursor and the count of children told to finish end where the replies take them. Once every child has finished, the cursor is at the end and the spans handed out are exactly the file's partition. |
| `MyGrep.StatisticsBounds` | mygrep.c:196 | `min_time` is at most 999999 and every block time, `max_time` is at least 0 and every block time, and after one result `min_time <= max_time`. |
| `MyGrep.ResultFor` | mygrep.c:269-291 | The report keeps the request's pid and span, carries the given times, reports at most the bytes read and at most as many matches as tokens. |
| `MyGrep.ProcessBlock` | mygrep.c:264-291 | The report is the one for the bytes `ReadAt` returns for the assigned span. |
| `MyGrep.ProcessData` | mygrep.c:267-291 | The bytes processed are `CompleteLinesEnd` of the data and the matches are the matching tokens of the data. |
| `MyGrep.WorkerStep` | mygrep.c:244-293 | FINISH_WORK ends the worker, WAIT_TURN makes it ask again, anything else is processed as a block and reported. |
| `MyGrep.ReportedBytesWithinFile` | mygrep.c:269-270 | When every span of the partition is reported once, the reported bytes add up to at most the file's size. |
| `PsoPr.WorkRequest` | psoPr.c:175-179 | A request goes to the dispatcher with message type 1 and carries the worker's pid. |
| `PsoPr.StatisticsBounds` | psoPr.c:161 | `min_time` is at most 1e9 and every process time, `max_time` is at least 0 and every process time, and after one result `min_time <= max_time`. |
| `PsoPr.Dispatcher.constructor` | psoPr.c:159-161 | Statistics zeroed except the minimum at 1e9, the cursor at 0 and no worker finished. |
| `PsoPr.Dispatcher.HandleRequest` | psoPr.c:251-270 | The reply is addressed to the requesting pid and carries it. Past the end, FINISH_WORK and one more finished worker. Otherwise ASSIGN_BLOCK for the next span with no turn check, and the cursor moved to its end. |
| `PsoPr.Dispatcher.HandleResult` | psoPr.c:271-277 | The process time, bytes and matches are added, the process time updates the maximum and minimum, and nothing else changes. |
| `PsoPr.Dispatcher.Step` | psoPr.c:247-278 | A receive of the wrong size changes nothing. A request gets a reply addressed to its pid and carrying it: FINISH_WORK past the end of the file, with one more finished worker, otherwise ASSIGN_BLOCK for the next span, recorded, with the cursor moved to its end. A result is appended and folded into the five statistics. The reply, the new span and the new result are exactly what that receive contributes to the run's accounting. |
| `PsoPr.Dispatcher.Serve` | psoPr.c:247-278 | One pass of the loop keeps the run's accounting, including that assignments come before FINISH_WORK replies and that the finished count grows by the FINISH_WORK replies. |
| `PsoPr.AccountedStep` | psoPr.c:247-278 | Handling one more receive keeps the accounting when its reply, span and result are the ones that receive contributes. |
| `PsoPr.Dispatcher.Run` | psoPr.c:246-279 | The loop stops only when every worker is finished or the messages run out. The replies are addressed to the handled requests one for one, in order, each carrying its addressee's pid. The first ones, one per span left from the starting cursor, are ASSIGN_BLOCK and all later ones FINISH_WORK. The spans recorded are the old ones followed by the spans of the assignments. The finished count grows by the number of FINISH_WORK replies. The results are the old ones followed by the handled reports, and the statistics are the folds over them. Once every worker is finished, the cursor is at the end and the spans handed out are exactly the file's partition. |
| `PsoPr.FinishedCount` | psoPr.c:252-258 | When the first replies are the assignments and the rest FINISH_WORK, the FINISH_WORK count is the number of replies past the assignments. |
| `PsoPr.Start` | psoPr.c:120-124 | A pool size of 0 or less is rejected before any work is distributed; any other size starts a dispatcher at cursor 0. |
| `PsoPr.ResultFor` | psoPr.c:215-225 | The result goes to the dispatcher with message type 1 and carries the worker's pid, the assigned span and the process time. It reports exactly the bytes read and at most as many matches as tokens. |
| `PsoPr.ProcessBlock` | psoPr.c:190-225 | The result is the one for the bytes `ReadAt` returns for the assigned span. |
| `PsoPr.ProcessData` | psoPr.c:197-225 | The matches are the matching tokens of the data read. |
| `PsoPr.WorkerStep` | psoPr.c:183-227 | FINISH_WORK ends the worker; anything else is processed as a block and reported. |
| `PsoPr.ReportedBytesCoverFile` | psoPr.c:222 | When every span of the partition is reported once, the reported bytes add up to exactly the file's size. |
| `Grep2.CStr` | grep2.c:61-63 | regexec sees a line only up to its first NUL. |
| `Grep2.MatchingLines` | grep2.c:63-65 | Every printed line matches the pattern and holds no NUL. |
| `Grep2.MatchingLinesFromLines` | grep2.c:54-68 | Every printed line holds no newline and is a line of the work buffer as regexec sees it. |
| `Grep2.FindProcessLen` | grep2.c:39-43 | `process_len <= r`. If the chunk holds a newline, `process_len` is one past the last one. Otherwise it is `r`. It equals `CompleteLinesEnd(buf[..r])`. |
| `Grep2.FindNewline` | grep2.c:56-57 | memchr's answer: the first newline at or after `p`, or the end. |
| `Grep2.EmitMatchingLines` | grep2.c:53-68 | The inner loop prints exactly the matching lines of `SplitLines(work)`, in order. |
| `Grep2.Chunk` | grep2.c:35 | A read returns the next `min(CHUNK, size - pos)` bytes of the file. |
| `Grep2.Step` | grep2.c:38-86 | The work buffer and the new carry together are the old carry and the chunk. The position moves on by the processed length, which is at least 1. The carry holds no newline. |
| `Grep2.CarryIsRest` | grep2.c:74-85 | The carry is the file from the new position to the end of the chunk just read. |
| `Grep2.Works` | grep2.c:33-87 | The work buffers the loop builds from a position: none exactly when the position is at the end, otherwise at most one per remaining byte, since each iteration moves the position forward. |
| `Grep2.Emitted` | grep2.c:53-68 | The lines printed for a sequence of work buffers; each one matches the pattern and holds no NUL. |
| `Grep2.Scan` | grep2.c:33-95 | The loop prints exactly the matching lines of the work buffers `Works` describes. |
| `Grep2.FragmentReread` | grep2.c:81-85 | After a rewind, the next chunk starts with the carried fragment. |
| `Grep2.RewindRepeatsCarry` | grep2.c:45-85 | Whenever a carry is taken, the next work buffer starts with the fragment twice. |
| `Grep2.RewindCounterexample` | grep2.c:45-85 | For a file of 8190 bytes `x`, a newline and `yz\n`, the second work buffer is `yyz\n`. It prints the line `yyz`, and the processed bytes are one more than the file's. |
| `Grep2.StepCarryOnly` | grep2.c:38-80 | One iteration without the rewind: work and carry together are the old carry and the chunk, and the position moves on by the whole chunk. |
| `Grep2.WorksCarryOnly` | grep2.c:33-95 | The work buffers without the rewind: at most one per remaining byte plus one. At the end a fragment in hand is one last buffer, and nothing is added when there is none. |
| `Grep2.CarryOnlyCoversRest` | grep2.c:33-95 | Without the rewind, the work buffers glued together are the carry followed by the rest of the file. |
| `Grep2.CarryOnlyCoversFile` | grep2.c:33-95 | Without the rewind, every byte of the file is processed exactly once and in order. |
| `Grep2.CarryOnlyEnd` | grep2.c:89-95 | At the end of the file, a fragment left in hand is tried as one line. |
| `Grep2.ScanCorrected` | grep2.c:33-95 | The corrected loop prints exactly the matching lines of the corrected work buffers, the final fragment included. |

## Left out

- Regular expressions: `regcomp` and `regexec` are a foreign library. The pattern is the parameter `matches`, so nothing depends on what it matches. The flags (`REG_ICASE`, `REG_NOSUB`) are left out.
- fork, `wait`/`waitpid`, pipes, the message queue and all concurrency. The dispatchers handle a given sequence of messages in order. The workers are handled one reply at a time. The interleaving of workers and the order in which results arrive are not modelled.
- Floating point: `time_diff`, `gettimeofday`, throughput, MB/s and the efficiency percentage. Times are opaque integers, used only in sums and in the maximum and minimum.
- I/O: `fopen`, `fseek`/`ftell`, `fclose`, `malloc`/`realloc` and their failure branches. `fread` becomes `ReadAt` on a `seq<byte>`. The dispatchers see only the file's size. The worker branch of mygrep.c that skips a block when `fopen` fails is left out.
- Output: the log and summary CSV files, `write_log_entry`, `analizar_rendimiento`, and every `printf`. `puts` is modelled as the sequence of printed lines.
- The command line: `argc` checks and `atoi`. psoPr.c's pool-size check is modelled by `PsoPr.Start`. mygrep.c checks nothing, and its dispatcher takes any pool size; with no active children its loop handles no message.
- Integer widths: `off_t`, `size_t` and `long` overflow and the `(size_t)` casts are not modelled. File sizes and positions are unbounded naturals and pids are unbounded integers.
- The message timestamps `start_time`/`end_time` only feed the log and are not fields of the model's messages.
- Fields a reply leaves uninitialised in psoPr.c (the span of FINISH_WORK, the counters of ASSIGN_BLOCK) are 0 in the model.
- `MyGrep.Dispatcher.HandleRequest`: the dispatcher uses the arbiter as written. The corrected arbiter is modelled separately and is not wired into the dispatcher, so the model keeps the single-pool livelock of the code.
- `MyGrep.ResultFor`: `bytesProcessed` is the end of the last complete line of the data read. It can be below the bytes read, so the total is at most the file's size, not equal to it. Lines that straddle block boundaries are counted by each block's tokens as cut. That is the code's behaviour, and the model does not repair it.
- grep1.c, a plain `getline` loop, is not part of this model.

## Findings

| source | as written | input that shows it | evidently intended | confidence | as-written member | corrected member |
|---|---|---|---|---|---|---|
| mygrep.c:100-106 | `is_process_turn` denies the pid granted last even when the pool has one process, whose cursor then always points back at that pid | `num_processes = 1`, a file longer than 8192 bytes: after the first block every request by the one child gets WAIT_TURN, so the run never ends | a pool of one gets every block in turn | not executed | `MyGrep.SinglePoolStarves` | `MyGrep.CorrectedArbiter` |
| grep2.c:74-85 | the fragment after the last newline is both kept as the carry and re-read by rewinding the file position | a file of 8190 bytes `x`, a newline and the bytes `yz\n`: the second work buffer is `yyz\n`, so the line `yyz` is tried instead of `yz` | carry the fragment or rewind over it, not both, so every byte is processed once | not executed | `Grep2.RewindCounterexample` | `Grep2.CarryOnlyCoversFile` |
