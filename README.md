# lasterpi: the G-code streamer and the kiosk page, modelled in Dafny

lasterpi drives a laser engraver from a Raspberry Pi. This project models its two sequential cores:

- **The streamer** (`streamer.rb`). `GcodeStreamer` guards on a `@running` flag and runs a job thread. The thread:
  - writes each non-blank line of an uploaded G-code file to the serial port;
  - waits until the device's replies contain `ok`;
  - broadcasts `progress:<line>` to every websocket client;
  - ends with `complete`.
  
  `stop` clears the flag, and the thread checks it before each line.
- **The kiosk page** (`public/main.js`). This is the browser's state machine:
  - the `handleMessage` reducer over the counters, start time, badge, progress bar and log;
  - `setStatus`, `appendLog` and `updateProgress`;
  - the `mm:ss` elapsed clock;
  - the websocket connect and reconnect guards;
  - the upload, start and stop buttons.

Modules:

- `Wrappers`: `Option`.
- `Text`: Ruby's `strip` and `include?`, JavaScript's `String(n)` and `padStart`, and a decimal parser that inverts `String(n)`.
- `StreamerSpec`: the job thread, `wait_for_ok` and `broadcast` as functions over plain data, with the lemmas about them.
- `Streamer`: class `GcodeStreamer`. Its field `running` is `@running`, and `output` records every serial write and websocket send in order. Its methods use loops and are proved against `StreamerSpec`.
- `KioskFormat`: the pure expressions of the page:
  - the badge class;
  - the rounded percentage and the progress label;
  - the elapsed clock.
- `Kiosk`: the reducer `Handle` on a `Display` value, with its lemmas, and class `KioskClient`. The class holds the page's module-level variables and page texts as fields. Each handler is a method.

How the environment becomes inputs:

- **Serial port.** It is replaced by the file's lines and the sequence of chunks successive `gets` calls return. `None` stands for a `nil` read, which adds `""` to the buffer.
- **Concurrent `stop`.** It becomes `stopAt`, the index of the first line whose top-of-loop check sees `@running` cleared.
- **Ack wait that never returns.** When the chunks run out before `ok`, the source waits forever. The model reports this as a `blocked` run: no more writes, no `complete`, and `@running` stays set.
- **Missing upload file.** `File.readlines` raises inside the thread, so nothing is sent and `@running` stays set. The model does the same.
- **`Date.now()`.** It is the parameter `now`.
- **DOM writes.** They become string fields.
- **The websocket.** It becomes its ready state plus an `outbox` of the JSON objects sent.
- **The reconnect timer.** It becomes the `reconnectTimer` flag plus a count of the timers the browser holds.

Behaviours modelled as written:

- The thread broadcasts `complete` after a stop-triggered `break` just as after the last line.
- `msg.sent || sentLines` treats a zero count as missing.

## Model

| member | source | states |
|---|---|---|
| Text.Strip | streamer.rb:15 | defined as Ruby's `strip`: leading then trailing whitespace removed; `Text.StripSpec` and `Text.StripEmptyIffAllSpace` carry its properties |
| Text.Contains | streamer.rb:35 | defined as Ruby's `include?` by recursion on the string; `Text.ContainsAt` relates it to substring positions |
| Text.StripSpec | streamer.rb:15 | `strip` removes only whitespace, and only at the two ends; the result is a contiguous slice of the line that neither starts nor ends with whitespace |
| Text.TrimLeftSpec | streamer.rb:15 | leading whitespace removal takes a whitespace-only prefix and stops at the first other character |
| Text.TrimRightSpec | streamer.rb:15 | trailing whitespace removal takes a whitespace-only suffix and stops at the last other character |
| Text.StripEmptyIffAllSpace | streamer.rb:15 | `line.strip.empty?` holds exactly when every character of the line is whitespace |
| Text.ContainsAt | streamer.rb:35 | `include?` holds exactly when the token occurs at some position |
| Text.ContainsExtend | streamer.rb:35-36 | appending to the buffer never loses an occurrence of the token already in it |
| Text.NatToString | public/main.js:100-101 | `String(n)` of a non-negative number is all digits, non-empty, has no leading zero, and has one digit exactly when n < 10 |
| Text.IntToString | public/main.js:100-101 | defined as JavaScript's `String(i)`: a minus sign before the magnitude's digits when negative; `Text.IntToStringReads` carries its property |
| Text.IntToStringReads | public/main.js:100-101 | `String(i)` reads back as i: all digits for i ≥ 0, otherwise `-` followed by digits that read back as the magnitude |
| Text.ParseNatToString | public/main.js:100-101 | reading back the digits of `String(n)` gives n |
| Text.PadStart | public/main.js:108-109 | `padStart` gives the wider of the width and the string's length, ends with the string, and fills the front with the filler |
| Text.ParseNatLeadingZeros | public/main.js:108-109 | zero padding in front of a digit string does not change its value |
| StreamerSpec.AwaitOk | streamer.rb:33-38 | defined as `wait_for_ok` from an empty buffer: the number of reads it takes, or `None` when the reads run out; `StreamerSpec.AwaitOkMeaning` carries its property |
| StreamerSpec.AwaitFrom | streamer.rb:33-38 | the number of further reads the wait consumes never exceeds the reads available |
| StreamerSpec.AwaitOkMeaning | streamer.rb:33-38 | `wait_for_ok` returns right after the first read whose accumulated buffer contains "ok", after at least one read; when no prefix of the reads contains it, it never returns |
| StreamerSpec.AwaitFromMeaning | streamer.rb:34-37 | the same, from any starting buffer |
| StreamerSpec.AckSplitAcrossReads | streamer.rb:35-36 | "o" ending one read and "k" starting the next are detected on the second read |
| StreamerSpec.NilReadsNeverAck | streamer.rb:36 | `nil` reads add nothing, so a buffer without "ok" never gains one from them |
| StreamerSpec.LineStep | streamer.rb:14-20 | defined as one pass of the loop body over a reached line: nothing for a blank line, else the write, then the progress broadcast once the wait returns; `Streamer.GcodeStreamer.HandleLine` is proved against it |
| StreamerSpec.JobFrom | streamer.rb:13-22 | defined as the thread from line i on: stop check, `LineStep`, then the rest, ending with "complete" unless a wait blocks; `StreamerSpec.JobFromShape` carries its property |
| StreamerSpec.Job | streamer.rb:12-23 | defined as `JobFrom` from the first line; `StreamerSpec.JobShape`, `StreamerSpec.JobWrites` and `StreamerSpec.JobAnnouncements` carry its properties |
| StreamerSpec.JobShape | streamer.rb:13-23 | every run either writes each non-blank line before the stop point and announces it right after its write, then sends one "complete"; or it ends in the ack wait of one such line, with all earlier lines written and announced |
| StreamerSpec.JobFromShape | streamer.rb:13-21 | the same from any line of the loop, by induction on the remaining lines |
| StreamerSpec.StepShape | streamer.rb:17-20 | one written and announced line, put in front of a run of the expected shape, keeps the shape |
| StreamerSpec.JobWrites | streamer.rb:13-17 | without a blocked wait, the serial writes are exactly the non-blank lines before the stop point, raw and in file order; a blocked run wrote a non-empty prefix of them |
| StreamerSpec.JobAnnouncements | streamer.rb:17-22 | a finished run announces `progress:` + the stripped line once per write, in write order, then "complete" exactly once; a blocked run announces every write but its last and never "complete" |
| StreamerSpec.ProgressIsNotComplete | streamer.rb:20-22 | no progress message equals the completion message, so "complete" is sent once |
| StreamerSpec.PairedProjections | streamer.rb:17-20 | interleaved write/announce pairs project to the written lines and to their progress messages |
| StreamerSpec.CompletedProjections | streamer.rb:17-22 | the same for a finished run ending in "complete" |
| StreamerSpec.StuckProjections | streamer.rb:17-19 | the same for a run stuck in the ack wait of its last write |
| StreamerSpec.ProgressOf | streamer.rb:20 | the k-th progress message is that of the k-th written line |
| StreamerSpec.WritesAppend | streamer.rb:17 | the written lines of two action sequences in a row are those of each, concatenated |
| StreamerSpec.AnnouncementsAppend | streamer.rb:20-22 | the broadcasts of two action sequences in a row are those of each, concatenated |
| StreamerSpec.Fanout | streamer.rb:40-42 | defined as `broadcast`'s sends, one per client in list order; `StreamerSpec.FanoutSends` and `StreamerSpec.FanoutReceived` carry its properties |
| StreamerSpec.FanoutSends | streamer.rb:40-42 | `broadcast` makes one send per client, the k-th to the k-th client, all with the same message |
| StreamerSpec.FanoutSnoc | streamer.rb:41 | a fan-out to one more client ends with the send to that client |
| StreamerSpec.FanoutReceived | streamer.rb:40-42 | a fan-out writes nothing to the serial port, and each client in a duplicate-free list receives the message exactly once |
| StreamerSpec.DeliverAppend | streamer.rb:17-22 | the events of two action sequences in a row are those of each, concatenated |
| StreamerSpec.SerialLinesAppend | streamer.rb:17 | the serial lines of two event sequences in a row are those of each, concatenated |
| StreamerSpec.ReceivedAppend | streamer.rb:41 | what a client receives from two event sequences in a row is what it receives from each, concatenated |
| StreamerSpec.DeliverProjections | streamer.rb:17-22 | the serial port receives exactly the written lines, and every listed client receives exactly the broadcast messages, in order |
| Streamer.GcodeStreamer.constructor | streamer.rb:4-7 | a new streamer is not running and has sent nothing |
| Streamer.GcodeStreamer.Start | streamer.rb:9-25 | while running, nothing changes and no thread starts; otherwise the output grows by exactly the job run's events and `running` ends false unless the wait blocked; a missing file sends nothing and leaves `running` set |
| Streamer.GcodeStreamer.RunThread | streamer.rb:12-24 | the thread's output is the job run's events, and it clears `running` exactly when the run does not block |
| Streamer.GcodeStreamer.JobLoop | streamer.rb:13-21 | the loop's output is the events of the job run without its final "complete", or of the whole blocked run |
| Streamer.GcodeStreamer.Turn | streamer.rb:14-20 | one loop pass adds exactly the actions that the job run takes for that line, and continues the run from the next line with the unread chunks |
| Streamer.GcodeStreamer.ControlPath | streamer.rb:14 | the top-of-loop check sees `running` cleared exactly at the line where the stop arrives |
| Streamer.GcodeStreamer.HandleLine | streamer.rb:15-20 | a blank line sends nothing; otherwise the raw line is written, the ack is awaited, and `progress:` + the stripped line is broadcast, as `LineStep` says |
| Streamer.GcodeStreamer.Stop | streamer.rb:27-29 | `running` becomes false whatever it was, and nothing is sent |
| Streamer.GcodeStreamer.WaitForOk | streamer.rb:33-38 | the loop returns after the first read whose buffer contains "ok" (at least one read), or reports that none does |
| Streamer.GcodeStreamer.Broadcast | streamer.rb:40-42 | the output grows by one send of the message to each client, in list order; nothing else changes |
| KioskFormat.StatusClass | public/main.js:20 | defined as `setStatus`'s choice of class; `KioskFormat.StatusClassCases` carries its property |
| KioskFormat.StatusClassCases | public/main.js:19-22 | the class is `running` exactly for "Running", `error` exactly for "Error", and `idle` exactly for every other state |
| KioskFormat.Pct | public/main.js:99 | defined as the percentage: 0 with no total, else 100·sent/total rounded half up in exact integer arithmetic; `KioskFormat.PctRounds`, `KioskFormat.RoundsToUnique` and `KioskFormat.PctBounds` carry its properties |
| KioskFormat.PctRounds | public/main.js:99 | the percentage is 100·sent/total rounded half up |
| KioskFormat.RoundsToUnique | public/main.js:99 | only one integer is that rounding |
| KioskFormat.RoundsToExcludesAbove | public/main.js:99 | no larger integer is that rounding too |
| KioskFormat.PctBounds | public/main.js:99 | with 0 ≤ sent ≤ total the percentage is in 0..100; it is 0 with no job or nothing sent, and 100 when everything is sent |
| KioskFormat.ProgressWidth | public/main.js:100 | defined as the bar width `${pct}%`; `KioskFormat.ProgressLabelAgrees` carries its property |
| KioskFormat.ProgressText | public/main.js:101 | defined as the label `${pct}% • ${sent} / ${total}`; `KioskFormat.ProgressLabelAgrees` carries its property |
| KioskFormat.ProgressLabelAgrees | public/main.js:100-101 | the bar's width string starts the label, and its digits read back as the percentage |
| KioskFormat.Clock | public/main.js:107-110 | defined as `mm:ss` of s seconds: floor minutes and the truncating remainder, each padded to two characters; `KioskFormat.ClockFields` carries its property |
| KioskFormat.Elapsed | public/main.js:105-110 | defined as the interval body's text: "00:00" without a truthy start time, else the clock of the floored seconds since it; `KioskFormat.ElapsedReadsAsClock` and `KioskFormat.ElapsedStartsAtZero` carry its properties |
| KioskFormat.Pad2Reads | public/main.js:108-109 | a padded non-negative number has at least two digits and reads back as itself; exactly two below 100 |
| KioskFormat.JoinClock | public/main.js:110 | two-digit seconds below 60 joined to minutes with `:` read as the clock of 60·mm + ss |
| KioskFormat.ClockFields | public/main.js:107-110 | for s ≥ 0 seconds, the seconds field is two digits in 00..59, the minutes field has at least two digits, and 60·mm + ss = s |
| KioskFormat.ElapsedReadsAsClock | public/main.js:105-111 | with a start time, the display reads as the whole seconds elapsed since it |
| KioskFormat.ElapsedStartsAtZero | public/main.js:105-111 | without a start time, and in the first second after one, the display is "00:00" |
| Kiosk.Handle | public/main.js:68-96 | defined as `handleMessage` on the page state, keyed by `msg.type`; the lemmas below carry its properties and `Kiosk.KioskClient.HandleMessage` is proved against it |
| Kiosk.HandleProgress | public/main.js:82-86 | `progress` takes each count only when truthy, otherwise keeps the old one; it redraws bar and label from the new counts and touches nothing else |
| Kiosk.ProgressIdempotent | public/main.js:82-86 | handling the same `progress` message twice is handling it once |
| Kiosk.HandleJobComplete | public/main.js:87-92 | `jobComplete` logs one line, shows `Idle`, sets the sent count to the total, and redraws bar and label from the counts; with a non-empty job the bar reads 100% |
| Kiosk.HandleStatus | public/main.js:78-81 | `status` shows its state, or `Idle` without one, with the matching class; only `Running` changes the start time, to the first truthy of the message's, the old one and now |
| Kiosk.RunningStartsClock | public/main.js:80 | after a `Running` status the clock has a truthy start time |
| Kiosk.HandleLog | public/main.js:68-96 | the log only grows, by at most one entry: `status` and `progress` add none; `serial`, `log`, `jobComplete` and any other type each append exactly their own line and a newline |
| Kiosk.HandleKeepsConsistent | public/main.js:68-102 | every message keeps the badge class in step with the badge text, and the bar and label in step with the counts |
| Kiosk.KioskClient.constructor | public/main.js:4-8 | the variables start empty and the page connects (line 169): one log line and a connecting socket, with no timer pending |
| Kiosk.KioskClient.SetStatus | public/main.js:19-22 | the badge text is the argument and the class its status class; nothing else changes |
| Kiosk.KioskClient.AppendLog | public/main.js:24-27 | the log gains the text and a newline; nothing else changes |
| Kiosk.KioskClient.UpdateProgress | public/main.js:98-102 | bar and label are redrawn from the current counts; nothing else changes |
| Kiosk.KioskClient.HandleMessage | public/main.js:68-96 | the page changes exactly as the reducer `Handle` says; connection, file and outbox are untouched |
| Kiosk.KioskClient.OnMessage | public/main.js:43-52 | an object goes to `handleMessage`, a parsed `null` changes nothing, anything else is logged after `RAW: ` |
| Kiosk.KioskClient.ConnectWs | public/main.js:29-32 | nothing happens while the socket is open or connecting; otherwise one log line and a new connecting socket; the timer invariant is kept |
| Kiosk.KioskClient.OnOpen | public/main.js:34-41 | the page is connected, logs, shows `Idle`, and asks for the status only when a file name is set |
| Kiosk.KioskClient.OnClose | public/main.js:54-60 | the page is disconnected, logs, shows `Idle`, and schedules a reconnect only when none is pending, so at most one timer exists |
| Kiosk.KioskClient.OnError | public/main.js:62-65 | one log line and the `Error` badge; nothing else changes |
| Kiosk.KioskClient.ReconnectFires | public/main.js:59 | the timer clears the flag and reconnects: with the timer invariant, no timer remains and a new socket is connecting |
| Kiosk.KioskClient.Tick | public/main.js:105-111 | the elapsed text becomes `Elapsed` of the start time and now; nothing else changes |
| Kiosk.KioskClient.ClickUpload | public/main.js:114-121 | without a file nothing changes; otherwise the file name is remembered and shown, and the upload is logged |
| Kiosk.KioskClient.UploadAnswered | public/main.js:122-127 | the reply is logged, and `uploaded` is sent only when connected |
| Kiosk.KioskClient.UploadFailed | public/main.js:128 | the error is logged; nothing else changes |
| Kiosk.KioskClient.ClickStart | public/main.js:131-137 | without a file name nothing changes; otherwise it logs, sends `start` only when connected, and shows `Running` from now either way |
| Kiosk.KioskClient.ClickStop | public/main.js:139-144 | it logs, sends `stop` only when connected, and shows `Idle` with no start time either way |

## Left out

- The newline `puts` adds to a line that lacks one (such as the last line of a file without a final newline) is not recorded. A serial write event holds the argument of `puts`.
- Serial port I/O is left out: opening the port, `puts`, `gets` and the 50 ms pacing `sleep`. Writes are `output` events and reads are the `chunks` input; the delay is timing only.
- Threads and races are left out. The job thread runs to its end inside `Start`. A `stop` is seen only at the top of an iteration (`stopAt`), so a `stop` followed by a `start` that overlaps a live thread is not modelled.
- Changes to the shared client list while a job runs are not modelled, and neither are per-client send failures. `clients` is a fixed sequence.
- `app.rb` (the web server, websocket setup and upload route) is not part of this model.
- The page's DOM access is left out: scrolling, `style.width` as a style, the `alert` dialogs and `index.html`. The markup's initial texts are the `PageText` parameter.
- The upload `fetch` and `FormData` are left out. Its outcome is the argument of `UploadAnswered` or `UploadFailed`.
- `JSON.parse` and `JSON.stringify` are left out. `onmessage` receives the parse outcome as an `Incoming`, and a message's `JSON.stringify` text is its `json` field.
- Message fields of other JSON types (a numeric `text`, a string `sent`, NaN) are not modelled. Fields are strings or integers, or absent.
- `setTimeout` and `setInterval` scheduling is left out. The reconnect timer's firing and each interval run are methods (`ReconnectFires`, `Tick`) that the caller invokes.
- Events from an old socket after a reconnect are not modelled. Each handler acts on the current socket.
- The jog and laser buttons are not part of this model.
- Floating-point `Math.round(sentLines / totalLines * 100)` is modelled as exact round-half-up. At `.5` boundaries, IEEE rounding of the quotient can differ.
- The elapsed clock uses JavaScript's floor division and truncating `%` on integers. Numbers beyond the safe-integer range are not modelled.
- Kiosk.KioskClient.OnOpen: requires a connecting socket, which is the browser's guarantee for `onopen` rather than a check in the page.
- Kiosk.KioskClient.OnClose: requires a socket that is not already closed, which is the browser's guarantee that `onclose` fires once.
- Kiosk.KioskClient.ReconnectFires: requires a pending timer, because only a scheduled timer can fire.
- Kiosk.KioskClient.ConnectWs: keeps the timer invariant only when called while disconnected with no timer pending. These are the two places the page calls it: at load and from the timer.
- Text.Strip: the whitespace set (NUL, tab, line feed, vertical tab, form feed, carriage return, space) is stripped at both ends. This assumes a Ruby whose `strip` also removes a leading NUL; older versions remove NUL only at the end.
