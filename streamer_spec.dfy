/**
 * The behaviour of `GcodeStreamer` (streamer.rb) as functions over plain data.
 *
 * The serial port is replaced by two inputs: the job file's lines and the
 * sequence of chunks that successive `@serial.gets` calls return (`None` for
 * a `nil` read). The thread's concurrent `stop` is replaced by `stopAt`: the
 * index of the first line whose top-of-iteration check sees `@running` false
 * (`stopAt >= |lines|` means no stop during the loop).
 */
module StreamerSpec {
  import opened Wrappers
  import opened Text

  /** An observer session (one entry of the shared client list). */
  type Client = nat

  /** What the job thread does: a serial write, or a broadcast to every client. */
  datatype Action = Write(line: string) | Broadcast(message: string)

  /** What leaves the process: a serial write (the argument of `puts`, which
      also sends a newline when the line lacks one), or one websocket send. */
  datatype Event = SerialWrite(line: string) | Send(client: Client, message: string)

  /** The actions of one job thread; `blocked` when it waits for an
      acknowledgment that never comes (the source then blocks forever). */
  datatype Run = Run(actions: seq<Action>, blocked: bool)

  const AckToken: string := "ok"
  const CompleteMessage: string := "complete"

  /** `@serial.gets.to_s`: a `nil` read contributes the empty string. */
  function ReadText(chunk: Option<string>): string {
    chunk.GetOr("")
  }

  /** The text of several chunks, appended in order. */
  function Flatten(chunks: seq<Option<string>>): string {
    if chunks == [] then "" else ReadText(chunks[0]) + Flatten(chunks[1..])
  }

  /** The buffer after the first `k` chunks contains the acknowledgment token. */
  predicate AckedAfter(chunks: seq<Option<string>>, k: nat)
    requires k <= |chunks|
  {
    Contains(Flatten(chunks[..k]), AckToken)
  }

  /** `wait_for_ok` continuing from `buffer`: the number of further chunks it
      consumes, or `None` when the chunks run out first. */
  function AwaitFrom(buffer: string, chunks: seq<Option<string>>): (r: Option<nat>)
    ensures r.Some? ==> r.value <= |chunks|
    decreases |chunks|
  {
    if Contains(buffer, AckToken) then Some(0)
    else if chunks == [] then None
    else match AwaitFrom(buffer + ReadText(chunks[0]), chunks[1..])
      case None => None
      case Some(n) => Some(n + 1)
  }

  /** `wait_for_ok`: starts from an empty buffer. */
  function AwaitOk(chunks: seq<Option<string>>): Option<nat> {
    AwaitFrom("", chunks)
  }

  lemma {:induction false} FlattenSnoc(chunks: seq<Option<string>>, k: nat)
    requires k < |chunks|
    ensures Flatten(chunks[..k + 1]) == Flatten(chunks[..k]) + ReadText(chunks[k])
  {
    if k > 0 {
      assert chunks[..k + 1][1..] == chunks[1..][..k];
      assert chunks[..k][1..] == chunks[1..][..k - 1];
      FlattenSnoc(chunks[1..], k - 1);
    }
  }

  lemma {:induction false} AwaitFromMeaning(buffer: string, chunks: seq<Option<string>>)
    ensures AwaitFrom(buffer, chunks).Some? ==>
              var n := AwaitFrom(buffer, chunks).value;
              n <= |chunks| && Contains(buffer + Flatten(chunks[..n]), AckToken) &&
              forall k :: 0 <= k < n ==> !Contains(buffer + Flatten(chunks[..k]), AckToken)
    ensures AwaitFrom(buffer, chunks).None? ==>
              forall k :: 0 <= k <= |chunks| ==> !Contains(buffer + Flatten(chunks[..k]), AckToken)
    decreases |chunks|
  {
    assert buffer + Flatten(chunks[..0]) == buffer;
    if !Contains(buffer, AckToken) && chunks != [] {
      var b := buffer + ReadText(chunks[0]);
      AwaitFromMeaning(b, chunks[1..]);
      forall k | 1 <= k <= |chunks|
        ensures buffer + Flatten(chunks[..k]) == b + Flatten(chunks[1..][..k - 1])
      {
        assert chunks[..k][1..] == chunks[1..][..k - 1];
      }
    }
  }

  /** `wait_for_ok` returns right after the first read that makes the buffer
      contain "ok"; when no prefix of the chunks does, it never returns. */
  lemma AwaitOkMeaning(chunks: seq<Option<string>>)
    ensures AwaitOk(chunks).Some? ==>
              var n := AwaitOk(chunks).value;
              1 <= n <= |chunks| && AckedAfter(chunks, n) &&
              forall k :: 0 <= k < n ==> !AckedAfter(chunks, k)
    ensures AwaitOk(chunks).None? ==> forall k :: 0 <= k <= |chunks| ==> !AckedAfter(chunks, k)
  {
    AwaitFromMeaning("", chunks);
    assert Flatten(chunks[..0]) == "";
    forall k | 0 <= k <= |chunks| ensures "" + Flatten(chunks[..k]) == Flatten(chunks[..k]) { }
  }

  /** A wait whose buffer lacks "ok" takes one read, then continues. */
  lemma AwaitOneMore(buffer: string, chunk: Option<string>, rest: seq<Option<string>>, n: nat)
    requires !Contains(buffer, AckToken)
    requires AwaitFrom(buffer + ReadText(chunk), rest) == Some(n)
    ensures AwaitFrom(buffer, [chunk] + rest) == Some(n + 1)
  {
    assert ([chunk] + rest)[0] == chunk && ([chunk] + rest)[1..] == rest;
  }

  /** A token split over two chunks ("o" then "k") is still detected on the second read. */
  lemma AckSplitAcrossReads(a: string, b: string)
    requires a != [] && a[|a| - 1] == 'o' && !Contains(a, AckToken)
    requires b != [] && b[0] == 'k'
    ensures AwaitOk([Some(a), Some(b)]) == Some(2)
  {
    assert AwaitFrom(a + ReadText(Some(b)), []) == Some(0) by {
      var s := a + b;
      assert s[|a| - 1..|a| + 1] == AckToken;
      assert OccursAt(s, AckToken, |a| - 1);
      ContainsAt(s, AckToken);
    }
    assert AwaitFrom(a, [Some(b)]) == Some(1) by {
      AwaitOneMore(a, Some(b), [], 0);
      assert [Some(b)] + [] == [Some(b)];
    }
    assert AwaitFrom("", [Some(a), Some(b)]) == Some(2) by {
      assert "" + ReadText(Some(a)) == a;
      assert !Contains("", AckToken);
      AwaitOneMore("", Some(a), [Some(b)], 1);
      assert [Some(a)] + [Some(b)] == [Some(a), Some(b)];
    }
  }

  /** Reads that are all `nil` never acknowledge: the wait runs out of chunks. */
  lemma {:induction false} NilReadsNeverAck(buffer: string, chunks: seq<Option<string>>)
    requires !Contains(buffer, AckToken)
    requires forall k :: 0 <= k < |chunks| ==> chunks[k].None?
    ensures AwaitFrom(buffer, chunks) == None
    decreases |chunks|
  {
    if chunks != [] {
      assert buffer + ReadText(chunks[0]) == buffer;
      NilReadsNeverAck(buffer, chunks[1..]);
    }
  }

  /** The progress broadcast for a written line. */
  function Progress(line: string): string {
    "progress:" + Strip(line)
  }

  /** What one iteration does with a line the loop reaches: the actions it
      takes and the unread chunks after it, or `None` when its wait for "ok"
      never ends. */
  datatype Step = Step(actions: seq<Action>, rest: Option<seq<Option<string>>>)

  /** One iteration of the job loop for `line`: a blank line (one whose
      `strip` is empty, that is, all whitespace: `StripEmptyIffAllSpace`) is
      skipped; any other line is written, acknowledged, then announced. */
  function LineStep(line: string, chunks: seq<Option<string>>): Step {
    if AllSpace(line) then Step([], Some(chunks))
    else match AwaitOk(chunks)
      case None => Step([Write(line)], None)
      case Some(n) => Step([Write(line), Broadcast(Progress(line))], Some(chunks[n..]))
  }

  /** The job thread from line `i` on, with `chunks` still unread. */
  function JobFrom(lines: seq<string>, i: nat, chunks: seq<Option<string>>, stopAt: nat): Run
    decreases |lines| - i
  {
    if i >= |lines| || i >= stopAt then Run([Broadcast(CompleteMessage)], false)
    else
      var step := LineStep(lines[i], chunks);
      match step.rest
      case None => Run(step.actions, true)
      case Some(rest) =>
        var run := JobFrom(lines, i + 1, rest, stopAt);
        Run(step.actions + run.actions, run.blocked)
  }

  /** The whole job thread. */
  function Job(lines: seq<string>, chunks: seq<Option<string>>, stopAt: nat): Run {
    JobFrom(lines, 0, chunks, stopAt)
  }

  /** The lines whose `strip` is non-empty (not all whitespace), unstripped, in file order. */
  function NonBlank(lines: seq<string>): seq<string> {
    if lines == [] then []
    else (if AllSpace(lines[0]) then [] else [lines[0]]) + NonBlank(lines[1..])
  }

  /** The lines the loop reaches before a stop is seen. */
  function Reached(lines: seq<string>, stopAt: nat): seq<string> {
    if stopAt < |lines| then lines[..stopAt] else lines
  }

  /** Each line written, followed by its progress broadcast. */
  function Paired(ws: seq<string>): (r: seq<Action>)
    ensures |r| == 2 * |ws|
  {
    if ws == [] then [] else [Write(ws[0]), Broadcast(Progress(ws[0]))] + Paired(ws[1..])
  }

  lemma {:induction false} PairedSnoc(ws: seq<string>, w: string)
    ensures Paired(ws + [w]) == Paired(ws) + [Write(w), Broadcast(Progress(w))]
  {
    if ws != [] {
      assert (ws + [w])[1..] == ws[1..] + [w];
      PairedSnoc(ws[1..], w);
    }
  }

  /** The actions of a run that got stuck in the acknowledgment wait of
      `ws[k]`, after announcing the `k` lines before it. */
  function Stuck(ws: seq<string>, k: nat): (r: seq<Action>)
    requires k < |ws|
    ensures |r| == 2 * k + 1
  {
    Paired(ws[..k]) + [Write(ws[k])]
  }

  /** The run's actions have the shape `Paired(ws) + ["complete"]`, or
      `Stuck(ws, k)` for the `k` that the length of the actions determines. */
  predicate ShapedBy(run: Run, ws: seq<string>) {
    (!run.blocked ==> run.actions == Paired(ws) + [Broadcast(CompleteMessage)]) &&
    (run.blocked ==> |run.actions| / 2 < |ws| && run.actions == Stuck(ws, |run.actions| / 2))
  }

  lemma {:induction false} JobFromShape(lines: seq<string>, i: nat, chunks: seq<Option<string>>, stopAt: nat)
    requires i <= |Reached(lines, stopAt)|
    ensures ShapedBy(JobFrom(lines, i, chunks, stopAt), NonBlank(Reached(lines, stopAt)[i..]))
    decreases |lines| - i
  {
    var r := Reached(lines, stopAt);
    var ws := NonBlank(r[i..]);
    if i == |r| {
      assert r[i..] == [];
    } else {
      assert i < |lines| && i < stopAt && r[i] == lines[i];
      assert r[i..][1..] == r[i + 1..];
      var tail := NonBlank(r[i + 1..]);
      var step := LineStep(lines[i], chunks);
      if AllSpace(lines[i]) {
        assert ws == tail;
        JobFromShape(lines, i + 1, chunks, stopAt);
        var next := JobFrom(lines, i + 1, chunks, stopAt);
        assert step == Step([], Some(chunks));
        assert [] + next.actions == next.actions;
      } else {
        assert ws == [lines[i]] + tail;
        match AwaitOk(chunks)
        case None =>
          assert JobFrom(lines, i, chunks, stopAt) == Run([Write(lines[i])], true);
          assert Stuck(ws, 0) == [Write(lines[i])] by { assert ws[..0] == []; }
        case Some(n) =>
          JobFromShape(lines, i + 1, chunks[n..], stopAt);
          var next := JobFrom(lines, i + 1, chunks[n..], stopAt);
          assert JobFrom(lines, i, chunks, stopAt)
              == Run([Write(lines[i]), Broadcast(Progress(lines[i]))] + next.actions, next.blocked);
          StepShape(lines[i], tail, next);
      }
    }
  }

  /** Putting one written-and-announced line in front of a shaped run. */
  lemma StepShape(w: string, tail: seq<string>, run: Run)
    requires ShapedBy(run, tail)
    ensures ShapedBy(Run([Write(w), Broadcast(Progress(w))] + run.actions, run.blocked), [w] + tail)
  {
    var ws := [w] + tail;
    assert ws[1..] == tail;
    if run.blocked {
      var k := |run.actions| / 2;
      assert ws[..k + 1] == [w] + tail[..k];
      assert ws[..k + 1][1..] == tail[..k];
    }
  }

  /** The shape of every job run: each non-blank line the loop reaches is
      written and then announced, in file order, and the run ends with one
      "complete"; or it stops in the acknowledgment wait of one such line. */
  lemma JobShape(lines: seq<string>, chunks: seq<Option<string>>, stopAt: nat)
    ensures ShapedBy(Job(lines, chunks, stopAt), NonBlank(Reached(lines, stopAt)))
  {
    JobFromShape(lines, 0, chunks, stopAt);
    assert Reached(lines, stopAt)[0..] == Reached(lines, stopAt);
  }

  /** The lines written to the serial port, in order. */
  function Writes(actions: seq<Action>): seq<string> {
    if actions == [] then []
    else (if actions[0].Write? then [actions[0].line] else []) + Writes(actions[1..])
  }

  /** The messages broadcast, in order. */
  function Announcements(actions: seq<Action>): seq<string> {
    if actions == [] then []
    else (if actions[0].Broadcast? then [actions[0].message] else []) + Announcements(actions[1..])
  }

  /** The progress message of each line of `ws`, in order. */
  function ProgressOf(ws: seq<string>): (r: seq<string>)
    ensures |r| == |ws| && forall k :: 0 <= k < |ws| ==> r[k] == Progress(ws[k])
  {
    if ws == [] then [] else [Progress(ws[0])] + ProgressOf(ws[1..])
  }

  lemma {:induction false} WritesAppend(a: seq<Action>, b: seq<Action>)
    ensures Writes(a + b) == Writes(a) + Writes(b)
  {
    if a == [] {
      assert a + b == b;
    } else {
      var head := if a[0].Write? then [a[0].line] else [];
      assert (a + b)[0] == a[0] && (a + b)[1..] == a[1..] + b;
      WritesAppend(a[1..], b);
      Assoc(head, Writes(a[1..]), Writes(b));
    }
  }

  lemma {:induction false} AnnouncementsAppend(a: seq<Action>, b: seq<Action>)
    ensures Announcements(a + b) == Announcements(a) + Announcements(b)
  {
    if a == [] {
      assert a + b == b;
    } else {
      var head := if a[0].Broadcast? then [a[0].message] else [];
      assert (a + b)[0] == a[0] && (a + b)[1..] == a[1..] + b;
      AnnouncementsAppend(a[1..], b);
      Assoc(head, Announcements(a[1..]), Announcements(b));
    }
  }

  lemma {:induction false} PairedProjections(ws: seq<string>)
    ensures Writes(Paired(ws)) == ws
    ensures Announcements(Paired(ws)) == ProgressOf(ws)
  {
    if ws != [] {
      var head := [Write(ws[0]), Broadcast(Progress(ws[0]))];
      WritesAppend(head, Paired(ws[1..]));
      AnnouncementsAppend(head, Paired(ws[1..]));
      assert Writes(head) == [ws[0]] by { assert head[1..][1..] == []; }
      assert Announcements(head) == [Progress(ws[0])] by { assert head[1..][1..] == []; }
      PairedProjections(ws[1..]);
    }
  }

  lemma CompletedProjections(ws: seq<string>)
    ensures Writes(Paired(ws) + [Broadcast(CompleteMessage)]) == ws
    ensures Announcements(Paired(ws) + [Broadcast(CompleteMessage)]) == ProgressOf(ws) + [CompleteMessage]
  {
    WritesAppend(Paired(ws), [Broadcast(CompleteMessage)]);
    AnnouncementsAppend(Paired(ws), [Broadcast(CompleteMessage)]);
    PairedProjections(ws);
  }

  lemma StuckProjections(ws: seq<string>, k: nat)
    requires k < |ws|
    ensures Writes(Stuck(ws, k)) == ws[..k + 1]
    ensures Announcements(Stuck(ws, k)) == ProgressOf(ws[..k])
  {
    var done := ws[..k];
    var last: seq<Action> := [Write(ws[k])];
    assert Stuck(ws, k) == Paired(done) + last;
    WritesAppend(Paired(done), last);
    AnnouncementsAppend(Paired(done), last);
    PairedProjections(done);
    assert last[1..] == [];
    assert Writes(last) == [ws[k]];
    assert Announcements(last) == [];
    assert done + [ws[k]] == ws[..k + 1];
  }

  /** Without a stop and without a stuck acknowledgment wait, the serial
      writes are exactly the non-blank lines, unstripped, in file order; a stop
      cuts this off at the line where it is seen; a stuck wait leaves a
      non-empty prefix of them. */
  lemma JobWrites(lines: seq<string>, chunks: seq<Option<string>>, stopAt: nat)
    ensures var run := Job(lines, chunks, stopAt);
            var ws := NonBlank(Reached(lines, stopAt));
            (!run.blocked ==> Writes(run.actions) == ws) &&
            (run.blocked ==> 0 < |Writes(run.actions)| <= |ws| &&
                             Writes(run.actions) == ws[..|Writes(run.actions)|])
  {
    var run := Job(lines, chunks, stopAt);
    var ws := NonBlank(Reached(lines, stopAt));
    JobShape(lines, chunks, stopAt);
    if !run.blocked {
      CompletedProjections(ws);
    } else {
      StuckProjections(ws, |run.actions| / 2);
    }
  }

  /** A finished run broadcasts one progress message per written line, in the
      order of the writes, then "complete" exactly once; a stuck run
      announces every line but the one whose acknowledgment it awaits, and
      never "complete". */
  lemma JobAnnouncements(lines: seq<string>, chunks: seq<Option<string>>, stopAt: nat)
    ensures var run := Job(lines, chunks, stopAt);
            var ws := Writes(run.actions);
            (!run.blocked ==> Announcements(run.actions) == ProgressOf(ws) + [CompleteMessage]) &&
            (run.blocked ==> |ws| > 0 && Announcements(run.actions) == ProgressOf(ws[..|ws| - 1]))
  {
    var run := Job(lines, chunks, stopAt);
    var all := NonBlank(Reached(lines, stopAt));
    JobShape(lines, chunks, stopAt);
    if !run.blocked {
      CompletedProjections(all);
    } else {
      var k := |run.actions| / 2;
      StuckProjections(all, k);
      assert all[..k + 1][..k] == all[..k];
    }
  }

  /** No progress message is ever the completion message. */
  lemma ProgressIsNotComplete(line: string)
    ensures Progress(line) != CompleteMessage
  {
    assert Progress(line)[1] == 'r';
  }

  /** `broadcast`: one send of the same message to each client, in list order. */
  function Fanout(clients: seq<Client>, message: string): seq<Event> {
    if clients == [] then [] else [Send(clients[0], message)] + Fanout(clients[1..], message)
  }

  lemma {:induction false} FanoutSends(clients: seq<Client>, message: string)
    ensures |Fanout(clients, message)| == |clients|
    ensures forall k :: 0 <= k < |clients| ==> Fanout(clients, message)[k] == Send(clients[k], message)
  {
    if clients != [] {
      FanoutSends(clients[1..], message);
    }
  }

  lemma {:induction false} FanoutSnoc(clients: seq<Client>, c: Client, message: string)
    ensures Fanout(clients + [c], message) == Fanout(clients, message) + [Send(c, message)]
  {
    if clients != [] {
      assert (clients + [c])[1..] == clients[1..] + [c];
      FanoutSnoc(clients[1..], c, message);
    }
  }

  /** The events a sequence of actions produces for a given client list. */
  function Deliver(actions: seq<Action>, clients: seq<Client>): seq<Event> {
    if actions == [] then []
    else
      (match actions[0]
       case Write(line) => [SerialWrite(line)]
       case Broadcast(message) => Fanout(clients, message))
      + Deliver(actions[1..], clients)
  }

  lemma {:induction false} DeliverAppend(a: seq<Action>, b: seq<Action>, clients: seq<Client>)
    ensures Deliver(a + b, clients) == Deliver(a, clients) + Deliver(b, clients)
  {
    if a == [] {
      assert a + b == b;
    } else {
      assert (a + b)[1..] == a[1..] + b;
      DeliverAppend(a[1..], b, clients);
    }
  }

  lemma DeliverSnocWrite(done: seq<Action>, line: string, clients: seq<Client>)
    ensures Deliver(done + [Write(line)], clients) == Deliver(done, clients) + [SerialWrite(line)]
  {
    DeliverAppend(done, [Write(line)], clients);
    assert [Write(line)][1..] == [];
  }

  lemma DeliverSnocBroadcast(done: seq<Action>, message: string, clients: seq<Client>)
    ensures Deliver(done + [Broadcast(message)], clients) == Deliver(done, clients) + Fanout(clients, message)
  {
    DeliverAppend(done, [Broadcast(message)], clients);
    assert [Broadcast(message)][1..] == [];
  }

  lemma Assoc<T>(a: seq<T>, b: seq<T>, c: seq<T>)
    ensures (a + b) + c == a + (b + c)
  {
  }

  /** The lines that reach the serial port. */
  function SerialLines(events: seq<Event>): seq<string> {
    if events == [] then []
    else (if events[0].SerialWrite? then [events[0].line] else []) + SerialLines(events[1..])
  }

  /** The messages one client receives, in order. */
  function Received(events: seq<Event>, c: Client): seq<string> {
    if events == [] then []
    else (if events[0].Send? && events[0].client == c then [events[0].message] else [])
         + Received(events[1..], c)
  }

  lemma {:induction false} SerialLinesAppend(a: seq<Event>, b: seq<Event>)
    ensures SerialLines(a + b) == SerialLines(a) + SerialLines(b)
  {
    if a == [] {
      assert a + b == b;
    } else {
      var head := if a[0].SerialWrite? then [a[0].line] else [];
      assert (a + b)[0] == a[0] && (a + b)[1..] == a[1..] + b;
      SerialLinesAppend(a[1..], b);
      Assoc(head, SerialLines(a[1..]), SerialLines(b));
    }
  }

  lemma {:induction false} ReceivedAppend(a: seq<Event>, b: seq<Event>, c: Client)
    ensures Received(a + b, c) == Received(a, c) + Received(b, c)
  {
    if a == [] {
      assert a + b == b;
    } else {
      var head := if a[0].Send? && a[0].client == c then [a[0].message] else [];
      assert (a + b)[0] == a[0] && (a + b)[1..] == a[1..] + b;
      ReceivedAppend(a[1..], b, c);
      Assoc(head, Received(a[1..], c), Received(b, c));
    }
  }

  /** The client list holds each session once. */
  predicate Distinct(clients: seq<Client>) {
    forall j, k :: 0 <= j < k < |clients| ==> clients[j] != clients[k]
  }

  /** A fan-out writes nothing to the serial port and reaches a listed client
      exactly once. */
  lemma {:induction false} FanoutReceived(clients: seq<Client>, message: string, c: Client)
    requires Distinct(clients)
    ensures SerialLines(Fanout(clients, message)) == []
    ensures Received(Fanout(clients, message), c) == if c in clients then [message] else []
  {
    if clients != [] {
      var rest := Fanout(clients[1..], message);
      assert Fanout(clients, message)[1..] == rest;
      FanoutReceived(clients[1..], message, c);
      if c == clients[0] {
        assert c !in clients[1..] by {
          forall k | 0 <= k < |clients| - 1 ensures clients[1..][k] != c {
            assert clients[1..][k] == clients[k + 1];
          }
        }
      }
    }
  }

  /** The serial port sees exactly the written lines, and each distinct
      client receives exactly the broadcast messages, in order. */
  lemma {:induction false} DeliverProjections(actions: seq<Action>, clients: seq<Client>, c: Client)
    requires Distinct(clients) && c in clients
    ensures SerialLines(Deliver(actions, clients)) == Writes(actions)
    ensures Received(Deliver(actions, clients), c) == Announcements(actions)
  {
    if actions != [] {
      var head := match actions[0]
        case Write(line) => [SerialWrite(line)]
        case Broadcast(message) => Fanout(clients, message);
      SerialLinesAppend(head, Deliver(actions[1..], clients));
      ReceivedAppend(head, Deliver(actions[1..], clients), c);
      DeliverProjections(actions[1..], clients, c);
      match actions[0]
      case Write(line) =>
        assert head[1..] == [];
      case Broadcast(message) =>
        FanoutReceived(clients, message, c);
    }
  }
}
