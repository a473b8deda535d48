/**
 * `GcodeStreamer` (streamer.rb) as a class: the `@running` flag is a field,
 * and everything the object sends out (serial writes and websocket sends) is
 * appended to `output` in the order it happens. The job thread runs to its
 * end inside `Start`; its methods are proved against the functions of
 * `StreamerSpec`.
 */
module Streamer {
  import opened Wrappers
  import opened Text
  import opened StreamerSpec

  class GcodeStreamer {
    /** `@running`: a job thread is active (or has not yet seen a stop). */
    var running: bool
    /** The shared list of observer sessions that `broadcast` reads. */
    var clients: seq<Client>
    /** Serial writes and websocket sends, in the order they happen. */
    var output: seq<Event>

    /** `initialize`: the port is opened elsewhere; no job is running. */
    constructor (clients: seq<Client>)
      ensures !running && this.clients == clients && output == []
    {
      running := false;
      this.clients := clients;
      output := [];
    }

    /** `start`: ignored while a job runs; otherwise marks the streamer running
        and runs the job thread over the uploaded file (`None` when it does
        not exist), the serial chunks it reads, and the line at which a stop
        is first seen. */
    method Start(file: Option<seq<string>>, chunks: seq<Option<string>>, stopAt: nat)
      returns (launched: bool)
      modifies this
      ensures launched == !old(running) && clients == old(clients)
      ensures old(running) ==> running && output == old(output)
      ensures !old(running) && file.None? ==> running && output == old(output)
      ensures !old(running) && file.Some? ==>
                var run := Job(file.value, chunks, stopAt);
                output == old(output) + Deliver(run.actions, clients) && running == run.blocked
    {
      if running {
        return false;
      }
      running := true;
      launched := true;
      if file.None? {
        // File.readlines raises inside the thread: nothing is sent and
        // @running is never reset.
        return;
      }
      RunThread(file.value, chunks, stopAt);
    }

    /** The body of the thread `start` launches: the job loop over the file's
        lines, then "complete" and clearing `@running`. */
    method RunThread(lines: seq<string>, chunks: seq<Option<string>>, stopAt: nat)
      requires running
      modifies this
      ensures clients == old(clients)
      ensures output == old(output) + Deliver(Job(lines, chunks, stopAt).actions, clients)
      ensures running == Job(lines, chunks, stopAt).blocked
    {
      ghost var base := output;
      ghost var done;
      var finished;
      finished, done := JobLoop(lines, chunks, stopAt);
      if finished {
        ghost var cs := clients;
        Broadcast(CompleteMessage);
        assert output == base + Deliver(done + [Action.Broadcast(CompleteMessage)], cs) by {
          DeliverSnocBroadcast(done, CompleteMessage, cs);
          Assoc(base, Deliver(done, cs), Fanout(cs, CompleteMessage));
        }
        running := false;
      }
    }

    /** The `each_line` loop of the thread: `finished` is false when
        `wait_for_ok` never returned, and `done` is what the loop did. */
    method JobLoop(lines: seq<string>, chunks: seq<Option<string>>, stopAt: nat)
        returns (finished: bool, ghost done: seq<Action>)
      requires running
      modifies this
      ensures clients == old(clients)
      ensures output == old(output) + Deliver(done, clients)
      ensures finished ==> Job(lines, chunks, stopAt) == Run(done + [Action.Broadcast(CompleteMessage)], false)
      ensures !finished ==> running && Job(lines, chunks, stopAt) == Run(done, true)
    {
      ghost var cs := clients;
      ghost var base := output;
      ghost var target := Job(lines, chunks, stopAt);
      done := [];
      var rest := chunks;
      var i := 0;
      while i < |lines|
        invariant i <= |lines| && i <= stopAt
        invariant running && clients == cs
        invariant output == base + Deliver(done, cs)
        invariant target.actions == done + JobFrom(lines, i, rest, stopAt).actions
        invariant target.blocked == JobFrom(lines, i, rest, stopAt).blocked
      {
        ControlPath(i, stopAt);
        if !running {
          break;
        }
        var left;
        left, done := Turn(lines, i, rest, stopAt, base, done);
        if left.None? {
          // wait_for_ok never returns: the thread stays blocked.
          return false, done;
        }
        rest := left.value;
        i := i + 1;
      }
      return true, done;
    }

    /** One pass of the loop for line `i` that the stop check let through,
        with the bookkeeping that ties it to `JobFrom`: `done'` extends what
        the loop has done by this line's actions. */
    method Turn(lines: seq<string>, i: nat, rest: seq<Option<string>>, stopAt: nat,
                ghost base: seq<Event>, ghost done: seq<Action>)
        returns (left: Option<seq<Option<string>>>, ghost done': seq<Action>)
      requires i < |lines| && i < stopAt
      requires output == base + Deliver(done, clients)
      modifies this
      ensures clients == old(clients) && running == old(running)
      ensures output == base + Deliver(done', clients)
      ensures left.None? ==> done + JobFrom(lines, i, rest, stopAt).actions == done' && JobFrom(lines, i, rest, stopAt).blocked
      ensures left.Some? ==> done' + JobFrom(lines, i + 1, left.value, stopAt).actions == done + JobFrom(lines, i, rest, stopAt).actions
      ensures left.Some? ==> JobFrom(lines, i + 1, left.value, stopAt).blocked == JobFrom(lines, i, rest, stopAt).blocked
    {
      ghost var step := LineStep(lines[i], rest);
      ghost var cs := clients;
      left := HandleLine(lines[i], rest);
      assert output == base + Deliver(done + step.actions, cs) by {
        DeliverAppend(done, step.actions, cs);
        Assoc(base, Deliver(done, cs), Deliver(step.actions, cs));
      }
      done' := done + step.actions;
      if left.Some? {
        Assoc(done, step.actions, JobFrom(lines, i + 1, left.value, stopAt).actions);
      }
    }

    /** What the control path does while the thread runs, as seen by the check
        before line `i`: the one `stop` arrives just before line `stopAt`. */
    method ControlPath(i: nat, stopAt: nat)
      modifies this
      ensures running == (old(running) && i != stopAt)
      ensures clients == old(clients) && output == old(output)
    {
      if i == stopAt {
        Stop();
      }
    }

    /** One pass of the loop body for a line the loop reaches (`next` for a
        blank line; otherwise write, wait for "ok", announce). Returns the
        unread chunks, or `None` when the wait never ends. */
    method HandleLine(line: string, chunks: seq<Option<string>>) returns (left: Option<seq<Option<string>>>)
      modifies this
      ensures clients == old(clients) && running == old(running)
      ensures left == LineStep(line, chunks).rest
      ensures output == old(output) + Deliver(LineStep(line, chunks).actions, clients)
    {
      StripEmptyIffAllSpace(line);
      if Strip(line) == [] {
        return Some(chunks);
      }
      output := output + [SerialWrite(line)];
      DeliverSnocWrite([], line, clients);
      var ack := WaitForOk(chunks);
      if ack.None? {
        return None;
      }
      Broadcast(Progress(line));
      DeliverSnocBroadcast([Write(line)], Progress(line), clients);
      left := Some(chunks[ack.value..]);
    }

    /** `stop`: clears `@running` whatever it was; nothing is sent. */
    method Stop()
      modifies this
      ensures !running && clients == old(clients) && output == old(output)
    {
      running := false;
    }

    /** `wait_for_ok`: appends reads to an initially empty buffer until it
        contains "ok", and says how many reads that took; `None` when the
        reads run out first (the source then waits forever). */
    method WaitForOk(chunks: seq<Option<string>>) returns (r: Option<nat>)
      ensures r.Some? ==> 1 <= r.value <= |chunks| && AckedAfter(chunks, r.value) &&
                          forall k :: 0 <= k < r.value ==> !AckedAfter(chunks, k)
      ensures r.None? ==> forall k :: 0 <= k <= |chunks| ==> !AckedAfter(chunks, k)
      ensures r == AwaitOk(chunks)
    {
      var buffer := "";
      var i := 0;
      while !Contains(buffer, AckToken)
        invariant i <= |chunks|
        invariant buffer == Flatten(chunks[..i])
        invariant forall k :: 0 <= k < i ==> !AckedAfter(chunks, k)
        decreases |chunks| - i
      {
        if i == |chunks| {
          assert !AckedAfter(chunks, i);
          AwaitOkMeaning(chunks);
          return None;
        }
        FlattenSnoc(chunks, i);
        buffer := buffer + ReadText(chunks[i]);
        i := i + 1;
      }
      assert AckedAfter(chunks, i);
      AwaitOkMeaning(chunks);
      r := Some(i);
    }

    /** `broadcast`: sends `message` to every client, in list order, and
        changes nothing else. */
    method Broadcast(message: string)
      modifies this
      ensures output == old(output) + Fanout(clients, message)
      ensures running == old(running) && clients == old(clients)
    {
      var cs := clients;
      for k := 0 to |cs|
        invariant output == old(output) + Fanout(cs[..k], message)
        invariant running == old(running) && clients == cs
      {
        FanoutSnoc(cs[..k], cs[k], message);
        assert cs[..k + 1] == cs[..k] + [cs[k]];
        output := output + [Send(cs[k], message)];
      }
      assert cs[..|cs|] == cs;
    }
  }
}
