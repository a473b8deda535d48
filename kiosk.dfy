/**
 * The kiosk page's state machine (public/main.js): the module-level `let`s,
 * the texts the handlers write into the page, and the messages it sends.
 *
 * `Date.now()` is a parameter, DOM writes are string fields, the websocket is
 * its ready state plus an outbox of sent messages, and the reconnect timer is
 * the `reconnectTimer` flag plus a count of timers the browser holds.
 */
module Kiosk {
  import opened Wrappers
  import opened Text
  import opened KioskFormat

  /** A parsed JSON object as `handleMessage` reads it. A field that is absent
      is `None`; string fields hold strings and number fields integers (other
      JSON types in a field are not modelled); `json` is what `JSON.stringify`
      gives for the object. */
  datatype Message = Message(kind: Option<string>, text: Option<string>, state: Option<string>,
                             startTs: Option<int>, sent: Option<int>, total: Option<int>,
                             json: string)

  /** What `onmessage` ends up with: an object, a parsed `null`, or anything
      else already turned into text. */
  datatype Incoming = Parsed(msg: Message) | ParsedNull | Raw(data: string)

  /** The JSON objects the page sends. */
  datatype Outgoing = QueryStatus | StartJob(filename: string) | StopJob | Uploaded(filename: string)

  // The fixed texts the handlers log.
  const ConnectingNote: string := "WS: connecting..."
  const ConnectedNote: string := "WS: connected"
  const DisconnectedNote: string := "WS: disconnected - retrying..."
  const ErrorNote: string := "WS error"
  const JobCompleteNote: string := "Job complete"
  const DevicePrefix: string := "[device] "
  const OtherPrefix: string := "MSG: "
  const RawPrefix: string := "RAW: "
  const StartPrefix: string := "START -> "
  const UploadingPrefix: string := "Uploading "
  const UploadingSuffix: string := " ..."
  const UploadedPrefix: string := "Upload: "
  const UploadErrorPrefix: string := "Upload error: "

  datatype ReadyState = Connecting | Open | Closing | Closed

  /** The state `handleMessage` reads and writes: the counters, the start
      time, and the badge, progress and log texts. */
  datatype Display = Display(sentLines: int, totalLines: int, startTs: Option<int>,
                             badgeText: string, badgeClass: string,
                             progressText: string, progressWidth: string, log: string)

  /** Everything else the page keeps. */
  datatype Session = Session(socket: Option<ReadyState>, reconnectTimer: bool, pendingTimers: nat,
                             connected: bool, currentFileName: Option<string>,
                             currentFileText: string, elapsedText: string, outbox: seq<Outgoing>)

  /** The texts the page's markup starts with. */
  datatype PageText = PageText(badgeText: string, badgeClass: string, progressText: string,
                               progressWidth: string, log: string, elapsedText: string,
                               currentFileText: string)

  // ---------------------------------------------------------------------
  // The three page writers and the reducer, on values

  /** `setStatus(s)`. */
  function WithStatus(d: Display, s: string): Display {
    d.(badgeText := s, badgeClass := BadgeClass(s))
  }

  /** `appendLog(text)`. */
  function WithLog(d: Display, text: string): Display {
    d.(log := d.log + text + "\n")
  }

  /** `updateProgress()`. */
  function WithProgress(d: Display): Display {
    d.(progressWidth := ProgressWidth(d.sentLines, d.totalLines),
       progressText := ProgressText(d.sentLines, d.totalLines))
  }

  /** A string field in a `+` concatenation: `undefined` when absent. */
  function FieldText(v: Option<string>): string {
    v.GetOr("undefined")
  }

  /** `msg.state || 'Idle'`. */
  function ShownState(state: Option<string>): string {
    if state.Some? && state.value != "" then state.value else "Idle"
  }

  /** A string in a JavaScript condition: present and non-empty. */
  predicate HasName(v: Option<string>) {
    v.Some? && v.value != ""
  }

  /** `handleMessage(msg)` at time `now`. */
  function Handle(d: Display, msg: Message, now: int): Display {
    if msg.kind == Some("serial") then WithLog(d, DevicePrefix + FieldText(msg.text))
    else if msg.kind == Some("log") then WithLog(d, FieldText(msg.text))
    else if msg.kind == Some("status") then
      var shown := WithStatus(d, ShownState(msg.state));
      if msg.state == Some("Running") then shown.(startTs := Or(msg.startTs, Or(d.startTs, Some(now))))
      else shown
    else if msg.kind == Some("progress") then
      WithProgress(d.(sentLines := if Truthy(msg.sent) then msg.sent.value else d.sentLines,
                      totalLines := if Truthy(msg.total) then msg.total.value else d.totalLines))
    else if msg.kind == Some("jobComplete") then
      var shown := WithStatus(WithLog(d, JobCompleteNote), "Idle");
      WithProgress(shown.(sentLines := shown.totalLines))
    else WithLog(d, OtherPrefix + msg.json)
  }

  /** The badge's class matches its text, and the bar and label match the counters. */
  predicate Consistent(d: Display) {
    d.badgeClass == BadgeClass(d.badgeText) &&
    d.progressWidth == ProgressWidth(d.sentLines, d.totalLines) &&
    d.progressText == ProgressText(d.sentLines, d.totalLines)
  }

  // ---------------------------------------------------------------------
  // What the reducer promises

  /** A `progress` message takes `sent` and `total` only when they are truthy
      (a missing or zero field keeps the old count), redraws the bar and label
      from the new counts, and touches nothing else. */
  lemma HandleProgress(d: Display, msg: Message, now: int)
    requires msg.kind == Some("progress")
    ensures var r := Handle(d, msg, now);
            (Truthy(msg.sent) ==> r.sentLines == msg.sent.value) &&
            (!Truthy(msg.sent) ==> r.sentLines == d.sentLines) &&
            (Truthy(msg.total) ==> r.totalLines == msg.total.value) &&
            (!Truthy(msg.total) ==> r.totalLines == d.totalLines) &&
            r.progressWidth == ProgressWidth(r.sentLines, r.totalLines) &&
            r.progressText == ProgressText(r.sentLines, r.totalLines) &&
            r.log == d.log && r.startTs == d.startTs &&
            r.badgeText == d.badgeText && r.badgeClass == d.badgeClass
  {
  }

  /** The same `progress` message twice has the effect of once. */
  lemma ProgressIdempotent(d: Display, msg: Message, now: int, later: int)
    requires msg.kind == Some("progress")
    ensures Handle(Handle(d, msg, now), msg, later) == Handle(d, msg, now)
  {
  }

  /** `jobComplete` logs one line, shows `Idle`, and fills the bar: the sent
      count becomes the total, so with a non-empty job the bar reads 100%. */
  lemma HandleJobComplete(d: Display, msg: Message, now: int)
    requires msg.kind == Some("jobComplete")
    ensures var r := Handle(d, msg, now);
            r.sentLines == r.totalLines == d.totalLines &&
            r.badgeText == "Idle" && r.badgeClass == "status idle" &&
            r.log == d.log + JobCompleteNote + "\n" && r.startTs == d.startTs &&
            r.progressWidth == ProgressWidth(r.sentLines, r.totalLines) &&
            r.progressText == ProgressText(r.sentLines, r.totalLines) &&
            (d.totalLines > 0 ==> r.progressWidth == "100%" && Pct(r.sentLines, r.totalLines) == 100)
  {
    StatusClassCases("Idle");
    if d.totalLines > 0 {
      PctBounds(d.totalLines, d.totalLines);
      assert IntToString(100) == "100" by {
        assert NatToString(100) == NatToString(10) + [DigitChar(0)];
        assert NatToString(10) == NatToString(1) + [DigitChar(0)];
      }
    }
  }

  /** A `status` message shows its state (or `Idle` when it has none) with the
      matching class; only `Running` touches the start time, which becomes the
      first truthy of the message's start time, the old one, and now. */
  lemma HandleStatus(d: Display, msg: Message, now: int)
    requires msg.kind == Some("status")
    ensures var r := Handle(d, msg, now);
            r.badgeText == (if HasName(msg.state) then msg.state.value else "Idle") &&
            r.badgeClass == BadgeClass(r.badgeText) &&
            (msg.state != Some("Running") ==> r.startTs == d.startTs) &&
            (msg.state == Some("Running") && Truthy(msg.startTs) ==> r.startTs == msg.startTs) &&
            (msg.state == Some("Running") && !Truthy(msg.startTs) && Truthy(d.startTs) ==> r.startTs == d.startTs) &&
            (msg.state == Some("Running") && !Truthy(msg.startTs) && !Truthy(d.startTs) ==> r.startTs == Some(now)) &&
            r.sentLines == d.sentLines && r.totalLines == d.totalLines &&
            r.progressText == d.progressText && r.progressWidth == d.progressWidth && r.log == d.log
  {
  }

  /** After a `Running` status the elapsed timer has a start time to count
      from (the clock never reads 0 ms). */
  lemma RunningStartsClock(d: Display, msg: Message, now: int)
    requires msg.kind == Some("status") && msg.state == Some("Running") && now != 0
    ensures Truthy(Handle(d, msg, now).startTs)
  {
  }

  /** The log only grows, by at most one entry per message: `status` and
      `progress` add nothing, and every other type appends exactly its own
      line and a newline after the old log. */
  lemma HandleLog(d: Display, msg: Message, now: int)
    ensures var r := Handle(d, msg, now);
            |d.log| <= |r.log| && r.log[..|d.log|] == d.log &&
            (msg.kind == Some("status") || msg.kind == Some("progress") ==> r.log == d.log) &&
            (msg.kind == Some("serial") ==> r.log == d.log + DevicePrefix + FieldText(msg.text) + "\n") &&
            (msg.kind == Some("log") ==> r.log == d.log + FieldText(msg.text) + "\n") &&
            (msg.kind == Some("jobComplete") ==> r.log == d.log + JobCompleteNote + "\n") &&
            (msg.kind.None? || msg.kind.value !in {"serial", "log", "status", "progress", "jobComplete"} ==>
               r.log == d.log + OtherPrefix + msg.json + "\n")
  {
    var r := Handle(d, msg, now);
    if r.log != d.log {
      assert r.log[..|d.log|] == d.log;
    }
  }

  /** Handling any message keeps the badge and the progress display in step
      with the state they show. */
  lemma HandleKeepsConsistent(d: Display, msg: Message, now: int)
    requires Consistent(d)
    ensures Consistent(Handle(d, msg, now))
  {
    var r := Handle(d, msg, now);
    if msg.kind == Some("status") {
      assert r.sentLines == d.sentLines && r.totalLines == d.totalLines;
      assert r.progressText == d.progressText && r.progressWidth == d.progressWidth;
    } else if msg.kind == Some("progress") || msg.kind == Some("jobComplete") {
      assert r.badgeClass == BadgeClass(r.badgeText);
    } else {
      assert r == d.(log := r.log);
    }
  }

  // ---------------------------------------------------------------------
  // The page

  class KioskClient {
    var socket: Option<ReadyState>
    var reconnectTimer: bool
    var pendingTimers: nat
    var connected: bool
    var currentFileName: Option<string>
    var totalLines: int
    var sentLines: int
    var startTs: Option<int>
    var badgeText: string
    var badgeClass: string
    var progressText: string
    var progressWidth: string
    var log: string
    var elapsedText: string
    var currentFileText: string
    var outbox: seq<Outgoing>

    ghost function View(): Display
      reads this
    {
      Display(sentLines, totalLines, startTs, badgeText, badgeClass, progressText, progressWidth, log)
    }

    ghost function Conn(): Session
      reads this
    {
      Session(socket, reconnectTimer, pendingTimers, connected, currentFileName,
              currentFileText, elapsedText, outbox)
    }

    /** At most one reconnect timer exists, and it exists exactly while
        `reconnectTimer` is set; `connected` means the socket is open. */
    ghost predicate Valid()
      reads this
    {
      pendingTimers == (if reconnectTimer then 1 else 0) &&
      (reconnectTimer ==> socket == Some(Closed)) &&
      (connected ==> socket == Some(Open))
    }

    /** Loading the script over the page's markup: the `let`s start empty and
        the last statement calls `connectWs()`. */
    constructor(page: PageText)
      ensures Valid()
      ensures View() == Display(0, 0, None, page.badgeText, page.badgeClass, page.progressText,
                                page.progressWidth, page.log + ConnectingNote + "\n")
      ensures Conn() == Session(Some(Connecting), false, 0, false, None,
                                page.currentFileText, page.elapsedText, [])
    {
      socket := None;
      reconnectTimer := false;
      pendingTimers := 0;
      connected := false;
      currentFileName := None;
      totalLines, sentLines, startTs := 0, 0, None;
      badgeText, badgeClass := page.badgeText, page.badgeClass;
      progressText, progressWidth := page.progressText, page.progressWidth;
      log := page.log;
      elapsedText, currentFileText := page.elapsedText, page.currentFileText;
      outbox := [];
      new;
      ConnectWs();
    }

    method SetStatus(s: string)
      modifies this
      ensures View() == WithStatus(old(View()), s) && Conn() == old(Conn())
    {
      badgeClass := BadgeClass(s);
      badgeText := s;
    }

    method AppendLog(text: string)
      modifies this
      ensures View() == WithLog(old(View()), text) && Conn() == old(Conn())
    {
      log := log + text + "\n";
    }

    method UpdateProgress()
      modifies this
      ensures View() == WithProgress(old(View())) && Conn() == old(Conn())
    {
      progressWidth := ProgressWidth(sentLines, totalLines);
      progressText := ProgressText(sentLines, totalLines);
    }

    method HandleMessage(msg: Message, now: int)
      modifies this
      ensures View() == Handle(old(View()), msg, now) && Conn() == old(Conn())
    {
      if msg.kind == Some("serial") {
        AppendLog(DevicePrefix + FieldText(msg.text));
      } else if msg.kind == Some("log") {
        AppendLog(FieldText(msg.text));
      } else if msg.kind == Some("status") {
        SetStatus(ShownState(msg.state));
        if msg.state == Some("Running") {
          startTs := Or(msg.startTs, Or(startTs, Some(now)));
        }
      } else if msg.kind == Some("progress") {
        sentLines := if Truthy(msg.sent) then msg.sent.value else sentLines;
        totalLines := if Truthy(msg.total) then msg.total.value else totalLines;
        UpdateProgress();
      } else if msg.kind == Some("jobComplete") {
        AppendLog(JobCompleteNote);
        SetStatus("Idle");
        sentLines := totalLines;
        UpdateProgress();
      } else {
        AppendLog(OtherPrefix + msg.json);
      }
    }

    /** `socket.onmessage`: objects go to `handleMessage`, a parsed `null` makes
        it throw before it changes anything, anything else is logged raw. */
    method OnMessage(ev: Incoming, now: int)
      modifies this
      ensures ev.Parsed? ==> View() == Handle(old(View()), ev.msg, now)
      ensures ev.ParsedNull? ==> View() == old(View())
      ensures ev.Raw? ==> View() == WithLog(old(View()), RawPrefix + ev.data)
      ensures Conn() == old(Conn())
    {
      match ev
      case Parsed(msg) => HandleMessage(msg, now);
      case ParsedNull =>
      case Raw(data) => AppendLog(RawPrefix + data);
    }

    /** `connectWs()`: nothing while the socket is open or connecting;
        otherwise log and open a new socket. */
    method ConnectWs()
      modifies this
      ensures old(socket) == Some(Open) || old(socket) == Some(Connecting) ==>
                View() == old(View()) && Conn() == old(Conn())
      ensures !(old(socket) == Some(Open) || old(socket) == Some(Connecting)) ==>
                View() == WithLog(old(View()), ConnectingNote) &&
                Conn() == old(Conn()).(socket := Some(Connecting))
      ensures old(Valid()) && !old(connected) && !old(reconnectTimer) ==> Valid()
    {
      if socket.Some? && (socket.value == Open || socket.value == Connecting) {
        return;
      }
      AppendLog(ConnectingNote);
      socket := Some(Connecting);
    }

    /** `socket.onopen`, which the browser fires on a connecting socket. */
    method OnOpen()
      requires socket == Some(Connecting)
      modifies this
      ensures socket == Some(Open) && connected
      ensures View() == WithStatus(WithLog(old(View()), ConnectedNote), "Idle")
      ensures outbox == old(outbox) + (if HasName(currentFileName) then [QueryStatus] else [])
      ensures reconnectTimer == old(reconnectTimer) && pendingTimers == old(pendingTimers)
      ensures currentFileName == old(currentFileName) && currentFileText == old(currentFileText)
      ensures elapsedText == old(elapsedText)
      ensures old(Valid()) ==> Valid()
    {
      socket := Some(Open);
      connected := true;
      AppendLog(ConnectedNote);
      SetStatus("Idle");
      if HasName(currentFileName) {
        outbox := outbox + [QueryStatus];
      }
    }

    /** `socket.onclose`, fired once on a socket that is not yet closed:
        a reconnect is scheduled only when none is pending. */
    method OnClose()
      requires socket.Some? && socket.value != Closed
      modifies this
      ensures socket == Some(Closed) && !connected && reconnectTimer
      ensures View() == WithStatus(WithLog(old(View()), DisconnectedNote), "Idle")
      ensures pendingTimers == old(pendingTimers) + (if old(reconnectTimer) then 0 else 1)
      ensures outbox == old(outbox) && currentFileName == old(currentFileName)
      ensures currentFileText == old(currentFileText) && elapsedText == old(elapsedText)
      ensures old(Valid()) ==> Valid() && pendingTimers == 1
    {
      socket := Some(Closed);
      connected := false;
      AppendLog(DisconnectedNote);
      SetStatus("Idle");
      if !reconnectTimer {
        reconnectTimer := true;
        pendingTimers := pendingTimers + 1;
      }
    }

    /** `socket.onerror`. */
    method OnError()
      modifies this
      ensures View() == WithStatus(WithLog(old(View()), ErrorNote), "Error") && Conn() == old(Conn())
    {
      AppendLog(ErrorNote);
      SetStatus("Error");
    }

    /** The reconnect timer firing: it clears `reconnectTimer` and calls
        `connectWs()`, which opens a new socket after a close. */
    method ReconnectFires()
      requires pendingTimers > 0
      modifies this
      ensures pendingTimers == old(pendingTimers) - 1 && !reconnectTimer
      ensures old(Valid()) ==> Valid() && pendingTimers == 0 && socket == Some(Connecting) &&
                               View() == WithLog(old(View()), ConnectingNote)
      ensures connected == old(connected) && outbox == old(outbox)
      ensures currentFileName == old(currentFileName) && currentFileText == old(currentFileText)
      ensures elapsedText == old(elapsedText)
    {
      pendingTimers := pendingTimers - 1;
      reconnectTimer := false;
      ConnectWs();
    }

    /** One run of the interval body. */
    method Tick(now: int)
      modifies this
      ensures elapsedText == Elapsed(startTs, now)
      ensures View() == old(View()) && Conn() == old(Conn()).(elapsedText := elapsedText)
    {
      elapsedText := Elapsed(startTs, now);
    }

    /** The upload button's synchronous part: with a picked file, remember its
        name, show it and log the upload; with none, only an alert. */
    method ClickUpload(file: Option<string>)
      modifies this
      ensures file.None? ==> View() == old(View()) && Conn() == old(Conn())
      ensures file.Some? ==>
                View() == WithLog(old(View()), UploadingPrefix + file.value + UploadingSuffix) &&
                Conn() == old(Conn()).(currentFileName := file, currentFileText := file.value)
    {
      if file.None? {
        return;
      }
      currentFileName := file;
      currentFileText := file.value;
      AppendLog(UploadingPrefix + file.value + UploadingSuffix);
    }

    /** The upload request answered with `txt`. */
    method UploadAnswered(name: string, txt: string)
      modifies this
      ensures View() == WithLog(old(View()), UploadedPrefix + txt)
      ensures Conn() == old(Conn()).(outbox := old(outbox) + (if old(connected) then [Uploaded(name)] else []))
    {
      AppendLog(UploadedPrefix + txt);
      if connected {
        outbox := outbox + [Uploaded(name)];
      }
    }

    /** The upload request failed with `message`. */
    method UploadFailed(message: string)
      modifies this
      ensures View() == WithLog(old(View()), UploadErrorPrefix + message) && Conn() == old(Conn())
    {
      AppendLog(UploadErrorPrefix + message);
    }

    /** The start button: without an uploaded file name only an alert;
        otherwise log, send `start` when connected, and show the job running
        from `now` whether or not it was sent. */
    method ClickStart(now: int)
      modifies this
      ensures !HasName(old(currentFileName)) ==> View() == old(View()) && Conn() == old(Conn())
      ensures HasName(old(currentFileName)) ==>
                View() == WithStatus(WithLog(old(View()), StartPrefix + old(currentFileName).value), "Running")
                            .(startTs := Some(now)) &&
                Conn() == old(Conn()).(outbox := old(outbox) +
                            (if old(connected) then [StartJob(old(currentFileName).value)] else []))
    {
      if !HasName(currentFileName) {
        return;
      }
      var name := currentFileName.value;
      AppendLog(StartPrefix + name);
      if connected {
        outbox := outbox + [StartJob(name)];
      }
      startTs := Some(now);
      SetStatus("Running");
    }

    /** The stop button: log, send `stop` when connected, show `Idle` and
        clear the start time whether or not it was sent. */
    method ClickStop()
      modifies this
      ensures View() == WithStatus(WithLog(old(View()), "STOP"), "Idle").(startTs := None)
      ensures Conn() == old(Conn()).(outbox := old(outbox) + (if old(connected) then [StopJob] else []))
    {
      AppendLog("STOP");
      if connected {
        outbox := outbox + [StopJob];
      }
      SetStatus("Idle");
      startTs := None;
    }
  }
}
