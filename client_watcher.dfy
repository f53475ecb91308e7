/** The browser side of the watch relay: the `FileWatcher` object with its
    `isActive` / `eventSource` lifecycle, the parse guard of `onmessage`,
    and `handleFileEvent`, which filters raw events and re-tags them.
    Network outcomes (the control request's response, the messages the
    event stream delivers) are inputs. */
module ClientWatcher {

  import opened Common
  import opened Strings
  import Json
  import WatchServer

  /** What `onFileChange` is called with. */
  datatype FileChange = FileChange(kind: string, path: string, isDirectory: bool)

  /** `path.replace(rootPath, '').replace(/^[\\/]/, '')`: the first
      occurrence of the root is cut out, then at most one leading `/` or
      `\`. */
  function StripRoot(rootPath: string, path: string): string
  {
    var r := ReplaceFirst(path, rootPath, "");
    if r != [] && (r[0] == '/' || r[0] == '\\') then r[1..] else r
  }

  /** For a path under the root, the delivered path is exactly the part
      after the root and its separator. */
  lemma StripRootUnderRoot(rootPath: string, sep: char, rel: string)
    requires sep == '/' || sep == '\\'
    ensures StripRoot(rootPath, rootPath + [sep] + rel) == rel
  {
    assert rootPath + [sep] + rel == rootPath + ([sep] + rel);
    ReplaceFirstPrefix(rootPath, [sep] + rel, "");
    assert ([sep] + rel)[1..] == rel;
  }

  /** What one call of `handleFileEvent` does. */
  datatype Handled =
    | Callback(change: FileChange)  // onFileChange was called once
    | NoCallback                    // the event was filtered out
    | Threw                         // `path.replace` on a missing path threw

  /** `handleFileEvent({type, path})`: file events pass only for `.md`
      paths, directory events always pass and are re-tagged, anything else
      is ignored. A message without a `path` throws before any test. */
  function HandleFileEvent(rootPath: string, kind: Option<string>, path: Option<string>): (r: Handled)
    ensures path.None? <==> r.Threw?
    ensures r.Callback? ==> path.Some? && r.change.path == StripRoot(rootPath, path.value)
    ensures path.Some? && kind.Some? && kind.value in {"add", "change", "unlink"} ==>
      r == if EndsWith(path.value, ".md") then Callback(FileChange(kind.value, StripRoot(rootPath, path.value), false))
           else NoCallback
    ensures path.Some? && kind.Some? && kind.value in {"addDir", "unlinkDir"} ==>
      r == Callback(FileChange(if kind.value == "addDir" then "add" else "unlink", StripRoot(rootPath, path.value), true))
    ensures path.Some? && !(kind.Some? && kind.value in {"add", "change", "unlink", "addDir", "unlinkDir"}) ==>
      r == NoCallback
  {
    if path.None? then Threw
    else
      var relativePath := StripRoot(rootPath, path.value);
      if kind == Some("add") || kind == Some("change") || kind == Some("unlink") then
        if EndsWith(path.value, ".md") then Callback(FileChange(kind.value, relativePath, false))
        else NoCallback
      else if kind == Some("addDir") || kind == Some("unlinkDir") then
        Callback(FileChange(if kind == Some("addDir") then "add" else "unlink", relativePath, true))
      else NoCallback
  }

  /** What becomes of one message of the event stream. */
  datatype MessageOutcome =
    | Delivered(change: FileChange)  // onFileChange called once
    | Dropped                        // handled, filtered out
    | Logged                         // parse or handling error, logged only

  /** `eventSource.onmessage`: `JSON.parse` guarded by `try`; a message that
      does not parse never reaches `handleFileEvent`, and an error thrown by
      it is logged the same way. */
  function OnMessage(rootPath: string, data: string): (r: MessageOutcome)
    ensures Json.Parse(data).None? ==> r == Logged
    ensures r.Delivered? ==>
      && Json.Parse(data).Some?
      && HandleFileEvent(rootPath, Json.Lookup(Json.Parse(data).value, "type"),
                         Json.Lookup(Json.Parse(data).value, "path")) == Callback(r.change)
  {
    match Json.Parse(data)
    case None => Logged
    case Some(fields) => Outcome(HandleFileEvent(rootPath, Json.Lookup(fields, "type"), Json.Lookup(fields, "path")))
  }

  /** A handled message as `onmessage` reports it; a throw is caught and logged. */
  function Outcome(h: Handled): MessageOutcome
  {
    match h
    case Callback(change) => Delivered(change)
    case NoCallback => Dropped
    case Threw => Logged
  }

  /** The `data` of an event as `EventSource` reads it from one frame of
      the form `data: <line>` followed by a blank line. */
  function SseData(frame: string): Option<string>
  {
    if IsPrefix("data: ", frame) && EndsWith(frame, "\n\n") && |frame| >= 8 &&
       forall i :: 6 <= i < |frame| - 2 ==> frame[i] != '\n' && frame[i] != '\r'
    then Some(frame[6..|frame| - 2])
    else None
  }

  /** A message as the browser receives it from one frame of the stream;
      a frame that carries no data dispatches no message. */
  function Receive(rootPath: string, frame: string): MessageOutcome
  {
    match SseData(frame)
    case None => Dropped
    case Some(data) => OnMessage(rootPath, data)
  }

  /** A one-line payload comes out of its frame unchanged. */
  lemma SseDataOfLine(line: string)
    requires forall c :: c in line ==> c >= ' '
    ensures SseData("data: " + line + "\n\n") == Some(line)
  {
    var frame := "data: " + line + "\n\n";
    assert frame[..6] == "data: ";
    assert frame[|frame| - 2..] == "\n\n";
    assert frame[6..|frame| - 2] == line;
    forall i | 6 <= i < |frame| - 2
      ensures frame[i] != '\n' && frame[i] != '\r'
    {
      assert frame[i] == line[i - 6];
      assert line[i - 6] in line;
    }
  }

  /** The stream carries each payload intact: the frame's data is the
      serialised payload, and it parses back to the payload's fields. */
  lemma FrameRoundTrip(ev: WatchServer.WatchEvent)
    ensures SseData(WatchServer.Frame(ev)) == Some(Json.Stringify(WatchServer.Payload(ev)))
    ensures Json.Parse(Json.Stringify(WatchServer.Payload(ev))) == Some(WatchServer.Payload(ev))
  {
    Json.StringifyHasNoControl(WatchServer.Payload(ev));
    SseDataOfLine(Json.Stringify(WatchServer.Payload(ev)));
    Json.ParseStringify(WatchServer.Payload(ev));
  }

  /** The suffix test looks at the part after the root. */
  lemma MarkdownUnderRoot(rootPath: string, sep: char, rel: string)
    requires sep == '/' || sep == '\\'
    ensures EndsWith(rootPath + [sep] + rel, ".md") <==> EndsWith(rel, ".md")
  {
    var raw := rootPath + [sep] + rel;
    if |rel| >= 3 {
      assert raw == (rootPath + [sep]) + rel;
      EndsWithLongTail(rootPath + [sep], rel, ".md");
    } else if |raw| >= 3 {
      assert raw[|raw| - |rel| - 1] == sep;
      assert raw[|raw| - 3..][2 - |rel|] == sep;
    }
  }

  /** What the relay delivers to the browser for an event on the path
      `rootPath + sep + rel`. */
  function Expected(ev: WatchServer.WatchEvent, rel: string): MessageOutcome
  {
    match ev
    case Add(_) => if EndsWith(rel, ".md") then Delivered(FileChange("add", rel, false)) else Dropped
    case Change(_) => if EndsWith(rel, ".md") then Delivered(FileChange("change", rel, false)) else Dropped
    case Unlink(_) => if EndsWith(rel, ".md") then Delivered(FileChange("unlink", rel, false)) else Dropped
    case AddDir(_) => Delivered(FileChange("add", rel, true))
    case UnlinkDir(_) => Delivered(FileChange("unlink", rel, true))
    case WatchError(_) => Logged
  }

  /** End to end: an event the server's watcher emits for a path under the
      root reaches the browser's callback as the normalised change, at most
      once; a watcher error never does. */
  lemma RelayDelivers(rootPath: string, sep: char, rel: string, ev: WatchServer.WatchEvent)
    requires sep == '/' || sep == '\\'
    requires !ev.WatchError? ==> ev.path == rootPath + [sep] + rel
    ensures Receive(rootPath, WatchServer.Frame(ev)) == Expected(ev, rel)
  {
    ReceiveFrame(rootPath, ev);
    if !ev.WatchError? {
      StripRootUnderRoot(rootPath, sep, rel);
      MarkdownUnderRoot(rootPath, sep, rel);
      var tag := WatchServer.Tag(ev);
      var h := HandleFileEvent(rootPath, Some(tag), Some(ev.path));
      if ev.AddDir? || ev.UnlinkDir? {
        assert h == Callback(FileChange(if tag == "addDir" then "add" else "unlink", rel, true));
      } else {
        assert h == if EndsWith(rel, ".md") then Callback(FileChange(tag, rel, false)) else NoCallback;
      }
    }
  }

  /** The browser handles exactly the type and path the server sent. */
  lemma ReceiveFrame(rootPath: string, ev: WatchServer.WatchEvent)
    ensures Receive(rootPath, WatchServer.Frame(ev)) ==
      Outcome(HandleFileEvent(rootPath, Some(WatchServer.Tag(ev)), if ev.WatchError? then None else Some(ev.path)))
  {
    FrameRoundTrip(ev);
    var fields := WatchServer.Payload(ev);
    assert Json.Lookup(fields, "type") == Some(WatchServer.Tag(ev));
    if ev.WatchError? {
      assert Json.Lookup(fields, "path") == None;
    } else {
      assert Json.Lookup(fields, "path") == Some(ev.path);
    }
  }

  /** The browser's end of the event stream. */
  class EventSource {
    const url: string
    var closed: bool

    constructor (url: string)
      ensures this.url == url && !closed
    {
      this.url := url;
      closed := false;
    }

    method Close()
      modifies this
      ensures closed
    {
      closed := true;
    }
  }

  /** How a `fetch` of the control endpoint turned out. */
  datatype FetchOutcome = Rejected | Responded(ok: bool)

  class FileWatcher {
    const rootPath: string
    const clientId: string
    var eventSource: EventSource?
    var isActive: bool

    /** A new watcher is inactive and has no event source. The client id,
        random in the source, is a parameter. */
    constructor (rootPath: string, clientId: string)
      ensures this.rootPath == rootPath && this.clientId == clientId
      ensures eventSource == null && !isActive
      ensures Valid()
    {
      this.rootPath := rootPath;
      this.clientId := clientId;
      eventSource := null;
      isActive := false;
    }

    /** An inactive watcher holds no event source: `start` opens one only
        on its way to becoming active, and `stop` drops it before it can
        become inactive. */
    ghost predicate Valid()
      reads this
    {
      !isActive ==> eventSource == null
    }

    /** The URL of the event stream for this watcher. */
    function StreamUrl(): string
    {
      "/api/watch?clientId=" + clientId
    }

    /** `start()`: a no-op when already active; otherwise sends the start
        request and, only when it is answered with an ok status, opens the
        event stream and becomes active. */
    method Start(outcome: FetchOutcome) returns (sent: Option<WatchServer.ControlRequest>)
      requires Valid()
      modifies this
      ensures Valid()
      ensures old(isActive) ==> sent.None? && isActive && eventSource == old(eventSource)
      ensures !old(isActive) ==> sent == Some(WatchServer.ControlRequest("start", rootPath, Some(clientId)))
      ensures !old(isActive) && outcome == Responded(true) ==>
        isActive && eventSource != null && fresh(eventSource) &&
        eventSource.url == StreamUrl() && !eventSource.closed
      ensures !old(isActive) && outcome != Responded(true) ==>
        !isActive && eventSource == null
    {
      if isActive {
        return None;
      }
      sent := Some(WatchServer.ControlRequest("start", rootPath, Some(clientId)));
      if outcome == Responded(true) {
        eventSource := new EventSource(StreamUrl());
        isActive := true;
      }
    }

    /** `stop()`: a no-op when inactive; otherwise closes and drops the
        event stream, sends the stop request, and becomes inactive once that
        request completes (whatever its status). */
    method Stop(outcome: FetchOutcome) returns (sent: Option<WatchServer.ControlRequest>)
      requires Valid()
      modifies this, eventSource
      ensures Valid()
      ensures !old(isActive) ==> sent.None? && !isActive && eventSource == old(eventSource)
      ensures old(isActive) ==> sent == Some(WatchServer.ControlRequest("stop", "", Some(clientId)))
      ensures old(isActive) ==> eventSource == null
      ensures old(isActive) && old(eventSource) != null ==> old(eventSource).closed
      ensures old(isActive) ==> isActive == outcome.Rejected?
    {
      if !isActive {
        return None;
      }
      if eventSource != null {
        eventSource.Close();
        eventSource := null;
      }
      // The stop body carries no rootPath; the server ignores it for stop.
      sent := Some(WatchServer.ControlRequest("stop", "", Some(clientId)));
      if !outcome.Rejected? {
        isActive := false;
      }
    }

    /** `onmessage` for this watcher's root. */
    function Message(data: string): MessageOutcome
    {
      OnMessage(rootPath, data)
    }
  }
}
