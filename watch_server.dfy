/** The watch relay's server side: a module-level registry from client id
    to watch handle, the start/stop control endpoint, the stream endpoint,
    and the Server-Sent-Events framing of each watcher event. */
module WatchServer {

  import opened Common
  import Json

  /** `clientId` as the JSON control body carries it: `None` is `undefined`,
      which a JavaScript `Map` accepts as a key like any other. */
  type ClientKey = Option<string>

  /** A raw event of the recursive watcher. */
  datatype WatchEvent =
    | Add(path: string)
    | Change(path: string)
    | Unlink(path: string)
    | AddDir(path: string)
    | UnlinkDir(path: string)
    | WatchError(message: string)

  /** The event name the watcher emits, which is also the `type` the
      relay forwards. */
  function Tag(ev: WatchEvent): string
  {
    match ev
    case Add(_) => "add"
    case Change(_) => "change"
    case Unlink(_) => "unlink"
    case AddDir(_) => "addDir"
    case UnlinkDir(_) => "unlinkDir"
    case WatchError(_) => "error"
  }

  /** The object `sendEvent` is called with for each event. */
  function Payload(ev: WatchEvent): (r: Json.Fields)
    ensures |r| == 2 && r[0] == ("type", Tag(ev))
    ensures !ev.WatchError? ==> r[1] == ("path", ev.path)
    ensures ev.WatchError? ==> r[1] == ("error", ev.message)
  {
    if ev.WatchError? then [("type", "error"), ("error", ev.message)]
    else [("type", Tag(ev)), ("path", ev.path)]
  }

  /** The text `sendEvent` enqueues on the stream: one SSE `data` field and
      the blank line that ends the event. */
  function Frame(ev: WatchEvent): string
  {
    "data: " + Json.Stringify(Payload(ev)) + "\n\n"
  }

  /** The headers of the stream response. */
  const StreamHeaders: seq<(string, string)> := [
    ("Content-Type", "text/event-stream"),
    ("Cache-Control", "no-cache"),
    ("Connection", "keep-alive"),
    ("Access-Control-Allow-Origin", "*"),
    ("Access-Control-Allow-Headers", "Cache-Control")
  ]

  /** The body of a control request. */
  datatype ControlRequest = ControlRequest(action: string, rootPath: string, clientId: ClientKey)

  datatype ControlReply =
    | Success        // 200 {success: true}
    | InvalidAction  // 400 {error: 'Invalid action'}

  datatype StreamReply =
    | NoActiveWatcher                                // 404 {error: 'No active watcher'}
    | EventStream(headers: seq<(string, string)>)    // 200, a text/event-stream

  /** A recursive watch handle on `rootPath`. `streams` counts the stream
      requests that attached their listeners to it. */
  class WatchHandle {
    const rootPath: string
    ghost const owner: ClientKey
    var closed: bool
    var streams: nat

    constructor (rootPath: string, ghost owner: ClientKey)
      ensures this.rootPath == rootPath && this.owner == owner
      ensures !closed && streams == 0
    {
      this.rootPath := rootPath;
      this.owner := owner;
      closed := false;
      streams := 0;
    }

    method Close()
      modifies this
      ensures closed && streams == old(streams)
    {
      closed := true;
    }

    /** The frames one watcher event puts on the wire: one per attached
        stream, and none at all once the handle is closed. */
    function Deliver(ev: WatchEvent): (r: seq<string>)
      reads this
      ensures |r| == (if closed then 0 else streams)
      ensures forall i :: 0 <= i < |r| ==> r[i] == Frame(ev)
    {
      if closed then [] else Copies(Frame(ev), streams)
    }
  }

  function Copies(s: string, n: nat): (r: seq<string>)
    ensures |r| == n && forall i :: 0 <= i < n ==> r[i] == s
  {
    if n == 0 then [] else Copies(s, n - 1) + [s]
  }

  /** The module-level `watchers` map. `created` records every handle any
      start request ever made. */
  class Registry {
    var watchers: map<ClientKey, WatchHandle>
    ghost var created: set<WatchHandle>

    /** Every registered handle is open and registered under its own id;
        every handle ever created is either the current one for its id or
        closed. */
    ghost predicate Valid()
      reads this, created
    {
      && (forall k :: k in watchers ==>
            watchers[k] in created && !watchers[k].closed && watchers[k].owner == k)
      && (forall h :: h in created ==>
            h.closed || (h.owner in watchers && watchers[h.owner] == h))
    }

    constructor ()
      ensures Valid() && watchers == map[] && created == {}
    {
      watchers := map[];
      created := {};
    }

    /** No client id ever has two live handles. */
    lemma AtMostOneLive(h1: WatchHandle, h2: WatchHandle)
      requires Valid()
      requires h1 in created && h2 in created && !h1.closed && !h2.closed
      requires h1.owner == h2.owner
      ensures h1 == h2
    {
    }

    /** `POST`: `start` closes the handle registered for the id, if any, and
        registers a new one; `stop` closes and removes it, and is a no-op for
        an unknown id; any other action is refused. */
    method Post(req: ControlRequest) returns (reply: ControlReply)
      requires Valid()
      modifies this, watchers.Values
      ensures Valid()
      ensures reply == (if req.action == "start" || req.action == "stop" then Success else InvalidAction)
      ensures req.action == "start" ==>
        && req.clientId in watchers
        && fresh(watchers[req.clientId])
        && watchers[req.clientId].rootPath == req.rootPath
        && watchers[req.clientId].streams == 0
        && watchers.Keys == old(watchers.Keys) + {req.clientId}
        && created == old(created) + {watchers[req.clientId]}
        && (req.clientId in old(watchers) ==> old(watchers[req.clientId]).closed)
      ensures req.action == "stop" ==>
        && watchers == old(watchers) - {req.clientId}
        && created == old(created)
        && (req.clientId in old(watchers) ==> old(watchers[req.clientId]).closed)
      ensures req.action != "start" && req.action != "stop" ==>
        watchers == old(watchers) && created == old(created)
      // the entries of all other ids are untouched
      ensures forall k :: k in old(watchers) && k != req.clientId ==>
        k in watchers && watchers[k] == old(watchers[k])
      // no handle but the replaced or stopped one changes
      ensures forall h :: h in old(created) ==>
        h.streams == old(h.streams) &&
        (h.closed == old(h.closed) || (req.clientId in old(watchers) && h == old(watchers[req.clientId])))
    {
      var c := req.clientId;
      if req.action == "start" {
        if c in watchers {
          watchers[c].Close();
        }
        var h := new WatchHandle(req.rootPath, c);
        watchers := watchers[c := h];
        created := created + {h};
        reply := Success;
      } else if req.action == "stop" {
        if c in watchers {
          watchers[c].Close();
          watchers := watchers - {c};
        }
        reply := Success;
      } else {
        reply := InvalidAction;
      }
    }

    /** `GET`: a stream request names a registered, non-empty client id, or
        is answered 404 without touching any handle. */
    method Get(clientId: Option<string>) returns (reply: StreamReply)
      requires Valid()
      modifies watchers.Values
      ensures Valid()
      ensures reply.EventStream? <==> clientId.Some? && clientId.value != "" && clientId in watchers
      ensures reply.EventStream? ==> reply.headers == StreamHeaders
      ensures reply.EventStream? ==> watchers[clientId].streams == old(watchers[clientId].streams) + 1
      ensures forall h :: h in created ==> h.closed == old(h.closed)
      ensures forall h :: h in created && (reply.NoActiveWatcher? || h != watchers[clientId]) ==>
        h.streams == old(h.streams)
    {
      if clientId.None? || clientId.value == "" || clientId !in watchers {
        return NoActiveWatcher;
      }
      var h := watchers[clientId];
      h.streams := h.streams + 1;
      reply := EventStream(StreamHeaders);
    }
  }

  /** Stopping twice is the same as stopping once. */
  method StopTwice(r: Registry, c: ClientKey)
    requires r.Valid()
    modifies r, r.watchers.Values
    ensures r.Valid()
    ensures r.watchers == old(r.watchers) - {c}
  {
    var first := r.Post(ControlRequest("stop", "", c));
    ghost var between := r.watchers;
    var second := r.Post(ControlRequest("stop", "", c));
    assert r.watchers == between;
  }
}
