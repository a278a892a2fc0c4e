/**
 * The echo server of server/server.go: the handle lifecycle (`init`, `Close`), the
 * TLS decision and request classification of `Listen`, the response shapes of
 * `Send` and the plain HTTP handler, and the streaming loop of `Subscribe` with its
 * subscriber counter.
 *
 * Library calls are oracles passed in as values: the error of `httpServer.Close()`,
 * the result of `os.Hostname()`, the outcome of loading the TLS key pair, the JSON
 * rendering of headers, `time.Now().Unix()`, `pb.Pong.String()`, and the stream's
 * tick, send and cancellation events.
 */
module Server {
  import opened Wrappers
  import Strings

  /** The `pb.Pong` message. */
  datatype Pong = Pong(message: string, timestamp: int, hostname: string, header: string)

  /** The `pb.Ping` message. */
  datatype Ping = Ping(message: string)

  /**
   * The `Server` struct: `grpcUp` is `grpcServer != nil`, `httpUp` is
   * `httpServer != nil`.
   */
  datatype Server = Server(hostname: string, grpcUp: bool, httpUp: bool, subscribers: int)

  /** The zero value `&Server{}`. */
  function NewServer(): Server {
    Server("", false, false, 0)
  }

  /** Both engine handles are released. */
  predicate Closed(s: Server) {
    !s.grpcUp && !s.httpUp
  }

  /** A server state together with the error an operation returned (`None` is nil). */
  datatype Outcome = Outcome(server: Server, err: Option<Error>)

  /**
   * `Server.Close`: stop the gRPC engine and close the HTTP server, dropping both
   * handles. `httpCloseErr` is what `httpServer.Close()` returns.
   */
  function Close(s: Server, httpCloseErr: Option<Error>): (r: Outcome)
    ensures Closed(r.server)
    ensures r.server.hostname == s.hostname && r.server.subscribers == s.subscribers
    // Only closing a live HTTP server can fail, and it fails with that server's error.
    ensures r.err == (if s.httpUp then httpCloseErr else None)
    // On a closed server, Close changes nothing and returns nil.
    ensures Closed(s) ==> r == Outcome(s, None)
  {
    var afterGrpc := if s.grpcUp then s.(grpcUp := false) else s;
    if afterGrpc.httpUp then Outcome(afterGrpc.(httpUp := false), httpCloseErr)
    else Outcome(afterGrpc, None)
  }

  /** A second `Close` is a no-op returning nil, whatever the first one returned. */
  lemma CloseTwice(s: Server, first: Option<Error>, second: Option<Error>)
    ensures Close(Close(s, first).server, second) == Outcome(Close(s, first).server, None)
  {
  }

  /** What `os.Hostname()` returns: a name and an error, both assigned. */
  datatype HostnameResult = HostnameResult(name: string, err: Option<Error>)

  /**
   * `Server.init`: close first and give up on a close error; then fill in the
   * hostname from the operating system only when it is empty.
   */
  function Init(s: Server, httpCloseErr: Option<Error>, os: HostnameResult): (r: Outcome)
    ensures Closed(r.server) && r.server.subscribers == s.subscribers
    // A failed Close is returned before the hostname is looked at.
    ensures Close(s, httpCloseErr).err.Some? ==> r == Close(s, httpCloseErr)
    // A configured hostname is kept and the operating system is not asked.
    ensures s.hostname != "" ==> r.server.hostname == s.hostname && r.err == Close(s, httpCloseErr).err
    // An empty hostname is replaced by whatever os.Hostname() gave, with its error.
    ensures s.hostname == "" && Close(s, httpCloseErr).err.None? ==> r.server.hostname == os.name && r.err == os.err
  {
    var closed := Close(s, httpCloseErr);
    if closed.err.Some? then closed
    else if closed.server.hostname == "" then Outcome(closed.server.(hostname := os.name), os.err)
    else closed
  }

  /** The TLS flag of `Listen`: both the certificate and the key path are given. */
  predicate UseTls(certPath: string, keyPath: string) {
    certPath != "" && keyPath != ""
  }

  /** How a successfully configured listener serves. */
  datatype Serving = Serving(addr: string, tls: bool)

  /** The result of `Listen` up to the point where it blocks in `ListenAndServe(TLS)`. */
  datatype Listening = Listening(server: Server, result: Result<Serving>)

  /**
   * `Server.Listen` up to serving: `init`, then load the key pair only when TLS is
   * wanted, then install both engines. `loadErr` is the error of
   * `credentials.NewServerTLSFromFile`.
   */
  function Listen(s: Server, addr: string, certPath: string, keyPath: string,
                  httpCloseErr: Option<Error>, os: HostnameResult, loadErr: Option<Error>): (r: Listening)
    // An init error is returned with no engine installed.
    ensures Init(s, httpCloseErr, os).err.Some? ==>
      r == Listening(Init(s, httpCloseErr, os).server, Err(Init(s, httpCloseErr, os).err.value))
    // A bad key pair is reported only when TLS was asked for, before any engine exists.
    ensures Init(s, httpCloseErr, os).err.None? && UseTls(certPath, keyPath) && loadErr.Some? ==>
      r == Listening(Init(s, httpCloseErr, os).server, Err(loadErr.value))
    // On success both engines are installed and TLS is on iff both paths were given.
    ensures r.result.Ok? ==> r.server.grpcUp && r.server.httpUp && r.result.value == Serving(addr, UseTls(certPath, keyPath))
    ensures r.result.Ok? <==> Init(s, httpCloseErr, os).err.None? && (UseTls(certPath, keyPath) ==> loadErr.None?)
    ensures r.server.hostname == Init(s, httpCloseErr, os).server.hostname
  {
    var init := Init(s, httpCloseErr, os);
    if init.err.Some? then Listening(init.server, Err(init.err.value))
    else
      var tls := UseTls(certPath, keyPath);
      if tls && loadErr.Some? then Listening(init.server, Err(loadErr.value))
      else Listening(init.server.(grpcUp := true, httpUp := true), Ok(Serving(addr, tls)))
  }

  /**
   * Listening again on the server a successful `Listen` left, with a clean close and
   * the same hostname lookup and key-pair outcome, gives the same server and result:
   * `init` releases both engines and keeps the hostname it found the first time.
   */
  lemma ListenAgain(s: Server, addr: string, certPath: string, keyPath: string,
                    httpCloseErr: Option<Error>, os: HostnameResult, loadErr: Option<Error>)
    requires Listen(s, addr, certPath, keyPath, httpCloseErr, os, loadErr).result.Ok?
    ensures var first := Listen(s, addr, certPath, keyPath, httpCloseErr, os, loadErr);
      Listen(first.server, addr, certPath, keyPath, None, os, loadErr) == first
  {
  }

  /** An incoming HTTP request as the router sees it: headers by canonical name. */
  datatype Request = Request(protoMajor: int, header: map<string, seq<string>>)

  /** `http.Header.Get`: the first value stored under `key`, or "". */
  function HeaderGet(h: map<string, seq<string>>, key: string): (v: string)
    ensures key in h && |h[key]| > 0 ==> v == h[key][0]
    ensures !(key in h && |h[key]| > 0) ==> v == ""
  {
    if key in h && |h[key]| > 0 then h[key][0] else ""
  }

  datatype Route = ToGrpc | ToPlain

  /** The content type of gRPC requests, looked for anywhere in the header value. */
  const GrpcContentType: string := "application/grpc"

  /** The classification in `rootMux`. */
  function Classify(req: Request): (r: Route)
    ensures r == ToGrpc <==>
      req.protoMajor == 2 && exists i :: Strings.OccursAt(HeaderGet(req.header, "Content-Type"), GrpcContentType, i)
  {
    if req.protoMajor == 2 && Strings.Contains(HeaderGet(req.header, "Content-Type"), GrpcContentType) then ToGrpc
    else ToPlain
  }

  /** Any HTTP/1.x request goes to the plain handler, whatever its content type. */
  lemma Http1IsPlain(req: Request)
    requires req.protoMajor != 2
    ensures Classify(req) == ToPlain
  {
  }

  /** An HTTP/2 request whose content type starts with the gRPC type goes to gRPC. */
  lemma GrpcPrefixedIsGrpc(req: Request, suffix: string)
    requires req.protoMajor == 2
    requires HeaderGet(req.header, "Content-Type") == GrpcContentType + suffix
    ensures Classify(req) == ToGrpc
  {
    var ct := HeaderGet(req.header, "Content-Type");
    assert ct[0..|GrpcContentType|] == GrpcContentType;
    assert Strings.OccursAt(ct, GrpcContentType, 0);
  }

  /** What incoming gRPC metadata looks like to `Send`. */
  datatype Incoming =
    | NoMetadata                 // `metadata.FromIncomingContext` reports none
    | Metadata(json: Option<string>)  // present; its JSON, or None when marshalling failed

  /** `Server.Send`: echo the message, stamp time and hostname, capture the metadata. */
  function Send(s: Server, ping: Ping, incoming: Incoming, now: int): (r: Result<Pong>)
    ensures r.Ok?
    ensures r.value.message == ping.message && r.value.hostname == s.hostname && r.value.timestamp == now
    ensures incoming.Metadata? && incoming.json.Some? ==> r.value.header == incoming.json.value
    ensures incoming.NoMetadata? || incoming.json.None? ==> r.value.header == ""
  {
    var header := match incoming
      case NoMetadata => ""
      case Metadata(json) => if json.Some? then json.value else "";
    Ok(Pong(ping.message, now, s.hostname, header))
  }

  /** What the plain handler writes. */
  datatype PlainReply = PlainReply(status: int, pong: Pong, body: string)

  const StatusOK: int := 200

  /**
   * `Server.httpEchoPing`: the request's headers as JSON (`None` when marshalling
   * failed, which leaves `[]byte(nil)`), no message, and the rendering of the Pong
   * followed by a newline.
   */
  function HttpEchoPing(s: Server, headerJson: Option<string>, now: int, render: Pong -> string): (r: PlainReply)
    ensures r.status == StatusOK
    ensures r.pong.message == "" && r.pong.hostname == s.hostname && r.pong.timestamp == now
    ensures r.pong.header == (if headerJson.Some? then headerJson.value else "")
    ensures r.body == render(r.pong) + "\n"
    ensures |r.body| > 0 && r.body[|r.body| - 1] == '\n'
  {
    var pong := Pong("", now, s.hostname, if headerJson.Some? then headerJson.value else "");
    PlainReply(StatusOK, pong, render(pong) + "\n")
  }

  /**
   * The plain handler answers with the Pong `Send` gives for an empty message whose
   * metadata JSON is the request headers' JSON.
   */
  lemma EchoMatchesSend(s: Server, headerJson: Option<string>, now: int, render: Pong -> string)
    ensures HttpEchoPing(s, headerJson, now, render).pong == Send(s, Ping(""), Metadata(headerJson), now).value
  {
  }

  /** `changeSubscriberCount`: the counter moves by `delta`; its throttled log is not modelled. */
  function ChangeSubscriberCount(s: Server, delta: int): (r: Server)
    ensures r.subscribers - s.subscribers == delta
    ensures r.(subscribers := s.subscribers) == s
  {
    s.(subscribers := s.subscribers + delta)
  }

  /** What the `select` of `Subscribe` can observe. */
  datatype StreamEvent =
    | Tick(timestamp: int, sendErr: Option<Error>)  // a ticker tick, and what `stream.Send` returned
    | Done(ctxErr: Error)                           // `ctx.Done()`, with `ctx.Err()`

  /** An event that makes `Subscribe` return. */
  predicate Stops(e: StreamEvent) {
    e.Done? || e.sendErr.Some?
  }

  /** The error `Subscribe` returns on a stopping event. */
  function StopError(e: StreamEvent): Error
    requires Stops(e)
  {
    if e.Done? then e.ctxErr else e.sendErr.value
  }

  /** The position of the first stopping event, or `|evs|` when there is none. */
  function FirstStop(evs: seq<StreamEvent>): (k: nat)
    ensures k <= |evs|
    ensures k < |evs| ==> Stops(evs[k])
    ensures forall j :: 0 <= j < k ==> !Stops(evs[j])
  {
    if evs == [] then 0
    else if Stops(evs[0]) then 0
    else 1 + FirstStop(evs[1..])
  }

  /**
   * The Pongs handed to `stream.Send` for the ticks among `evs`: the request message
   * and the tick time. A reference definition for the loop of `Subscribe`.
   */
  function TickPongs(ping: Ping, evs: seq<StreamEvent>): (ps: seq<Pong>)
    ensures |ps| <= |evs|
  {
    if evs == [] then []
    else
      var last := evs[|evs| - 1];
      TickPongs(ping, evs[..|evs| - 1])
        + (if last.Tick? then [Pong(ping.message, last.timestamp, "", "")] else [])
  }

  /** Whether `Subscribe` is still looping or has returned (always with a non-nil error). */
  datatype StreamEnd = Streaming | Returned(err: Error)

  /**
   * `Server.Subscribe` over a sequence of observed events. It counts itself in, sends
   * one Pong per tick, and returns on the first send error or on cancellation,
   * counting itself out on every return path. `attempted` holds every Pong passed to
   * `stream.Send`, including the one whose send failed.
   */
  method Subscribe(s: Server, ping: Ping, evs: seq<StreamEvent>) returns (attempted: seq<Pong>, end: StreamEnd, after: Server)
    ensures after.(subscribers := s.subscribers) == s
    ensures FirstStop(evs) == |evs| ==> end == Streaming && attempted == TickPongs(ping, evs) && after.subscribers == s.subscribers + 1
    ensures FirstStop(evs) < |evs| ==>
      && end == Returned(StopError(evs[FirstStop(evs)]))
      && attempted == TickPongs(ping, evs[..FirstStop(evs) + 1])
      && after.subscribers == s.subscribers
  {
    after := ChangeSubscriberCount(s, 1);
    attempted := [];
    end := Streaming;
    var i := 0;
    while i < |evs|
      invariant 0 <= i <= |evs|
      invariant i <= FirstStop(evs)
      invariant attempted == TickPongs(ping, evs[..i])
      invariant after == ChangeSubscriberCount(s, 1) && end == Streaming
    {
      var e := evs[i];
      assert evs[..i + 1][..i] == evs[..i];
      if e.Tick? {
        attempted := attempted + [Pong(ping.message, e.timestamp, "", "")];
        if e.sendErr.Some? {
          after := ChangeSubscriberCount(after, -1);
          end := Returned(e.sendErr.value);
          return;
        }
      } else {
        after := ChangeSubscriberCount(after, -1);
        end := Returned(e.ctxErr);
        return;
      }
      i := i + 1;
    }
    assert evs[..i] == evs;
  }
}
