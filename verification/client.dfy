/**
 * The client side of client/client.go: the transport chosen by `Ping` from the
 * certificate path and the skip-verify flag, and the receive loop of `Subscribe`.
 *
 * Reading the certificate file, parsing its PEM blocks, dialling and the RPCs are
 * oracles passed in as values or total functions.
 */
module Client {
  import opened Wrappers
  import Server

  /** An `x509.CertPool` holding the certificates of one PEM file. */
  datatype CertPool = CertPool(pem: string)

  /** The fields of `tls.Config` that `Ping` sets. */
  datatype TlsConfig = TlsConfig(rootCAs: Option<CertPool>, insecureSkipVerify: bool)

  /** `grpc.WithTransportCredentials(credentials.NewTLS(config))` or `grpc.WithInsecure()`. */
  datatype Transport = Secure(config: TlsConfig) | Insecure

  /**
   * The decision table of `Ping`, one row per outcome: a read error; a parsed
   * certificate; skip-verify only; plain text. `read` and `parses` matter only when
   * a path is given.
   */
  function TransportTable(certPath: string, read: Result<string>, parses: bool, skip: bool): Result<Transport> {
    if certPath != "" && read.Err? then Err(read.error)
    else if certPath != "" && parses then Ok(Secure(TlsConfig(Some(CertPool(read.value)), skip)))
    else if skip then Ok(Secure(TlsConfig(None, true)))
    else Ok(Insecure)
  }

  /**
   * The transport set-up at the top of `Ping`, step by step as the code does it.
   * `readFile` is `ioutil.ReadFile`, `appendPem` is `CertPool.AppendCertsFromPEM`.
   */
  method ChooseTransport(certPath: string, skip: bool, readFile: string -> Result<string>, appendPem: string -> bool)
    returns (r: Result<Transport>)
    ensures r == TransportTable(certPath, readFile(certPath),
                                readFile(certPath).Ok? && appendPem(readFile(certPath).value), skip)
    // An unreadable certificate file is the error.
    ensures certPath != "" && readFile(certPath).Err? ==> r == Err(readFile(certPath).error)
    // A parsed certificate gives a TLS config with that pool and the given flag.
    ensures certPath != "" && readFile(certPath).Ok? && appendPem(readFile(certPath).value) ==>
      r == Ok(Secure(TlsConfig(Some(CertPool(readFile(certPath).value)), skip)))
    // Without a usable certificate, skip-verify alone still gives TLS, else plain text.
    ensures certPath == "" || (readFile(certPath).Ok? && !appendPem(readFile(certPath).value)) ==>
      r == Ok(if skip then Secure(TlsConfig(None, true)) else Insecure)
    ensures r.Err? ==> certPath != ""
  {
    var config: Option<TlsConfig> := None;
    if certPath != "" {
      var file := readFile(certPath);
      if file.Err? {
        return Err(file.error);
      }
      var pool := CertPool(file.value);
      if appendPem(file.value) {
        config := Some(TlsConfig(Some(pool), skip));
      }
    }
    if skip && config.None? {
      config := Some(TlsConfig(None, skip));
    }
    if config.Some? {
      r := Ok(Secure(config.value));
    } else {
      r := Ok(Insecure);
    }
  }

  /** What a successful `Ping` did: the transport, the request, and what it logged. */
  datatype PingReport = PingReport(transport: Transport, request: Server.Ping,
                                   metadata: map<string, seq<string>>, pong: Server.Pong, loggedTls: bool)

  /**
   * `client.Ping`: choose the transport, dial, send the message with the metadata,
   * and log the reply with the tls flag. `dialErr` and `reply` are what `grpc.Dial`
   * and the `Send` RPC return.
   */
  method Ping(message: string, certPath: string, skip: bool, md: map<string, seq<string>>,
              readFile: string -> Result<string>, appendPem: string -> bool,
              dialErr: Option<Error>, reply: Result<Server.Pong>)
    returns (r: Result<PingReport>)
    // A failed certificate read is returned before dialling.
    ensures certPath != "" && readFile(certPath).Err? ==> r == Err(readFile(certPath).error)
    ensures !(certPath != "" && readFile(certPath).Err?) && dialErr.Some? ==> r == Err(dialErr.value)
    ensures !(certPath != "" && readFile(certPath).Err?) && dialErr.None? && reply.Err? ==> r == Err(reply.error)
    ensures r.Ok? <==> !(certPath != "" && readFile(certPath).Err?) && dialErr.None? && reply.Ok?
    // The logged tls flag says whether a TLS config was built.
    ensures r.Ok? ==> r.value.loggedTls == r.value.transport.Secure?
    ensures r.Ok? ==> r.value.request == Server.Ping(message) && r.value.metadata == md && r.value.pong == reply.value
    ensures r.Ok? ==> Ok(r.value.transport) == TransportTable(certPath, readFile(certPath),
                                readFile(certPath).Ok? && appendPem(readFile(certPath).value), skip)
  {
    var transport := ChooseTransport(certPath, skip, readFile, appendPem);
    if transport.Err? {
      return Err(transport.error);
    }
    if dialErr.Some? {
      return Err(dialErr.value);
    }
    if reply.Err? {
      return Err(reply.error);
    }
    r := Ok(PingReport(transport.value, Server.Ping(message), md, reply.value, transport.value.Secure?));
  }

  /** What one `sub.Recv()` returns. */
  datatype Recv = Received(pong: Server.Pong) | Eof | RecvFailed(err: Error)

  /**
   * One pass of the receive loop: which of the caller context, the stream context
   * and the duration timer have fired at the non-blocking `select`, and what `Recv`
   * returns if none has.
   */
  datatype Poll = Poll(ctxDone: bool, streamDone: bool, timerFired: bool, recv: Recv)

  /** A pass that ends the loop. */
  predicate Exits(p: Poll) {
    p.ctxDone || p.streamDone || p.timerFired || !p.recv.Received?
  }

  /** What `Subscribe` returns on an exiting pass: nil except for a non-EOF receive error. */
  function ExitError(p: Poll): Option<Error>
    requires Exits(p)
  {
    if p.ctxDone || p.streamDone || p.timerFired then None
    else if p.recv.Eof? then None
    else Some(p.recv.err)
  }

  /** The first exiting pass, or `|polls|` when there is none. */
  function FirstExit(polls: seq<Poll>): (k: nat)
    ensures k <= |polls|
    ensures k < |polls| ==> Exits(polls[k])
    ensures forall j :: 0 <= j < k ==> !Exits(polls[j])
  {
    if polls == [] then 0
    else if Exits(polls[0]) then 0
    else 1 + FirstExit(polls[1..])
  }

  /** The Pongs received by passes that do not exit, in order. */
  function ReceivedPongs(polls: seq<Poll>): seq<Server.Pong> {
    if polls == [] then []
    else
      var last := polls[|polls| - 1];
      ReceivedPongs(polls[..|polls| - 1]) + (if !Exits(last) then [last.recv.pong] else [])
  }

  datatype LoopEnd = Receiving | Finished(err: Option<Error>)

  /**
   * `client.Subscribe`: dial without TLS, open the stream, then receive until a
   * context or the duration timer fires, or `Recv` fails. `dialErr` and `openErr`
   * are what `grpc.Dial` and the `Subscribe` RPC return.
   */
  method Subscribe(dialErr: Option<Error>, openErr: Option<Error>, polls: seq<Poll>)
    returns (dialled: Transport, received: seq<Server.Pong>, end: LoopEnd)
    ensures dialled == Insecure
    ensures dialErr.Some? ==> end == Finished(dialErr) && received == []
    ensures dialErr.None? && openErr.Some? ==> end == Finished(openErr) && received == []
    ensures dialErr.None? && openErr.None? && FirstExit(polls) == |polls| ==>
      end == Receiving && received == ReceivedPongs(polls)
    ensures dialErr.None? && openErr.None? && FirstExit(polls) < |polls| ==>
      && end == Finished(ExitError(polls[FirstExit(polls)]))
      && received == ReceivedPongs(polls[..FirstExit(polls)])
  {
    dialled := Insecure;
    received := [];
    if dialErr.Some? {
      return dialled, received, Finished(dialErr);
    }
    if openErr.Some? {
      return dialled, received, Finished(openErr);
    }
    end := Receiving;
    var i := 0;
    while i < |polls|
      invariant 0 <= i <= |polls|
      invariant i <= FirstExit(polls)
      invariant received == ReceivedPongs(polls[..i])
      invariant end == Receiving
    {
      var p := polls[i];
      if p.ctxDone || p.streamDone || p.timerFired {
        return dialled, received, Finished(None);
      }
      if p.recv.Eof? {
        return dialled, received, Finished(None);
      }
      if p.recv.RecvFailed? {
        return dialled, received, Finished(Some(p.recv.err));
      }
      assert polls[..i + 1][..i] == polls[..i];
      received := received + [p.recv.pong];
      i := i + 1;
    }
    assert polls[..i] == polls;
  }
}
