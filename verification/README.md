# go-grpc-echo, modelled in Dafny

go-grpc-echo is an echo service. It serves gRPC and plain HTTP on one socket. It also has a
ping/subscribe client and a small trailing-edge throttle that rate-limits log lines. This
project models the sequential logic inside it. Mutexes, timers and goroutines are abstracted
into discrete events. Every library call becomes an oracle argument.

- `Throttler` (throttler.dfy): `GetThrottler`, `Trigger`, the fire goroutine and
  `doNextFunc`, as a state machine. The state is the window flag (`timer != nil`), the
  pending slot, the trail flag and the goroutine's phase. There are four events. `Trigger(f)`
  is one call of `Trigger`. `FireRun` is the timer branch of the `select` together with
  `doNextFunc`. `FireCheck` is the re-lock that closes the window or resets the timer.
  `Cancel` is the `ctx.Done()` branch. `Run` folds a sequence of events and returns the
  actions that ran, in order.
- `Server` (server.dfy): the `Close`/`init` handle lifecycle, the TLS flag
  and failure order of `Listen`, the `rootMux` classification, the response shapes of `Send`
  and `httpEchoPing`, the subscriber counter, and the tick/cancel loop of `Subscribe`. The
  loop runs over a sequence of observed events.
- `Headers` (headers.dfy): the `key=value` loop of the ping command. Each entry is split at
  its first `=`, which must be at an index greater than 0. Key and value are trimmed and
  appended to a key → values map.
- `Client` (client.dfy): the transport decision of `Ping`, from the certificate path, the
  read and PEM-parse oracles and the skip-verify flag. Also the receive loop of `Subscribe`,
  which ends on cancellation, timeout, EOF or a receive error.
- `Strings` and `Wrappers`: `strings.Index`, `strings.Contains` and `strings.TrimSpace` over
  code points, plus `Option`/`Result`/`Error`.

Three behaviours of the code that the model keeps as they are:

- The goroutine at logger/throttler.go:52-68 has no loop. After `t.timer.Reset` at line 65
  it returns, so nothing receives the timer again and `timer` stays non-nil. The `Reset`
  call shows that another tick was expected (see Findings).
- A key pair that fails to load makes `Listen` return that error (server/server.go:62-65).
  There is no fallback to plain text.
- The Pong sent on each `Subscribe` tick carries only the message and the tick time
  (server/server.go:155-158). Its hostname and header are empty.

## Model

| member | source | states |
|---|---|---|
| Throttler.GetThrottler | logger/throttler.go:20-28 | a new throttle has no timer, an empty slot and no goroutine, and keeps the trail flag |
| Throttler.OnTrigger | logger/throttler.go:45-79 | with no open window the action runs once, at once; the window opens, the slot is cleared and a goroutine waits. Inside a window nothing runs; with trail the slot becomes this action (last write wins); without trail the slot is untouched |
| Throttler.OnFireRun | logger/throttler.go:85-93 | the timer branch (lines 56-57) calls `doNextFunc`: a fire runs the pending action at most once (exactly the slot's content) and leaves the slot empty; with no goroutine waiting the tick is lost |
| Throttler.OnFireCheck | logger/throttler.go:58-66 | an empty slot at the re-check closes the window and ends the goroutine. A filled slot keeps the window open and, as written, still ends the goroutine |
| Throttler.OnCancel | logger/throttler.go:53-55 | cancellation ends the goroutine without running or clearing the slot and without closing the window |
| Throttler.Step | logger/throttler.go:45-93 | every event keeps the reachable-state invariant (closed window ⇒ idle goroutine and empty slot; no trail ⇒ empty slot) and runs at most one action |
| Throttler.RunKeepsValid | logger/throttler.go:45-93 | any event sequence from a reachable state ends in a reachable state with the same trail flag |
| Throttler.RunRunsEachTriggerAtMostOnce | logger/throttler.go:45-93 | the multiset of executed plus still-pending actions is contained in the initially pending plus the triggered ones, so no trigger runs twice |
| Throttler.RunCountBound | logger/throttler.go:45-93 | executions plus pending never exceed initially pending plus triggers |
| Throttler.RunBoundedByTriggers | logger/throttler.go:20-28 | from a fresh throttle, no more actions run than were triggered |
| Throttler.StuckIsForever | logger/throttler.go:52-68 | once the window is open with no goroutine (after the reset branch or Cancel), it stays open and no later event runs anything |
| Throttler.NoTrailNoCancelNeverStuck | logger/throttler.go:58-72 | without trail and without cancellation the window is never stranded: the reset branch is unreachable |
| Throttler.TriggersInWindow | logger/throttler.go:69-73 | triggers inside an open window run nothing; with trail the slot holds the last of them, without trail the state is unchanged |
| Throttler.FireClosesWindow | logger/throttler.go:56-63 | a fire on a waiting goroutine runs exactly the slot's action, empties the slot, closes the window and ends the goroutine, with either goroutine |
| Throttler.BurstOpens | logger/throttler.go:45-73 | a burst on a closed window runs only its first trigger at once and leaves the window open with a waiting goroutine; with trail the slot holds the last later trigger |
| Throttler.NoTrailBurst | logger/throttler_test.go:25-45 | without trail, a burst of triggers on a closed window runs exactly the first; the fire then runs nothing and closes the window |
| Throttler.TrailBurst | logger/throttler_test.go:60-80 | with trail, a burst runs the first at once and the last at the fire (at most two executions per window), and the window then closes |
| Throttler.ResetStrandsWindow | logger/throttler.go:58-66 | as written, a trigger between `doNextFunc` and the re-lock resets the timer, and no trigger after it ever runs |
| Throttler.ResetRearms | logger/throttler.go:58-66 | with a rearming goroutine, the same interleaving runs the trailing action at the next fire and then closes the window |
| Throttler.RearmingNeverStuckWithoutCancel | logger/throttler.go:52-68 | with a rearming goroutine, only cancellation can strand the window |
| Throttler.ReplayTests | logger/throttler_test.go:13-80 | both throttle tests, replayed on the model with either goroutine: trigger, trigger, sleep, trigger, trigger, sleep gives the counts 1, 1, 1, 2, 2, 2 without trail and 1, 1, 2, 3, 3, 4 with trail |
| Throttler.WindowCounts | logger/throttler_test.go:25-44 | one window of two calls and a sleep from a fresh throttle raises the count by one, keeps it, raises it again only with trail, and leaves a fresh throttle for the next window |
| Server.Close | server/server.go:97-107 | after Close both handles are nil; only a live HTTP server's close error is returned; Close on a closed server changes nothing and returns nil |
| Server.CloseTwice | server/server.go:97-107 | a second Close is a no-op returning nil, whatever the first one returned |
| Server.Init | server/server.go:33-45 | init closes first and returns a close error before touching the hostname; a non-empty hostname is kept; an empty one takes `os.Hostname()`'s name and error |
| Server.Listen | server/server.go:48-70 | init errors and key-pair errors (the latter only when TLS is wanted) are returned with no engine installed; on success both engines are up and TLS is on iff both paths are non-empty (the test `UseTls` of line 61) |
| Server.ListenAgain | server/server.go:33-70 | listening again on the server a successful `Listen` left, with a clean close and the same hostname and key-pair outcomes, gives the same server and result |
| Server.Classify | server/server.go:76-82 | a request goes to gRPC iff its major version is 2 and its Content-Type contains "application/grpc" somewhere; all else goes to the plain handler |
| Server.HeaderGet | server/server.go:77 | the Content-Type that is read is the first value stored under the key, or "" when the key is missing or has no values |
| Server.Http1IsPlain | server/server.go:77 | a request whose major version is not 2 is always plain |
| Server.GrpcPrefixedIsGrpc | server/server.go:77 | an HTTP/2 request whose Content-Type starts with "application/grpc" goes to gRPC |
| Server.Send | server/server.go:125-141 | Send never fails. Its Pong echoes the message, the time and the hostname; the header is the metadata JSON, or "" with no metadata or a failed marshal |
| Server.HttpEchoPing | server/server.go:109-122 | the plain reply has status 200, an empty message, the hostname, the header JSON or "", and a body equal to the Pong's rendering plus a newline |
| Server.EchoMatchesSend | server/server.go:109-141 | the plain handler's Pong is the one `Send` builds for an empty message whose metadata JSON is the request headers' JSON |
| Server.ChangeSubscriberCount | server/server.go:167-168 | the counter moves by exactly the delta and nothing else changes |
| Server.FirstStop | server/server.go:151-163 | the loop stops at the first failed send or cancellation: that event is a stopping one and every earlier event is a successful tick |
| Server.Subscribe | server/server.go:144-165 | one Pong (message and tick time) is handed to `stream.Send` per tick, the failing one included; the first send error or the context's error is returned; the counter is up by one while streaming and back to its start on every return |
| Headers.Append | cmd/ping/module.go:68 | appending adds the key and extends its values by one at the end, leaving other keys alone |
| Headers.ParseEntry | cmd/ping/module.go:64-68 | an entry is accepted iff it has an '=' and does not start with one; key and value are the trimmed text before and after the first '=' |
| Headers.EntryRoundTrip | cmd/ping/module.go:64-67 | splitting `key=value` with a non-empty key free of '=' gives back the trimmed key and the trimmed value, later '=' included |
| Headers.BlankKeyAccepted | cmd/ping/module.go:64-66 | " =v" is accepted with an empty key, because the index test runs before trimming |
| Headers.ParseHeaders | cmd/ping/module.go:62-70 | the map holds exactly the keys of accepted entries, each with its values in input order; skipped entries contribute nothing; each pass of the loop body (lines 64-69) is `AddEntry` of `ParseEntry` |
| Strings.IndexOf | cmd/ping/module.go:64 | the result is -1 iff the character is absent, else the position of its first occurrence |
| Strings.Contains | server/server.go:77 | true iff the pattern occurs at some position |
| Strings.TrimSpace | cmd/ping/module.go:66-67 | the result is a slice `s[a..b]` of the input with only white space before `a` and after `b`; it has no leading or trailing white space and is empty iff the input is all white space |
| Strings.TrimLeft | cmd/ping/module.go:66-67 | the result is a suffix of the input, everything removed is white space, it does not start with white space, and it is empty iff the input is all white space |
| Strings.TrimRight | cmd/ping/module.go:66-67 | the result is a prefix of the input, everything removed is white space, it does not end with white space, and it is empty iff the input is all white space |
| Client.ChooseTransport | client/client.go:21-43 | an unreadable certificate is the error; a parsed one gives TLS with that pool and the skip flag; without a usable certificate, skip alone gives skip-only TLS, else plain text; agrees with the decision table |
| Client.Ping | client/client.go:20-62 | a read error is returned before dialling; dial and send errors are returned; on success the request, metadata and reply pass through and the logged tls flag equals "a TLS config was built" |
| Client.FirstExit | client/client.go:85-103 | the loop ends at the first pass where a context or the timer has fired or `Recv` returned no Pong; every earlier pass received one |
| Client.Subscribe | client/client.go:65-105 | dials without TLS; returns nil when a context or the timer has fired before a Recv or when Recv returns EOF; any other Recv error is returned unchanged; earlier replies are received in order |

## Findings

| source | as written | input that shows it | evidently intended | confidence | as-written member | corrected member |
|---|---|---|---|---|---|---|
| logger/throttler.go:52-68 | after `t.timer.Reset` the goroutine falls out of its `select` and returns; nothing receives the timer again, `timer` stays non-nil | trail = true: `Trigger(a)`, timer fires and `doNextFunc` runs, `Trigger(b)` before the re-lock, re-lock; every later `Trigger` is never run and `b` never runs | loop back to the `select`, so the pending action runs at the next tick and the window eventually closes | high, not executed | Throttler.ResetStrandsWindow | Throttler.RearmingNeverStuckWithoutCancel |

The `Handling` parameter of `Throttler.Step` and `Throttler.Run` selects the as-written
goroutine (`OneShot`) or the corrected one (`Rearming`). The general lemmas hold for both.

## Left out

- Real time: window durations, the 1-second server ticker, the client's subscription duration and `time.Now().Unix()`. Time only appears as events (fire, tick, timer fired) and timestamp arguments.
- Concurrency: the mutex, goroutine scheduling and atomic counters. `Trigger` is one atomic step. The goroutine's fire is split into two events so that a trigger can land between them.
- Throttler.OnTrigger: the leading action is recorded as run at the `Trigger` step. Go runs it after unlocking, so its order relative to a concurrent fire is not modelled.
- `SetContext`, `DefaultThrottler` and `TrottlePrintf`: they only wire a context and a 5-second default throttle with trail on to the logger. `GetThrottler(true)` is that throttle.
- The server's `throttleLog` and `throttleInstance` use the external go-throttle library, whose code is not part of this model. The subscriber log line they gate is not modelled.
- Server.ChangeSubscriberCount: a sequential integer stands in for the atomic counter. Concurrent subscriptions interleaving their ±1 steps are not modelled.
- `ListenAndServe(TLS)`, h2c, `grpc.NewServer`, `ServeHTTP`, TLS handshakes and key-pair loading are library code. `Listen` stops where it would block serving, and loading is an oracle error. The error `Listen` returns after `Close` (`http.ErrServerClosed`) comes from the library.
- `json.Marshal` of headers and metadata, `pb.Pong.String()` and `os.Hostname()` are oracle arguments.
- `http.Header.Get` key canonicalisation and `metadata.MD.Append` key lower-casing are library behaviour. Maps are keyed by the given strings.
- Server.HttpEchoPing: marshal and write errors are only traced in the source. The model ignores a write error and uses "" for a failed marshal.
- Client dialling, the `Send`/`Subscribe` RPCs and `CloseSend` are oracle results. The request message of the client `Subscribe` is not tracked.
- Strings: Go strings are bytes. The model works on code points of valid UTF-8 text.
- Logging: every `Printf` and format string.
- CLI wiring: cmd/server/module.go, cmd/subscribe/module.go (its duration parsing, errgroup fan-out and client-side counter) and main.go.
