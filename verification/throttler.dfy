/**
 * The trailing-edge throttle of logger/throttler.go as an event-driven state machine.
 *
 * The mutex, the `time.Timer` and the goroutine spawned by a leading `Trigger` are
 * replaced by a discrete state and four events:
 *   - `Trigger(f)`: one call of `Throttler.Trigger`, atomic under the mutex;
 *   - `FireRun`: the goroutine takes the timer branch of its `select` and runs
 *     `doNextFunc`, which takes and clears the pending slot and runs what it held;
 *   - `FireCheck`: the goroutine re-locks and either closes the window (slot still
 *     empty) or resets the timer (a trigger filled the slot in between);
 *   - `Cancel`: the goroutine takes the `ctx.Done()` branch of its `select` and returns.
 * An action is an opaque value of type `A`; the output of a run is the sequence of
 * actions executed, in order.
 */
module Throttler {
  import opened Wrappers

  /** Where the goroutine spawned by the last leading `Trigger` is. */
  datatype Handler =
    | Idle      // no goroutine is running: none was spawned, or it has returned
    | Waiting   // blocked in the `select` on `ctx.Done()` and the timer channel
    | Checking  // `doNextFunc` has returned; about to re-lock and inspect the slot

  /**
   * The throttle's state: `windowOpen` is `timer != nil`, `pending` is the `next`
   * slot, `trail` the configuration flag.
   */
  datatype Throttle<A> = Throttle(trail: bool, windowOpen: bool, pending: Option<A>, handler: Handler)

  datatype Event<A> = Trigger(action: A) | FireRun | FireCheck | Cancel

  /** The state after one event and the actions that event executed. */
  datatype Stepped<A> = Stepped(next: Throttle<A>, ran: seq<A>)

  /**
   * What the goroutine does after the timer was reset. `OneShot` is the code as
   * written: the goroutine has no loop and returns, so nobody receives the timer's
   * next tick. `Rearming` is the evidently intended behaviour: it waits again.
   */
  datatype Handling = OneShot | Rearming

  /** The states reachable from `GetThrottler`. */
  ghost predicate Valid<A>(t: Throttle<A>) {
    && (!t.windowOpen ==> t.handler == Idle && t.pending == None)
    && (!t.trail ==> t.pending == None)
  }

  /** The window is open but no goroutine will ever close it. */
  predicate Stuck<A>(t: Throttle<A>) {
    t.windowOpen && t.handler == Idle
  }

  /** `GetThrottler`: a throttle with no timer, an empty slot and no goroutine. */
  function GetThrottler<A>(trail: bool): (t: Throttle<A>)
    ensures Valid(t) && !Stuck(t)
    ensures t.trail == trail && !t.windowOpen && t.pending == None
  {
    Throttle(trail, false, None, Idle)
  }

  /** `Throttler.Trigger(f)`. */
  function OnTrigger<A>(t: Throttle<A>, f: A): (r: Stepped<A>)
    ensures r.next.trail == t.trail && r.next.windowOpen
    // Leading call: run now, open a window, clear any stale slot, start the goroutine.
    ensures !t.windowOpen ==> r.ran == [f] && r.next.pending == None && r.next.handler == Waiting
    // Inside an open window nothing runs synchronously.
    ensures t.windowOpen ==> r.ran == [] && r.next.handler == t.handler
    ensures t.windowOpen && t.trail ==> r.next.pending == Some(f)
    ensures t.windowOpen && !t.trail ==> r.next.pending == t.pending
  {
    if !t.windowOpen then Stepped(t.(windowOpen := true, pending := None, handler := Waiting), [f])
    else if t.trail then Stepped(t.(pending := Some(f)), [])
    else Stepped(t, [])
  }

  /** The timer branch of the `select` followed by `doNextFunc`. */
  function OnFireRun<A>(t: Throttle<A>): (r: Stepped<A>)
    ensures r.next.trail == t.trail && r.next.windowOpen == t.windowOpen
    // The slot's action runs at most once and the slot is left empty.
    ensures t.handler == Waiting ==> r.ran == OptionToSeq(t.pending) && r.next.pending == None
    ensures t.handler == Waiting ==> r.next.handler == Checking
    // With no goroutine waiting, the timer's tick is lost.
    ensures t.handler != Waiting ==> r == Stepped(t, [])
  {
    if t.handler == Waiting then Stepped(t.(pending := None, handler := Checking), OptionToSeq(t.pending))
    else Stepped(t, [])
  }

  /** The re-lock after `doNextFunc`: close the window or reset the timer. */
  function OnFireCheck<A>(h: Handling, t: Throttle<A>): (r: Stepped<A>)
    ensures r.ran == [] && r.next.trail == t.trail && r.next.pending == t.pending
    // An empty slot closes the window, so the next trigger leads again.
    ensures t.handler == Checking && t.pending == None ==> !r.next.windowOpen && r.next.handler == Idle
    // A filled slot resets the timer; as written, the goroutine then returns.
    ensures t.handler == Checking && t.pending.Some? ==> r.next.windowOpen == t.windowOpen
    ensures t.handler == Checking && t.pending.Some? && h == OneShot ==> r.next.handler == Idle
    ensures t.handler == Checking && t.pending.Some? && h == Rearming ==> r.next.handler == Waiting
    ensures t.handler != Checking ==> r.next == t
  {
    if t.handler != Checking then Stepped(t, [])
    else if t.pending == None then Stepped(t.(windowOpen := false, handler := Idle), [])
    else if h == OneShot then Stepped(t.(handler := Idle), [])
    else Stepped(t.(handler := Waiting), [])
  }

  /** The `ctx.Done()` branch of the `select`: return without touching slot or timer. */
  function OnCancel<A>(t: Throttle<A>): (r: Stepped<A>)
    ensures r.ran == [] && r.next.windowOpen == t.windowOpen && r.next.pending == t.pending
    ensures t.handler == Waiting ==> r.next.handler == Idle
    ensures t.handler != Waiting ==> r.next == t
  {
    if t.handler == Waiting then Stepped(t.(handler := Idle), []) else Stepped(t, [])
  }

  function Step<A>(h: Handling, t: Throttle<A>, e: Event<A>): (r: Stepped<A>)
    ensures Valid(t) ==> Valid(r.next)
    ensures |r.ran| <= 1 && r.next.trail == t.trail
  {
    match e
    case Trigger(f) => OnTrigger(t, f)
    case FireRun => OnFireRun(t)
    case FireCheck => OnFireCheck(h, t)
    case Cancel => OnCancel(t)
  }

  /** The final state and all actions executed, in order, by a sequence of events. */
  function Run<A>(h: Handling, t: Throttle<A>, evs: seq<Event<A>>): Stepped<A>
    decreases |evs|
  {
    if evs == [] then Stepped(t, [])
    else
      var s := Step(h, t, evs[0]);
      var rest := Run(h, s.next, evs[1..]);
      Stepped(rest.next, s.ran + rest.ran)
  }

  /** The actions handed to `Trigger`, in order. */
  function Triggered<A>(evs: seq<Event<A>>): seq<A>
    decreases |evs|
  {
    if evs == [] then []
    else (if evs[0].Trigger? then [evs[0].action] else []) + Triggered(evs[1..])
  }

  /** Running two event sequences one after the other is running their concatenation. */
  lemma {:induction false} RunAppend<A>(h: Handling, t: Throttle<A>, a: seq<Event<A>>, b: seq<Event<A>>)
    ensures Run(h, t, a + b).next == Run(h, Run(h, t, a).next, b).next
    ensures Run(h, t, a + b).ran == Run(h, t, a).ran + Run(h, Run(h, t, a).next, b).ran
    decreases |a|
  {
    if a == [] {
      assert a + b == b;
    } else {
      assert (a + b)[0] == a[0];
      assert (a + b)[1..] == a[1..] + b;
      RunCons(h, t, a);
      RunCons(h, t, a + b);
      RunAppend(h, Step(h, t, a[0]).next, a[1..], b);
    }
  }

  /** Every reachable state stays reachable. */
  lemma {:induction false} RunKeepsValid<A>(h: Handling, t: Throttle<A>, evs: seq<Event<A>>)
    requires Valid(t)
    ensures Valid(Run(h, t, evs).next) && Run(h, t, evs).next.trail == t.trail
    decreases |evs|
  {
    if evs != [] {
      RunKeepsValid(h, Step(h, t, evs[0]).next, evs[1..]);
    }
  }

  /** One event runs at most what was pending plus what it triggers, and keeps the rest pending. */
  lemma StepRunsEachTriggerAtMostOnce<A>(h: Handling, t: Throttle<A>, e: Event<A>)
    ensures var s := Step(h, t, e);
      multiset(s.ran) + multiset(OptionToSeq(s.next.pending))
        <= multiset(OptionToSeq(t.pending)) + multiset(Triggered([e]))
  {
    assert [e][1..] == [];
    match e
    case Trigger(f) =>
      assert Triggered([e]) == [f];
    case FireRun =>
    case FireCheck =>
    case Cancel =>
  }

  /** Chains the bound of one step with the bound of the rest of a run. */
  lemma BoundChain<T>(ran: seq<T>, ranRest: seq<T>, pendAfter: multiset<T>, pendMid: multiset<T>,
                      pendBefore: multiset<T>, trig: seq<T>, trigRest: seq<T>)
    requires multiset(ranRest) + pendAfter <= pendMid + multiset(trigRest)
    requires multiset(ran) + pendMid <= pendBefore + multiset(trig)
    ensures multiset(ran + ranRest) + pendAfter <= pendBefore + multiset(trig + trigRest)
  {
    assert multiset(ran + ranRest) == multiset(ran) + multiset(ranRest);
    assert multiset(trig + trigRest) == multiset(trig) + multiset(trigRest);
    forall x ensures (multiset(ran) + multiset(ranRest) + pendAfter)[x]
                     <= (pendBefore + multiset(trig) + multiset(trigRest))[x] {
      assert (multiset(ranRest) + pendAfter)[x] <= (pendMid + multiset(trigRest))[x];
      assert (multiset(ran) + pendMid)[x] <= (pendBefore + multiset(trig))[x];
    }
  }

  /** The first event of a run, then the rest. */
  lemma RunCons<A>(h: Handling, t: Throttle<A>, evs: seq<Event<A>>)
    requires evs != []
    ensures var s := Step(h, t, evs[0]);
      && Run(h, t, evs).ran == s.ran + Run(h, s.next, evs[1..]).ran
      && Run(h, t, evs).next == Run(h, s.next, evs[1..]).next
  {
  }

  /** The action triggered by the first event, then those of the rest. */
  lemma TriggeredCons<A>(evs: seq<Event<A>>)
    requires evs != []
    ensures Triggered(evs) == Triggered([evs[0]]) + Triggered(evs[1..])
  {
    assert [evs[0]][1..] == [];
  }

  /**
   * Each triggered action runs at most once: what ran plus what is still pending is
   * contained in what was pending plus what was triggered.
   */
  lemma {:induction false} RunRunsEachTriggerAtMostOnce<A>(h: Handling, t: Throttle<A>, evs: seq<Event<A>>)
    ensures var r := Run(h, t, evs);
      multiset(r.ran) + multiset(OptionToSeq(r.next.pending))
        <= multiset(OptionToSeq(t.pending)) + multiset(Triggered(evs))
    decreases |evs|
  {
    if evs != [] {
      var s := Step(h, t, evs[0]);
      var rest := Run(h, s.next, evs[1..]);
      RunCons(h, t, evs);
      TriggeredCons(evs);
      StepRunsEachTriggerAtMostOnce(h, t, evs[0]);
      RunRunsEachTriggerAtMostOnce(h, s.next, evs[1..]);
      BoundChain(s.ran, rest.ran, multiset(OptionToSeq(rest.next.pending)),
        multiset(OptionToSeq(s.next.pending)), multiset(OptionToSeq(t.pending)),
        Triggered([evs[0]]), Triggered(evs[1..]));
    }
  }

  /** Counting version: executions plus pending never exceed pending plus triggers. */
  lemma {:induction false} RunCountBound<A>(h: Handling, t: Throttle<A>, evs: seq<Event<A>>)
    ensures var r := Run(h, t, evs);
      |r.ran| + |OptionToSeq(r.next.pending)| <= |OptionToSeq(t.pending)| + |Triggered(evs)|
    decreases |evs|
  {
    if evs != [] {
      RunCountBound(h, Step(h, t, evs[0]).next, evs[1..]);
    }
  }

  /** From a fresh throttle, no more actions run than were triggered. */
  lemma RunBoundedByTriggers<A>(h: Handling, trail: bool, evs: seq<Event<A>>)
    ensures |Run(h, GetThrottler<A>(trail), evs).ran| <= |Triggered(evs)|
  {
    RunCountBound(h, GetThrottler<A>(trail), evs);
  }

  /** Once stuck, a one-shot throttle stays stuck and never runs anything again. */
  lemma {:induction false} StuckIsForever<A>(t: Throttle<A>, evs: seq<Event<A>>)
    requires Stuck(t)
    ensures Stuck(Run(OneShot, t, evs).next) && Run(OneShot, t, evs).ran == []
    decreases |evs|
  {
    if evs != [] {
      StuckIsForever(Step(OneShot, t, evs[0]).next, evs[1..]);
    }
  }

  /** Only `Cancel` or the reset branch can strand the window; without trail there is no reset. */
  lemma {:induction false} NoTrailNoCancelNeverStuck<A>(h: Handling, t: Throttle<A>, evs: seq<Event<A>>)
    requires Valid(t) && !t.trail && !Stuck(t)
    requires forall i :: 0 <= i < |evs| ==> !evs[i].Cancel?
    ensures !Stuck(Run(h, t, evs).next)
    decreases |evs|
  {
    if evs != [] {
      assert !evs[0].Cancel?;
      NoTrailNoCancelNeverStuck(h, Step(h, t, evs[0]).next, evs[1..]);
    }
  }

  /** The rearming goroutine never strands the window unless the context is cancelled. */
  lemma {:induction false} RearmingNeverStuckWithoutCancel<A>(t: Throttle<A>, evs: seq<Event<A>>)
    requires Valid(t) && !Stuck(t)
    requires forall i :: 0 <= i < |evs| ==> !evs[i].Cancel?
    ensures !Stuck(Run(Rearming, t, evs).next)
    decreases |evs|
  {
    if evs != [] {
      assert !evs[0].Cancel?;
      RearmingNeverStuckWithoutCancel(Step(Rearming, t, evs[0]).next, evs[1..]);
    }
  }

  /** `Trigger(f)` for each `f`, in order. */
  function Triggers<A>(fs: seq<A>): (evs: seq<Event<A>>)
    ensures |evs| == |fs|
    ensures forall i :: 0 <= i < |fs| ==> evs[i] == Trigger(fs[i])
  {
    if fs == [] then [] else [Trigger(fs[0])] + Triggers(fs[1..])
  }

  /**
   * Triggers inside an open window run nothing; with trail the slot ends up holding
   * the last of them, without trail it is left as it was.
   */
  lemma {:induction false} TriggersInWindow<A>(h: Handling, t: Throttle<A>, fs: seq<A>)
    requires t.windowOpen
    ensures var r := Run(h, t, Triggers(fs));
      && r.ran == []
      && r.next == (if fs != [] && t.trail then t.(pending := Some(fs[|fs| - 1])) else t)
    decreases |fs|
  {
    if fs != [] {
      var evs := Triggers(fs);
      assert evs[0] == Trigger(fs[0]);
      assert evs[1..] == Triggers(fs[1..]);
      TriggersInWindow(h, Step(h, t, evs[0]).next, fs[1..]);
    }
  }

  /** A timer fire: the goroutine runs `doNextFunc` and then re-locks. */
  function Fire<A>(): seq<Event<A>> {
    [FireRun, FireCheck]
  }

  /** A fire on a waiting goroutine runs the slot's action and closes the window. */
  lemma FireClosesWindow<A>(h: Handling, t: Throttle<A>)
    requires t.windowOpen && t.handler == Waiting
    ensures Run(h, t, Fire()) == Stepped(t.(windowOpen := false, pending := None, handler := Idle), OptionToSeq(t.pending))
  {
    var run := Step(h, t, FireRun);
    var check := Step(h, run.next, FireCheck);
    assert Run(h, check.next, []) == Stepped(check.next, []);
    assert Run(h, run.next, [FireCheck]) == Stepped(check.next, []);
  }

  /** A leading trigger, then the rest of a burst inside its window. */
  lemma BurstOpens<A>(h: Handling, trail: bool, fs: seq<A>)
    requires |fs| > 0
    ensures var t1 := Throttle(trail, true, None, Waiting);
      var r := Run(h, GetThrottler<A>(trail), Triggers(fs));
      && r.ran == [fs[0]]
      && r.next == (if |fs| > 1 && trail then t1.(pending := Some(fs[|fs| - 1])) else t1)
  {
    var t0 := GetThrottler<A>(trail);
    var t1 := Throttle(trail, true, None, Waiting);
    assert Triggers(fs) == [Trigger(fs[0])] + Triggers(fs[1..]);
    assert Run(h, t0, [Trigger(fs[0])]) == Stepped(t1, [fs[0]]) by {
      assert Run(h, t1, []) == Stepped(t1, []);
    }
    RunAppend(h, t0, [Trigger(fs[0])], Triggers(fs[1..]));
    TriggersInWindow(h, t1, fs[1..]);
    if |fs| > 1 {
      assert fs[1..][|fs[1..]| - 1] == fs[|fs| - 1];
    }
  }

  /**
   * Without trail, a burst of triggers on a closed window runs exactly the first,
   * and the fire that follows runs nothing and closes the window.
   */
  lemma NoTrailBurst<A>(h: Handling, fs: seq<A>)
    requires |fs| > 0
    ensures var r := Run(h, GetThrottler<A>(false), Triggers(fs) + Fire());
      r.ran == [fs[0]] && r.next == GetThrottler<A>(false)
  {
    var t0 := GetThrottler<A>(false);
    BurstOpens(h, false, fs);
    FireClosesWindow(h, Run(h, t0, Triggers(fs)).next);
    RunAppend(h, t0, Triggers(fs), Fire());
  }

  /**
   * With trail, a burst of triggers on a closed window runs the first at once and,
   * at the fire, the last one (when there were at least two), then closes the window:
   * never more than two executions for one window's burst.
   */
  lemma TrailBurst<A>(h: Handling, fs: seq<A>)
    requires |fs| > 0
    ensures var r := Run(h, GetThrottler<A>(true), Triggers(fs) + Fire());
      && r.ran == [fs[0]] + (if |fs| > 1 then [fs[|fs| - 1]] else [])
      && r.next == GetThrottler<A>(true)
  {
    var t0 := GetThrottler<A>(true);
    BurstOpens(h, true, fs);
    FireClosesWindow(h, Run(h, t0, Triggers(fs)).next);
    RunAppend(h, t0, Triggers(fs), Fire());
  }

  /**
   * The reset branch as written: a trigger landing between `doNextFunc` and the
   * re-lock resets the timer, the goroutine returns, and from then on no trigger
   * ever runs again, whatever happens.
   */
  lemma ResetStrandsWindow<A>(a: A, b: A, later: seq<Event<A>>)
    ensures var r := Run(OneShot, GetThrottler<A>(true), [Trigger(a), FireRun, Trigger(b), FireCheck] + later);
      r.ran == [a] && Stuck(r.next)
  {
    var prefix := [Trigger(a), FireRun, Trigger(b), FireCheck];
    var t0 := GetThrottler<A>(true);
    var t1 := Throttle(true, true, None, Waiting);
    var t2 := t1.(handler := Checking);
    var t3 := t2.(pending := Some(b));
    var t4 := t3.(handler := Idle);
    assert Run(OneShot, t4, []) == Stepped(t4, []);
    assert Run(OneShot, t3, [FireCheck]) == Stepped(t4, []);
    assert Run(OneShot, t2, [Trigger(b), FireCheck]) == Stepped(t4, []);
    assert Run(OneShot, t1, [FireRun, Trigger(b), FireCheck]) == Stepped(t4, []);
    var mid := Run(OneShot, t0, prefix);
    assert mid.ran == [a] && Stuck(mid.next);
    RunAppend(OneShot, t0, prefix, later);
    StuckIsForever(mid.next, later);
  }

  /**
   * The same interleaving with a rearming goroutine: the trailing action `b` runs at
   * the next fire, and the window then closes.
   */
  lemma ResetRearms<A>(a: A, b: A)
    ensures var r := Run(Rearming, GetThrottler<A>(true), [Trigger(a), FireRun, Trigger(b), FireCheck] + Fire());
      r.ran == [a, b] && r.next == GetThrottler<A>(true)
  {
    var evs := [Trigger(a), FireRun, Trigger(b), FireCheck] + Fire();
    var t0 := GetThrottler<A>(true);
    var t1 := Throttle(true, true, None, Waiting);
    var t2 := t1.(handler := Checking);
    var t3 := t2.(pending := Some(b));
    var t4 := t3.(handler := Waiting);
    var t5 := t1.(handler := Checking);
    assert Run(Rearming, t0, []) == Stepped(t0, []);
    assert Run(Rearming, t5, [FireCheck]) == Stepped(t0, []);
    assert Run(Rearming, t4, [FireRun, FireCheck]) == Stepped(t0, [b]);
    assert Run(Rearming, t3, [FireCheck, FireRun, FireCheck]) == Stepped(t0, [b]);
    assert Run(Rearming, t2, [Trigger(b), FireCheck, FireRun, FireCheck]) == Stepped(t0, [b]);
    assert Run(Rearming, t1, [FireRun, Trigger(b), FireCheck, FireRun, FireCheck]) == Stepped(t0, [b]);
    assert evs == [Trigger(a), FireRun, Trigger(b), FireCheck, FireRun, FireCheck];
  }

  /** One step of the throttle tests: a `Trigger` call, or a sleep spanning one fire. */
  datatype TestStep = Call | Sleep

  /** The effect of one test step: a `Trigger` of action 0, or one fire. */
  function Observe(h: Handling, t: Throttle<nat>, step: TestStep): Stepped<nat> {
    if step == Call then OnTrigger(t, 0)
    else
      var run := OnFireRun(t);
      var check := OnFireCheck(h, run.next);
      Stepped(check.next, run.ran + check.ran)
  }

  /** The execution count observed after each test step, starting from `count`. */
  function Counts(h: Handling, t: Throttle<nat>, steps: seq<TestStep>, count: nat): seq<nat>
    decreases |steps|
  {
    if steps == [] then []
    else
      var r := Observe(h, t, steps[0]);
      var c := count + |r.ran|;
      [c] + Counts(h, r.next, steps[1..], c)
  }

  /** Two calls and a sleep, as each half of both throttle tests does. */
  function TestWindow(): seq<TestStep> {
    [Call, Call, Sleep]
  }

  /** The scenario of both throttle tests: two calls, a sleep, two calls, a sleep. */
  function TestScenario(): seq<TestStep> {
    TestWindow() + TestWindow()
  }

  /** The three test steps of one window, from a fresh throttle. */
  lemma ObserveWindow(h: Handling, trail: bool)
    ensures var t0 := GetThrottler<nat>(trail);
      var t1 := Throttle(trail, true, None, Waiting);
      var t2 := if trail then t1.(pending := Some(0)) else t1;
      && Observe(h, t0, Call) == Stepped(t1, [0])
      && Observe(h, t1, Call) == Stepped(t2, [])
      && Observe(h, t2, Sleep) == Stepped(t0, if trail then [0] else [])
  {
  }

  /** Unfolds `Counts` once. */
  lemma CountsCons(h: Handling, t: Throttle<nat>, steps: seq<TestStep>, c: nat)
    requires steps != []
    ensures var r := Observe(h, t, steps[0]);
      Counts(h, t, steps, c) == [c + |r.ran|] + Counts(h, r.next, steps[1..], c + |r.ran|)
  {
  }

  /**
   * One test window from a fresh throttle: the counts rise by one, stay, and rise by
   * one more only with trail; the throttle is fresh again for whatever follows.
   * The steps arrive as a parameter `s` pinned by the requires, not as the
   * expression `TestWindow() + rest`: the requires carries no modelling meaning and
   * only keeps the verifier from unfolding `Counts` on a literal sequence, which is
   * very costly.
   */
  lemma WindowCounts(h: Handling, trail: bool, s: seq<TestStep>, rest: seq<TestStep>, c: nat)
    requires s == TestWindow() + rest
    ensures var last := c + (if trail then 2 else 1);
      Counts(h, GetThrottler(trail), s, c)
        == [c + 1, c + 1, last] + Counts(h, GetThrottler(trail), rest, last)
  {
    ObserveWindow(h, trail);
    var t0 := GetThrottler<nat>(trail);
    var t1 := Throttle(trail, true, None, Waiting);
    var t2 := if trail then t1.(pending := Some(0)) else t1;
    assert s[0] == Call && s[1] == Call && s[2] == Sleep;
    CountsCons(h, t2, s[2..], c + 1);
    assert s[2..][1..] == rest;
    CountsCons(h, t1, s[1..], c + 1);
    assert s[1..][1..] == s[2..];
    CountsCons(h, t0, s, c);
  }

  /** A test window with nothing after it; `w` is pinned by the requires as in `WindowCounts`. */
  lemma LastWindowCounts(h: Handling, trail: bool, w: seq<TestStep>, c: nat)
    requires w == TestWindow()
    ensures Counts(h, GetThrottler(trail), w, c) == [c + 1, c + 1, c + (if trail then 2 else 1)]
  {
    var last := c + (if trail then 2 else 1);
    WindowCounts(h, trail, w, [], c);
    assert Counts(h, GetThrottler(trail), [], last) == [];
  }

  /** The arithmetic of two consecutive window counts. */
  lemma TwoWindows(all: seq<nat>, second: seq<nat>, d: nat)
    requires all == [1, 1, d] + second && second == [d + 1, d + 1, d + d]
    ensures all == [1, 1, d, d + 1, d + 1, d + d]
  {
  }

  /**
   * The two windows of the test scenario with trail. The requires only pin `w` and
   * `s` to `TestWindow()` and two copies of it, so that the verifier does not unfold
   * `Counts` on a literal sequence; `ReplayTests` states the fact for the literal.
   */
  lemma ScenarioWithTrail(h: Handling, w: seq<TestStep>, s: seq<TestStep>)
    requires w == TestWindow() && s == w + w
    ensures Counts(h, GetThrottler(true), s, 0) == [1, 1, 2, 3, 3, 4]
  {
    WindowCounts(h, true, s, w, 0);
    LastWindowCounts(h, true, w, 2);
    TwoWindows(Counts(h, GetThrottler(true), s, 0), Counts(h, GetThrottler(true), w, 2), 2);
  }

  /** The two windows of the test scenario without trail, pinned in the same way. */
  lemma ScenarioWithoutTrail(h: Handling, w: seq<TestStep>, s: seq<TestStep>)
    requires w == TestWindow() && s == w + w
    ensures Counts(h, GetThrottler(false), s, 0) == [1, 1, 1, 2, 2, 2]
  {
    WindowCounts(h, false, s, w, 0);
    LastWindowCounts(h, false, w, 1);
    TwoWindows(Counts(h, GetThrottler(false), s, 0), Counts(h, GetThrottler(false), w, 1), 1);
  }

  /**
   * Both throttle tests: two calls, a sleep, two calls, a sleep observe the counts
   * 1, 1, 1, 2, 2, 2 without trail and 1, 1, 2, 3, 3, 4 with trail.
   */
  lemma ReplayTests(h: Handling, trail: bool)
    ensures Counts(h, GetThrottler(trail), TestScenario(), 0)
      == if trail then [1, 1, 2, 3, 3, 4] else [1, 1, 1, 2, 2, 2]
  {
    if trail {
      ScenarioWithTrail(h, TestWindow(), TestScenario());
    } else {
      ScenarioWithoutTrail(h, TestWindow(), TestScenario());
    }
  }
}
