/** The login failure limiter: the per-key counter as the code keeps it, and the bound it
    enforces when several attempts of one client overlap. */
module LoginLimiter {
  import opened Basics

  datatype FailCount = FailCount(n: int, first: int)

  // ---- One key, as a value ----

  predicate Elapsed(c: FailCount, window: int, now: int) {
    now - c.first > window
  }

  function Forgotten(fc: Option<FailCount>, window: int, now: int): Option<FailCount> {
    if fc.Some? && Elapsed(fc.value, window, now) then None else fc
  }

  predicate Admits(fc: Option<FailCount>, max: int, window: int, now: int) {
    Forgotten(fc, window, now).None? || fc.value.n < max
  }

  /** `now` is the reading of the elapsed test, `stamp` the one stored in a new counter. */
  function Failed(fc: Option<FailCount>, window: int, now: int, stamp: int): FailCount {
    if Forgotten(fc, window, now).None? then FailCount(1, stamp) else fc.value.(n := fc.value.n + 1)
  }

  class RateLimiter {
    var failures: map<string, FailCount>
    const maxFailures: int
    const window: int

    constructor (max: int, window: int)
      ensures failures == map[] && maxFailures == max && this.window == window
    {
      failures, maxFailures, this.window := map[], max, window;
    }

    function Of(key: string): (fc: Option<FailCount>)
      reads this
    {
      if key in failures then Some(failures[key]) else None
    }

    method Allow(key: string, now: int) returns (ok: bool)
      modifies this
      // denied exactly while a counter that is at most `window` old has reached the maximum
      ensures !ok <==> key in old(failures) && now - old(failures)[key].first <= window && old(failures)[key].n >= maxFailures
      // and only an older counter is dropped
      ensures key in failures <==> key in old(failures) && now - old(failures)[key].first <= window
      ensures key in failures ==> failures[key] == old(failures)[key]
      ensures ok == Admits(old(Of(key)), maxFailures, window, now) && Of(key) == Forgotten(old(Of(key)), window, now)
      ensures forall other :: other != key ==> Of(other) == old(Of(other))
    {
      if key !in failures {
        return true;
      }
      if now - failures[key].first > window {
        failures := failures - {key};
        return true;
      }
      return failures[key].n < maxFailures;
    }

    method Fail(key: string, now: int, stamp: int)
      modifies this
      // counted in the counter that is at most `window` old, or the first of a new one
      ensures key in failures
      ensures key in old(failures) && now - old(failures)[key].first <= window ==>
                failures[key] == FailCount(old(failures)[key].n + 1, old(failures)[key].first)
      ensures key !in old(failures) || now - old(failures)[key].first > window ==> failures[key] == FailCount(1, stamp)
      ensures Of(key) == Some(Failed(old(Of(key)), window, now, stamp))
      ensures forall other :: other != key ==> Of(other) == old(Of(other))
    {
      if key !in failures || now - failures[key].first > window {
        failures := failures[key := FailCount(1, stamp)];
      } else {
        failures := failures[key := failures[key].(n := failures[key].n + 1)];
      }
    }

    method Reset(key: string)
      modifies this
      ensures Of(key) == None
      ensures forall other :: other != key ==> Of(other) == old(Of(other))
    {
      failures := failures - {key};
    }
  }

  // ---- One client key with overlapping login attempts ----

  /** One recorded failure: when it was recorded, the number and the stamp of the counter it went to, and how
      many logins of this key had succeeded before. */
  datatype Failure = Failure(now: int, era: nat, first: int, resets: nat)

  /** `inFlight` counts attempts `allow` admitted that have neither failed, succeeded nor
      given up; `era` numbers the counters created so far, `resets` the successes. */
  datatype State = State(fc: Option<FailCount>, inFlight: nat, era: nat, resets: nat, recorded: seq<Failure>)

  datatype Action =
    | Admit(now: int)            // allow returned true
    | Deny(now: int)             // allow returned false
    | RecordFailure(now: int, stamp: int)
    | Succeed                    // reset, then answer
    | GiveUp                     // malformed body, ambiguous credentials, session or vault error

  predicate Enabled(s: State, max: int, window: int, c: nat, a: Action) {
    match a
    case Admit(now) => Admits(s.fc, max, window, now) && s.inFlight < c
    case Deny(now) => !Admits(s.fc, max, window, now)
    case _ => s.inFlight > 0
  }

  function Step(s: State, max: int, window: int, c: nat, a: Action): State
    requires Enabled(s, max, window, c, a)
  {
    match a
    case Admit(now) => s.(fc := Forgotten(s.fc, window, now), inFlight := s.inFlight + 1)
    case Deny(now) => s.(fc := Forgotten(s.fc, window, now))
    case RecordFailure(now, stamp) =>
      var era := if Forgotten(s.fc, window, now).None? then s.era + 1 else s.era;
      var fc := Failed(s.fc, window, now, stamp);
      s.(fc := Some(fc), inFlight := s.inFlight - 1, era := era, recorded := s.recorded + [Failure(now, era, fc.first, s.resets)])
    case Succeed => s.(fc := None, inFlight := s.inFlight - 1, resets := s.resets + 1)
    case GiveUp => s.(inFlight := s.inFlight - 1)
  }

  const START := State(None, 0, 0, 0, [])

  ghost predicate IsRun(run: seq<State>, acts: seq<Action>, max: int, window: int, c: nat) {
    && |run| == |acts| + 1 && run[0] == START
    && (forall i {:trigger acts[i]} :: 0 <= i < |acts| ==>
          Enabled(run[i], max, window, c, acts[i]) && run[i + 1] == Step(run[i], max, window, c, acts[i]))
  }

  function Count(recorded: seq<Failure>, era: nat): nat {
    if recorded == [] then 0
    else Count(recorded[..|recorded| - 1], era) + if recorded[|recorded| - 1].era == era then 1 else 0
  }

  lemma CountAppend(recorded: seq<Failure>, e: Failure, era: nat)
    ensures Count(recorded + [e], era) == Count(recorded, era) + if e.era == era then 1 else 0
  {
    assert (recorded + [e])[..|recorded|] == recorded;
  }

  /** A counter that admits nothing still admits the attempt that creates it. */
  function Bound(max: int, c: nat): int {
    (if max < 1 then 1 else max) + c - 1
  }

  ghost predicate Inv(s: State, max: int, c: nat) {
    && s.inFlight <= c
    && (s.fc.Some? ==> 1 <= s.fc.value.n && s.fc.value.n + s.inFlight <= Bound(max, c) && Count(s.recorded, s.era) == s.fc.value.n)
    && (forall era :: era > s.era ==> Count(s.recorded, era) == 0)
    && (forall era :: Count(s.recorded, era) <= Bound(max, c))
  }

  lemma StepKeepsInv(s: State, max: int, window: int, c: nat, a: Action)
    requires Inv(s, max, c) && Enabled(s, max, window, c, a)
    ensures Inv(Step(s, max, window, c, a), max, c)
  {
    if a.RecordFailure? {
      var s' := Step(s, max, window, c, a);
      forall era ensures Count(s'.recorded, era) == Count(s.recorded, era) + if s'.era == era then 1 else 0 {
        CountAppend(s.recorded, s'.recorded[|s.recorded|], era);
      }
    }
  }

  lemma {:induction false} RunInv(run: seq<State>, acts: seq<Action>, max: int, window: int, c: nat, n: nat)
    requires IsRun(run, acts, max, window, c) && n < |run|
    ensures Inv(run[n], max, c)
  {
    if n > 0 {
      RunInv(run, acts, max, window, c, n - 1);
      assert run[n] == Step(run[n - 1], max, window, c, acts[n - 1]);
      StepKeepsInv(run[n - 1], max, window, c, acts[n - 1]);
    }
  }

  /** No window ever records more than maxFailures + c - 1 failures, across restarts and resets. */
  lemma WindowIsBounded(run: seq<State>, acts: seq<Action>, max: int, window: int, c: nat, era: nat)
    requires IsRun(run, acts, max, window, c)
    ensures Count(run[|run| - 1].recorded, era) <= Bound(max, c)
  {
    RunInv(run, acts, max, window, c, |run| - 1);
  }

  // ---- Counters and the clock ----

  /** The greatest clock reading of an action, and whether the readings never go back. */
  function Latest(a: Action, clock: int): int {
    match a
    case Admit(now) => now
    case Deny(now) => now
    case RecordFailure(now, stamp) => stamp
    case _ => clock
  }

  predicate Forward(a: Action, clock: int) {
    match a
    case Admit(now) => clock <= now
    case Deny(now) => clock <= now
    case RecordFailure(now, stamp) => clock <= now <= stamp
    case _ => true
  }

  /** The clock after the first `n` actions, starting from `start`. */
  function Clock(acts: seq<Action>, start: int, n: nat): int
    requires n <= |acts|
  {
    if n == 0 then start else Latest(acts[n - 1], Clock(acts, start, n - 1))
  }

  ghost predicate Monotone(acts: seq<Action>, start: int) {
    forall i {:trigger acts[i]} :: 0 <= i < |acts| ==> Forward(acts[i], Clock(acts, start, i))
  }

  /** What a failure and a later one owe each other. */
  ghost predicate SameCounterIffWithin(e: Failure, f: Failure, window: int) {
    f.era == e.era <==> e.resets == f.resets && f.now - e.first <= window
  }

  ghost predicate Timed(s: State, window: int, clock: int) {
    && (forall k :: 0 <= k < |s.recorded| ==>
          && s.recorded[k].resets <= s.resets && s.recorded[k].era <= s.era
          && (s.fc.Some? && s.recorded[k].era == s.era ==> s.recorded[k].first == s.fc.value.first)
          && (s.fc.Some? && s.recorded[k].era == s.era ==> s.recorded[k].resets == s.resets)
          && (s.recorded[k].resets == s.resets && !(s.fc.Some? && s.recorded[k].era == s.era) ==>
                clock - s.recorded[k].first > window))
    && (forall i, j :: 0 <= i < j < |s.recorded| ==> SameCounterIffWithin(s.recorded[i], s.recorded[j], window))
  }

  lemma StepKeepsTimed(s: State, max: int, window: nat, c: nat, a: Action, clock: int)
    requires Timed(s, window, clock) && Enabled(s, max, window, c, a) && Forward(a, clock)
    ensures Timed(Step(s, max, window, c, a), window, Latest(a, clock))
  {
  }

  lemma {:induction false} RunTimed(run: seq<State>, acts: seq<Action>, max: int, window: nat, c: nat, start: int, n: nat)
    requires IsRun(run, acts, max, window, c) && Monotone(acts, start) && n < |run|
    ensures Timed(run[n], window, Clock(acts, start, n))
  {
    if n > 0 {
      RunTimed(run, acts, max, window, c, start, n - 1);
      var s, a, clock := run[n - 1], acts[n - 1], Clock(acts, start, n - 1);
      assert Forward(a, clock) && Enabled(s, max, window, c, a) && run[n] == Step(s, max, window, c, a);
      StepKeepsTimed(s, max, window, c, a, clock);
    }
  }

  /** Two failures go to one counter exactly when no login succeeded between them and the later one is recorded at
      most `window` after that counter's stamp. */
  lemma CounterIsTheWindow(run: seq<State>, acts: seq<Action>, max: int, window: nat, c: nat, start: int, i: nat, j: nat)
    requires IsRun(run, acts, max, window, c) && Monotone(acts, start)
    requires i < j < |run[|run| - 1].recorded|
    ensures
      var recorded := run[|run| - 1].recorded;
      recorded[i].era == recorded[j].era <==> recorded[i].resets == recorded[j].resets && recorded[j].now - recorded[i].first <= window
  {
    RunTimed(run, acts, max, window, c, start, |run| - 1);
    var recorded := run[|run| - 1].recorded;
    assert SameCounterIffWithin(recorded[i], recorded[j], window);
  }

  /** How many failures from position `i` on fall within `window` of the stamp of that failure's counter, without a
      success in between. */
  function CountWithin(recorded: seq<Failure>, i: nat, window: int): nat
    requires i < |recorded|
  {
    var last := |recorded| - 1;
    if i == last then 1
    else
      CountWithin(recorded[..last], i, window)
      + if recorded[last].resets == recorded[i].resets && recorded[last].now - recorded[i].first <= window then 1 else 0
  }

  lemma {:induction false} WithinIsCounted(recorded: seq<Failure>, i: nat, window: int)
    requires i < |recorded|
    requires forall j :: i < j < |recorded| ==> SameCounterIffWithin(recorded[i], recorded[j], window)
    ensures CountWithin(recorded, i, window) <= Count(recorded, recorded[i].era)
    decreases |recorded|
  {
    var last := |recorded| - 1;
    if i < last {
      WithinIsCounted(recorded[..last], i, window);
      assert SameCounterIffWithin(recorded[i], recorded[last], window);
    }
  }

  /** So within `window` of any counter's stamp no more than maxFailures + c - 1 failures are recorded, unless a
      login succeeds. */
  lemma TimeWindowIsBounded(run: seq<State>, acts: seq<Action>, max: int, window: nat, c: nat, start: int, i: nat)
    requires IsRun(run, acts, max, window, c) && Monotone(acts, start) && i < |run[|run| - 1].recorded|
    ensures CountWithin(run[|run| - 1].recorded, i, window) <= (if max < 1 then 1 else max) + c - 1
  {
    var recorded := run[|run| - 1].recorded;
    RunTimed(run, acts, max, window, c, start, |run| - 1);
    WithinIsCounted(recorded, i, window);
    WindowIsBounded(run, acts, max, window, c, recorded[i].era);
  }

  /** A counter with maxFailures failures denies every attempt until `window` has passed since its stamp, and none
      after that. */
  lemma FullCounterDenies(s: State, max: int, window: int, c: nat, now: int)
    requires s.fc.Some? && s.fc.value.n >= max && s.inFlight < c
    ensures Enabled(s, max, window, c, Deny(now)) <==> now - s.fc.value.first <= window
    ensures Enabled(s, max, window, c, Admit(now)) <==> now - s.fc.value.first > window
  {
  }

  // ---- The bound is attained ----

  lemma Extend(run: seq<State>, acts: seq<Action>, max: int, window: int, c: nat, a: Action)
    returns (run': seq<State>, acts': seq<Action>)
    requires IsRun(run, acts, max, window, c) && Enabled(run[|run| - 1], max, window, c, a)
    ensures IsRun(run', acts', max, window, c)
    ensures run'[|run'| - 1] == Step(run[|run| - 1], max, window, c, a)
  {
    run', acts' := run + [Step(run[|run| - 1], max, window, c, a)], acts + [a];
  }

  /** `n` failures recorded at time 0 in the first counter, `inFlight` attempts pending. */
  ghost predicate Reached(s: State, n: nat, inFlight: nat) {
    && s.inFlight == inFlight && Count(s.recorded, 1) == n
    && if n == 0 then s.fc.None? && s.era == 0 else s.fc == Some(FailCount(n, 0)) && s.era == 1
  }

  lemma {:induction false} FailureCounts(s: State, max: int, window: nat, c: nat, n: nat, k: nat)
    requires Reached(s, n, k) && k > 0
    ensures Enabled(s, max, window, c, RecordFailure(0, 0))
    ensures Reached(Step(s, max, window, c, RecordFailure(0, 0)), n + 1, k - 1)
  {
    CountAppend(s.recorded, Step(s, max, window, c, RecordFailure(0, 0)).recorded[|s.recorded|], 1);
  }

  lemma {:induction false} FailAtZero(run: seq<State>, acts: seq<Action>, max: int, window: nat, c: nat, n: nat, k: nat)
    returns (run': seq<State>, acts': seq<Action>)
    requires IsRun(run, acts, max, window, c) && Reached(run[|run| - 1], n, k) && k > 0
    ensures IsRun(run', acts', max, window, c) && Reached(run'[|run'| - 1], n + 1, k - 1)
  {
    FailureCounts(run[|run| - 1], max, window, c, n, k);
    run', acts' := Extend(run, acts, max, window, c, RecordFailure(0, 0));
  }

  /** The bound is exact: c overlapping attempts can reach it. */
  lemma BoundIsAttained(max: int, window: nat, c: nat) returns (run: seq<State>, acts: seq<Action>)
    requires 1 <= max && 1 <= c
    ensures IsRun(run, acts, max, window, c)
    ensures Count(run[|run| - 1].recorded, 1) == Bound(max, c)
  {
    run, acts := [START], [];
    for i := 0 to max - 1
      invariant IsRun(run, acts, max, window, c) && Reached(run[|run| - 1], i, 0)
    {
      run, acts := Extend(run, acts, max, window, c, Admit(0));
      run, acts := FailAtZero(run, acts, max, window, c, i, 1);
    }
    for k := 0 to c
      invariant IsRun(run, acts, max, window, c) && Reached(run[|run| - 1], max - 1, k)
    {
      run, acts := Extend(run, acts, max, window, c, Admit(0));
    }
    for k := 0 to c
      invariant IsRun(run, acts, max, window, c) && Reached(run[|run| - 1], max - 1 + k, c - k)
    {
      run, acts := FailAtZero(run, acts, max, window, c, max - 1 + k, c - k);
    }
  }
}
