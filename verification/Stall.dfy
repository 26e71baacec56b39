/** The upload stall monitor of crates/bot/src/telegram_sink.rs, as a state machine over its polls. */
module Stall {
  import opened Prelude

  const SAMPLE_MS: nat := 500

  /**
   One turn of the select loop: the time since the start, what the progress callback says then,
   and the upload's result if it has one. Turns may come late, and when nothing is due.
   */
  datatype Poll = Poll(now: nat, done: nat, total: nat, ready: Option<bool>)

  datatype State = State(lastDone: nat, deadline: nat, nextTick: nat)

  datatype Outcome = Finished(ok: bool) | InvalidProgress | Stalled

  datatype Turn = Pending(state: State) | Ended(outcome: Outcome)

  function Start(done: nat, timeout: nat): State {
    State(done, timeout, 0)
  }

  /** The first tick of the 500 ms grid after `now`. */
  function TickAfter(now: nat): (t: nat)
    ensures now < t <= now + 500 && t % 500 == 0
  {
    (now / SAMPLE_MS + 1) * SAMPLE_MS
  }

  predicate Invalid(p: Poll) {
    p.total > 0 && p.done > p.total
  }

  /** The upload first, then the deadline, then the tick; otherwise nothing is due. */
  function Next(s: State, p: Poll, timeout: nat): Turn {
    if p.ready.Some? then
      Ended(if p.ready.value && Invalid(p) then InvalidProgress else Finished(p.ready.value))
    else if p.now >= s.deadline then
      if p.done != s.lastDone then Pending(State(p.done, p.now + timeout, s.nextTick)) else Ended(Stalled)
    else if p.now >= s.nextTick then
      if Invalid(p) then Ended(InvalidProgress)
      else if p.done != s.lastDone then Pending(State(p.done, p.now + timeout, TickAfter(p.now)))
      else Pending(s.(nextTick := TickAfter(p.now)))
    else Pending(s)
  }

  function Run(done: nat, polls: seq<Poll>, timeout: nat): Turn {
    if polls == [] then Pending(Start(done, timeout))
    else
      var before := Run(done, polls[..|polls| - 1], timeout);
      if before.Ended? then before else Next(before.state, polls[|polls| - 1], timeout)
  }

  /** `monitor_upload` over the turns it gets. */
  method MonitorUpload(done: nat, polls: seq<Poll>, timeout: nat) returns (r: Turn)
    ensures r == Run(done, polls, timeout)
  {
    var lastDone: nat, deadline: nat, nextTick: nat := done, timeout, 0;
    for i := 0 to |polls|
      invariant Run(done, polls[..i], timeout) == Pending(State(lastDone, deadline, nextTick))
    {
      var p := polls[i];
      assert polls[..i + 1][..i] == polls[..i];
      if p.ready.Some? {
        var outcome := Finished(p.ready.value);
        if p.ready.value && p.total > 0 && p.done > p.total {
          outcome := InvalidProgress;
        }
        EndedStays(done, polls, i + 1, timeout);
        return Ended(outcome);
      }
      if p.now >= deadline {
        if p.done == lastDone {
          EndedStays(done, polls, i + 1, timeout);
          return Ended(Stalled);
        }
        lastDone := p.done;
        deadline := p.now + timeout;
      } else if p.now >= nextTick {
        if p.total > 0 && p.done > p.total {
          EndedStays(done, polls, i + 1, timeout);
          return Ended(InvalidProgress);
        }
        nextTick := TickAfter(p.now);
        if p.done != lastDone {
          lastDone := p.done;
          deadline := p.now + timeout;
        }
      }
    }
    assert polls[..|polls|] == polls;
    return Pending(State(lastDone, deadline, nextTick));
  }

  lemma {:induction false} EndedStays(done: nat, polls: seq<Poll>, i: nat, timeout: nat)
    requires i <= |polls| && Run(done, polls[..i], timeout).Ended?
    ensures Run(done, polls, timeout) == Run(done, polls[..i], timeout)
    decreases |polls|
  {
    if i < |polls| {
      assert polls[..|polls| - 1][..i] == polls[..i];
      EndedStays(done, polls[..|polls| - 1], i, timeout);
    } else {
      assert polls[..i] == polls;
    }
  }

  // ---- Samples

  datatype Sample = Sample(time: nat, done: nat)

  /** A turn that reads the counter while the upload is pending. */
  predicate Samples(s: State, p: Poll) {
    p.ready.None? && (p.now >= s.deadline || p.now >= s.nextTick)
  }

  /** Every reading of the counter, the one before the loop first. */
  function Readings(done: nat, polls: seq<Poll>, timeout: nat): (r: seq<Sample>)
    ensures r != []
  {
    if polls == [] then [Sample(0, done)]
    else
      var before, p := polls[..|polls| - 1], polls[|polls| - 1];
      var run := Run(done, before, timeout);
      Readings(done, before, timeout) + if run.Pending? && Samples(run.state, p) then [Sample(p.now, p.done)] else []
  }

  ghost predicate Ordered(polls: seq<Poll>) {
    forall i, j :: 0 <= i < j < |polls| ==> polls[i].now <= polls[j].now
  }

  /** All readings from the `j`-th on are `value`. */
  ghost predicate FlatFrom(r: seq<Sample>, j: nat, value: nat) {
    j < |r| && forall i :: j <= i < |r| ==> r[i].done == value
  }

  /** Readings in order, none after `now`; the deadline runs from where the current value was first seen. */
  ghost predicate Origin(s: State, r: seq<Sample>, j: nat, now: nat, timeout: nat) {
    && FlatFrom(r, j, s.lastDone) && r[j].time + timeout == s.deadline
    && (j > 0 ==> r[j - 1].done != s.lastDone)
    && (forall i, k :: 0 <= i < k < |r| ==> r[i].time <= r[k].time)
    && (forall i :: 0 <= i < |r| ==> r[i].time <= now)
  }

  lemma OriginStep(s: State, r: seq<Sample>, j: nat, last: nat, p: Poll, timeout: nat) returns (k: nat)
    requires Origin(s, r, j, last, timeout) && last <= p.now && Next(s, p, timeout).Pending?
    ensures Origin(Next(s, p, timeout).state, r + if Samples(s, p) then [Sample(p.now, p.done)] else [], k, p.now,
                   timeout)
  {
    k := if Samples(s, p) && p.done != s.lastDone then |r| else j;
  }

  lemma {:induction false} DeadlineOrigin(done: nat, polls: seq<Poll>, timeout: nat) returns (j: nat)
    requires Run(done, polls, timeout).Pending? && Ordered(polls)
    ensures Origin(Run(done, polls, timeout).state, Readings(done, polls, timeout), j,
                   if polls == [] then 0 else polls[|polls| - 1].now, timeout)
  {
    if polls == [] {
      j := 0;
    } else {
      var before, p := polls[..|polls| - 1], polls[|polls| - 1];
      var last := if before == [] then 0 else before[|before| - 1].now;
      j := DeadlineOrigin(done, before, timeout);
      j := OriginStep(Run(done, before, timeout).state, Readings(done, before, timeout), j, last, p, timeout);
    }
  }

  /** Some reading a full timeout before `now`, and every one since, shows `value`. */
  ghost predicate FlatFor(r: seq<Sample>, value: nat, now: nat, timeout: nat) {
    exists j: nat :: FlatFrom(r, j, value) && r[j].time + timeout <= now
  }

  lemma StallOfReadings(s: State, r: seq<Sample>, origin: nat, now: nat, p: Poll, timeout: nat)
    requires p.ready.None? && Origin(s, r, origin, now, timeout)
    ensures Next(s, p, timeout) == Ended(Stalled) <==> FlatFor(r, p.done, p.now, timeout)
  {
    if FlatFor(r, p.done, p.now, timeout) {
      var j: nat :| FlatFrom(r, j, p.done) && r[j].time + timeout <= p.now;
      assert r[|r| - 1].done == s.lastDone == p.done;
      assert origin <= j;
      assert r[origin].time <= r[j].time;
    }
  }

  /**
   At a turn with the upload still pending, a stall is reported exactly when some reading a full
   timeout earlier and every reading since show the value seen now.
   */
  lemma StallExactly(done: nat, polls: seq<Poll>, p: Poll, timeout: nat)
    requires Run(done, polls, timeout).Pending? && Ordered(polls + [p]) && p.ready.None?
    ensures Run(done, polls + [p], timeout) == Ended(Stalled) <==>
            FlatFor(Readings(done, polls, timeout), p.done, p.now, timeout)
  {
    hide Run, Readings, FlatFor, Origin, Ordered;
    OrderedPrefix(polls, p);
    var origin := DeadlineOrigin(done, polls, timeout);
    RunOneMore(done, polls, p, timeout);
    StallOfReadings(Run(done, polls, timeout).state, Readings(done, polls, timeout), origin,
                    if polls == [] then 0 else polls[|polls| - 1].now, p, timeout);
  }

  lemma RunOneMore(done: nat, polls: seq<Poll>, p: Poll, timeout: nat)
    requires Run(done, polls, timeout).Pending?
    ensures Run(done, polls + [p], timeout) == Next(Run(done, polls, timeout).state, p, timeout)
  {
    assert (polls + [p])[..|polls|] == polls;
  }

  lemma OrderedPrefix(polls: seq<Poll>, p: Poll)
    requires Ordered(polls + [p])
    ensures Ordered(polls)
  {
    forall i, j | 0 <= i < j < |polls| ensures polls[i].now <= polls[j].now {
      assert (polls + [p])[i].now <= (polls + [p])[j].now;
    }
  }

  // ---- How an upload ends

  /** A finished upload ends the watch at once, and only a success is held to its own count. */
  lemma FinishedExactly(done: nat, polls: seq<Poll>, p: Poll, timeout: nat)
    requires Run(done, polls, timeout).Pending? && p.ready.Some?
    ensures Run(done, polls + [p], timeout)
         == Ended(if p.ready == Some(true) && p.total > 0 && p.done > p.total then InvalidProgress
                  else Finished(p.ready == Some(true)))
  {
    RunOneMore(done, polls, p, timeout);
  }

  /** The readings that came on the grid, not because the deadline was up. */
  function LastTick(done: nat, polls: seq<Poll>, timeout: nat): Option<nat> {
    if polls == [] then None
    else
      var before, p := polls[..|polls| - 1], polls[|polls| - 1];
      var run := Run(done, before, timeout);
      if run.Pending? && p.ready.None? && p.now < run.state.deadline && Samples(run.state, p) then Some(p.now)
      else LastTick(done, before, timeout)
  }

  /** The next reading is due on the first multiple of half a second after the last tick; at once before any. */
  lemma {:induction false} TickGrid(done: nat, polls: seq<Poll>, timeout: nat)
    requires Run(done, polls, timeout).Pending?
    ensures var due, last := Run(done, polls, timeout).state.nextTick, LastTick(done, polls, timeout);
            if last.None? then due == 0 else due % 500 == 0 && last.value < due <= last.value + 500
  {
    if polls != [] {
      TickGrid(done, polls[..|polls| - 1], timeout);
    }
  }

  /** While an upload is pending, a count beyond the total fails it exactly at a tick before the deadline. */
  lemma InvalidExactly(done: nat, polls: seq<Poll>, p: Poll, timeout: nat)
    requires Run(done, polls, timeout).Pending? && p.ready.None?
    ensures var s := Run(done, polls, timeout).state;
            Run(done, polls + [p], timeout) == Ended(InvalidProgress) <==>
            p.total > 0 && p.done > p.total && s.nextTick <= p.now < s.deadline
  {
    RunOneMore(done, polls, p, timeout);
  }

  /** An upload that has ended stays as it ended. */
  lemma EndedForGood(done: nat, polls: seq<Poll>, p: Poll, timeout: nat)
    requires Run(done, polls, timeout).Ended?
    ensures Run(done, polls + [p], timeout) == Run(done, polls, timeout)
  {
    assert (polls + [p])[..|polls|] == polls;
  }

  // ---- A counter that keeps growing never stalls

  /** The turns read `counter`, the initial reading included. */
  ghost predicate Reads(done: nat, polls: seq<Poll>, counter: nat -> nat) {
    done == counter(0) && forall i :: 0 <= i < |polls| ==> polls[i].done == counter(polls[i].now)
  }

  ghost predicate Growing(counter: nat -> nat, timeout: nat) {
    forall a: nat, b: nat :: a + timeout <= b ==> counter(a) < counter(b)
  }

  lemma {:induction false} ReadingsOfCounter(done: nat, polls: seq<Poll>, timeout: nat, counter: nat -> nat, j: nat)
    requires Reads(done, polls, counter) && j < |Readings(done, polls, timeout)|
    ensures var r := Readings(done, polls, timeout); r[j].done == counter(r[j].time)
  {
    if polls != [] {
      var before := polls[..|polls| - 1];
      if j < |Readings(done, before, timeout)| {
        ReadingsOfCounter(done, before, timeout, counter, j);
      }
    }
  }

  lemma NoFlatGrowth(done: nat, polls: seq<Poll>, p: Poll, timeout: nat, counter: nat -> nat)
    requires Reads(done, polls, counter) && p.done == counter(p.now) && Growing(counter, timeout)
    ensures !FlatFor(Readings(done, polls, timeout), p.done, p.now, timeout)
  {
    var r := Readings(done, polls, timeout);
    if FlatFor(r, p.done, p.now, timeout) {
      var j: nat :| FlatFrom(r, j, p.done) && r[j].time + timeout <= p.now;
      ReadingsOfCounter(done, polls, timeout, counter, j);
      assert false;
    }
  }

  /** Growth within every timeout window rules a stall out, however late or often the turns come. */
  lemma {:induction false} GrowingNeverStalls(done: nat, polls: seq<Poll>, timeout: nat, counter: nat -> nat)
    requires Ordered(polls) && Reads(done, polls, counter) && Growing(counter, timeout)
    ensures Run(done, polls, timeout) != Ended(Stalled)
  {
    if polls != [] {
      var before, p := polls[..|polls| - 1], polls[|polls| - 1];
      assert polls == before + [p];
      GrowingNeverStalls(done, before, timeout, counter);
      if Run(done, before, timeout).Pending? && p.ready.None? {
        StallExactly(done, before, p, timeout);
        NoFlatGrowth(done, before, p, timeout, counter);
      }
    }
  }

  // ---- A frozen transfer is failed in time

  function Due(s: State): nat {
    if s.deadline < s.nextTick then s.deadline else s.nextTick
  }

  /** Each turn comes at most `lag` after something is due. */
  ghost predicate Timely(done: nat, polls: seq<Poll>, timeout: nat, lag: nat) {
    forall i :: 0 <= i < |polls| ==> TimelyAt(done, polls, timeout, lag, i)
  }

  predicate TimelyAt(done: nat, polls: seq<Poll>, timeout: nat, lag: nat, i: nat)
    requires i < |polls|
  {
    var run, last := Run(done, polls[..i], timeout), if i == 0 then 0 else polls[i - 1].now;
    run.Pending? ==> last <= polls[i].now <= (if Due(run.state) < last then last else Due(run.state)) + lag
  }

  /** From `f` on the counter stands still and the upload does not finish. */
  ghost predicate Frozen(polls: seq<Poll>, counter: nat -> nat, f: nat) {
    && (forall t: nat :: t >= f ==> counter(t) == counter(f))
    && (forall i :: 0 <= i < |polls| ==> polls[i].ready.None?)
  }

  /**
   Either no reading has come since `f` and a tick soon will, or the still value has been read
   and the deadline runs from no later than the first tick after `f`.
   */
  predicate Watching(s: State, now: nat, still: nat, f: nat, timeout: nat, lag: nat) {
    && now < s.deadline
    && ((now < f + SAMPLE_MS && s.nextTick <= f + SAMPLE_MS && s.deadline < f + timeout)
        || (now >= f && s.lastDone == still && s.deadline <= f + SAMPLE_MS + lag + timeout))
  }

  lemma WatchStep(s: State, last: nat, p: Poll, counter: nat -> nat, f: nat, timeout: nat, lag: nat)
    requires timeout > 0 && Watching(s, last, counter(f), f, timeout, lag)
    requires p.ready.None? && p.done == counter(p.now) && (p.now >= f ==> p.done == counter(f))
    requires last <= p.now <= (if Due(s) < last then last else Due(s)) + lag
    ensures var t := Next(s, p, timeout); t.Pending? ==> Watching(t.state, p.now, counter(f), f, timeout, lag)
  {
  }

  lemma TimelyPrefix(done: nat, polls: seq<Poll>, timeout: nat, lag: nat)
    requires polls != [] && Timely(done, polls, timeout, lag)
    ensures Timely(done, polls[..|polls| - 1], timeout, lag)
  {
    var before := polls[..|polls| - 1];
    forall i | 0 <= i < |before| ensures TimelyAt(done, before, timeout, lag, i) {
      assert before[..i] == polls[..i];
      assert TimelyAt(done, polls, timeout, lag, i);
    }
  }

  lemma {:induction false} WatchRun(done: nat, polls: seq<Poll>, counter: nat -> nat, f: nat, timeout: nat, lag: nat)
    requires timeout > 0 && Reads(done, polls, counter) && Frozen(polls, counter, f)
            && Timely(done, polls, timeout, lag)
    requires Run(done, polls, timeout).Pending?
    ensures Watching(Run(done, polls, timeout).state, if polls == [] then 0 else polls[|polls| - 1].now,
                     counter(f), f, timeout, lag)
  {
    if polls != [] {
      var before, p := polls[..|polls| - 1], polls[|polls| - 1];
      TimelyPrefix(done, polls, timeout, lag);
      WatchRun(done, before, counter, f, timeout, lag);
      assert TimelyAt(done, polls, timeout, lag, |before|);
      var last := if before == [] then 0 else before[|before| - 1].now;
      WatchStep(Run(done, before, timeout).state, last, p, counter, f, timeout, lag);
    }
  }

  /**
   A transfer frozen at `f` does not outlive one sample interval and the timeout: with turns at
   most `lag` late, none at or after that moment leaves it pending.
   */
  lemma FrozenIsFailed(done: nat, polls: seq<Poll>, counter: nat -> nat, f: nat, timeout: nat, lag: nat)
    requires timeout > 0 && Reads(done, polls, counter) && Frozen(polls, counter, f)
            && Timely(done, polls, timeout, lag)
    requires polls != [] && polls[|polls| - 1].now >= f + 500 + lag + timeout
    ensures Run(done, polls, timeout) in {Ended(Stalled), Ended(InvalidProgress)}
  {
    if Run(done, polls, timeout).Pending? {
      WatchRun(done, polls, counter, f, timeout, lag);
      assert false;
    }
    NeverFinishes(done, polls, timeout);
  }

  lemma {:induction false} NeverFinishes(done: nat, polls: seq<Poll>, timeout: nat)
    requires forall i :: 0 <= i < |polls| ==> polls[i].ready.None?
    ensures var r := Run(done, polls, timeout); r.Ended? ==> !r.outcome.Finished?
  {
    if polls != [] {
      NeverFinishes(done, polls[..|polls| - 1], timeout);
    }
  }
}
