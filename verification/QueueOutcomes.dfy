/**
 What becomes of each item of the queue over whole runs: an aborted or cleared item never
 starts and is answered so, and exactly the items that started are answered with a result.
 */
module QueueOutcomes {
  import opened Prelude
  import opened Queue

  predicate Waits(s: State, id: nat) {
    exists i :: 0 <= i < |s.pending| && s.pending[i].id == id
  }

  predicate Runs(s: State, id: nat) {
    exists w :: 0 <= w < |s.workers| && s.workers[w] == Running(id)
  }

  predicate HasStarted(s: State, id: nat) {
    exists i :: 0 <= i < |s.started| && s.started[i].id == id
  }

  /** The item was answered, or taken out with its answer still to be sent. */
  predicate AnsweredWith(s: State, id: nat, outcome: Outcome) {
    Answer(id, outcome) in s.owed || Answer(id, outcome) in s.answers
  }

  /** Started items run or have finished, and a result is only for an item that started. */
  ghost predicate Accounted(s: State) {
    && (forall id :: HasStarted(s, id) ==> Runs(s, id) || AnsweredWith(s, id, Finished))
    && (forall id :: Runs(s, id) || AnsweredWith(s, id, Finished) ==> HasStarted(s, id))
  }

  lemma InMultiset(ids: seq<nat>, i: nat)
    requires i < |ids|
    ensures multiset(ids)[ids[i]] >= 1
  {
    assert ids[i] in multiset(ids);
  }

  /** Waiting, running and being answered each take one of an id's places. */
  lemma PlacesTaken(s: State, id: nat)
    requires OneWorker(s)
    ensures Waits(s, id) ==> multiset(ItemIds(s.pending))[id] >= 1
    ensures Runs(s, id) ==> RunningIds(s.workers)[id] >= 1
    ensures forall o :: Answer(id, o) in s.owed ==> multiset(AnswerIds(s.owed))[id] >= 1
    ensures forall o :: Answer(id, o) in s.answers ==> multiset(AnswerIds(s.answers))[id] >= 1
  {
    if i :| 0 <= i < |s.pending| && s.pending[i].id == id {
      InMultiset(ItemIds(s.pending), i);
    }
    forall o | Answer(id, o) in s.owed ensures multiset(AnswerIds(s.owed))[id] >= 1 {
      var i :| 0 <= i < |s.owed| && s.owed[i] == Answer(id, o);
      InMultiset(AnswerIds(s.owed), i);
    }
    forall o | Answer(id, o) in s.answers ensures multiset(AnswerIds(s.answers))[id] >= 1 {
      var i :| 0 <= i < |s.answers| && s.answers[i] == Answer(id, o);
      InMultiset(AnswerIds(s.answers), i);
    }
  }

  lemma TwiceAmong(a: seq<Answer>, id: nat, x: Outcome, y: Outcome)
    requires Answer(id, x) in a && Answer(id, y) in a && x != y
    ensures multiset(AnswerIds(a))[id] >= 2
  {
    var i :| 0 <= i < |a| && a[i] == Answer(id, x);
    var j :| 0 <= j < |a| && a[j] == Answer(id, y);
    CountedTwice(AnswerIds(a), if i < j then i else j, if i < j then j else i);
  }

  /** An item has one place: what is answered neither waits nor runs, and has one outcome. */
  lemma OnePlace(s: State, id: nat, outcome: Outcome)
    requires OneWorker(s) && EachOnce(s) && AnsweredWith(s, id, outcome)
    ensures !Waits(s, id) && !Runs(s, id)
    ensures forall o :: AnsweredWith(s, id, o) ==> o == outcome
  {
    PlacesTaken(s, id);
    assert Census(s)[id] <= 1;
    forall o | AnsweredWith(s, id, o) ensures o == outcome {
      if o != outcome && Answer(id, o) in s.owed && Answer(id, outcome) in s.owed {
        TwiceAmong(s.owed, id, o, outcome);
      }
      if o != outcome && Answer(id, o) in s.answers && Answer(id, outcome) in s.answers {
        TwiceAmong(s.answers, id, o, outcome);
      }
    }
  }

  /** An answer owed or sent stays owed or sent. */
  lemma StepKeepsAnswer(s: State, e: Event, a: Answer)
    requires Enabled(s, e) && (a in s.owed || a in s.answers)
    ensures a in Step(s, e).owed || a in Step(s, e).answers
  {
    hide Report, IndexOf;
    if e.Deliver? {
      var k := e.answer;
      if a in s.owed && a != s.owed[k] {
        var i :| 0 <= i < |s.owed| && s.owed[i] == a;
        assert Without(s.owed, k)[if i < k then i else i - 1] == a;
      }
    }
  }

  lemma StepKeepsAccounts(s: State, e: Event)
    requires OneWorker(s) && Accounted(s) && Enabled(s, e)
    ensures Accounted(Step(s, e))
  {
    var t := Step(s, e);
    forall id | HasStarted(t, id) ensures Runs(t, id) || AnsweredWith(t, id, Finished) {
      StartedGoesOn(s, e, id);
    }
    forall id | Runs(t, id) || AnsweredWith(t, id, Finished) ensures HasStarted(t, id) {
      ResultWasStarted(s, e, id);
    }
  }

  lemma StartedGoesOn(s: State, e: Event, id: nat)
    requires OneWorker(s) && Accounted(s) && Enabled(s, e) && HasStarted(Step(s, e), id)
    ensures Runs(Step(s, e), id) || AnsweredWith(Step(s, e), id, Finished)
  {
    hide Report, IndexOf, AllCleared;
    var t := Step(s, e);
    if e.Take? && s.pending != [] && s.pending[e.top].id == id {
      assert t.workers[e.worker] == Running(id);
    } else {
      var i :| 0 <= i < |t.started| && t.started[i].id == id;
      assert s.started[i].id == id;
      assert HasStarted(s, id);
      if AnsweredWith(s, id, Finished) {
        StepKeepsAnswer(s, e, Answer(id, Finished));
      } else {
        var w :| 0 <= w < |s.workers| && s.workers[w] == Running(id);
        assert w == 0;
        assert e.Settle? ==> Answer(id, Finished) in t.answers;
        assert !e.Settle? ==> t.workers[0] == Running(id);
      }
    }
  }

  lemma ResultWasStarted(s: State, e: Event, id: nat)
    requires OneWorker(s) && Accounted(s) && Enabled(s, e)
    requires Runs(Step(s, e), id) || AnsweredWith(Step(s, e), id, Finished)
    ensures HasStarted(Step(s, e), id)
  {
    hide Report, IndexOf;
    var t := Step(s, e);
    if e.Take? && s.pending != [] && s.pending[e.top].id == id {
      assert t.started[|s.started|].id == id;
    } else {
      assert Runs(s, id) || AnsweredWith(s, id, Finished) by { ResultBefore(s, e, id); }
      var i :| 0 <= i < |s.started| && s.started[i].id == id;
      assert t.started[i].id == id;
    }
  }

  lemma ResultBefore(s: State, e: Event, id: nat)
    requires OneWorker(s) && Enabled(s, e) && !(e.Take? && s.pending != [] && s.pending[e.top].id == id)
    requires Runs(Step(s, e), id) || AnsweredWith(Step(s, e), id, Finished)
    ensures Runs(s, id) || AnsweredWith(s, id, Finished)
  {
    hide Step, Enabled, OneWorker, Runs, AnsweredWith;
    if Runs(Step(s, e), id) {
      RunsBefore(s, e, id);
    } else {
      AnsweredBefore(s, e, id);
    }
  }

  lemma RunsBefore(s: State, e: Event, id: nat)
    requires OneWorker(s) && Enabled(s, e) && !(e.Take? && s.pending != [] && s.pending[e.top].id == id)
    requires Runs(Step(s, e), id)
    ensures Runs(s, id)
  {
    hide Report, IndexOf, AllCleared;
    var t := Step(s, e);
    var w :| 0 <= w < |t.workers| && t.workers[w] == Running(id);
    assert s.workers[w] == Running(id);
  }

  lemma AnsweredBefore(s: State, e: Event, id: nat)
    requires OneWorker(s) && Enabled(s, e) && AnsweredWith(Step(s, e), id, Finished)
    ensures Runs(s, id) || AnsweredWith(s, id, Finished)
  {
    hide Report, IndexOf;
    if e.Settle? && s.workers[e.worker].id == id {
      assert s.workers[e.worker] == Running(id);
    } else if e.Deliver? {
      assert forall a :: a in Without(s.owed, e.answer) ==> a in s.owed;
    }
  }

  ghost predicate Sound(s: State) {
    Inv(s) && Accounted(s)
  }

  lemma {:induction false} RunIsSound(s: State, events: seq<Event>)
    requires Sound(s) && Possible(s, events)
    ensures Sound(Run(s, events))
    decreases |events|
  {
    hide Inv, Accounted, Step, Enabled;
    if events != [] {
      assert OneWorker(s) by { WorkerOf(s); }
      StepKeepsInv(s, events[0]);
      StepKeepsAccounts(s, events[0]);
      RunIsSound(Step(s, events[0]), events[1..]);
    }
  }

  lemma WorkerOf(s: State)
    requires Inv(s)
    ensures OneWorker(s) && EachOnce(s) && DistinctIds(s.pending)
  {
  }

  lemma {:induction false} RunKeepsAnswer(s: State, events: seq<Event>, a: Answer)
    requires Possible(s, events) && (a in s.owed || a in s.answers)
    ensures var t := Run(s, events); a in t.owed || a in t.answers
    decreases |events|
  {
    hide Step, Enabled;
    if events != [] {
      StepKeepsAnswer(s, events[0], a);
      RunKeepsAnswer(Step(s, events[0]), events[1..], a);
    }
  }

  lemma {:induction false} RunOfSum(s: State, first: seq<Event>, second: seq<Event>)
    requires Possible(s, first + second)
    ensures Possible(s, first) && Possible(Run(s, first), second)
    ensures Run(s, first + second) == Run(Run(s, first), second)
    decreases |first|
  {
    hide Step, Enabled;
    if first == [] {
      assert first + second == second;
    } else {
      assert (first + second)[1..] == first[1..] + second;
      RunOfSum(Step(s, first[0]), first[1..], second);
    }
  }

  lemma InitialSound()
    ensures Sound(INITIAL)
  {
    InitialInv();
  }

  /** Once an item that did not start is owed an outcome, that is its outcome for good and it never starts. */
  lemma OutcomeIsFinal(s: State, events: seq<Event>, id: nat, outcome: Outcome)
    requires Sound(s) && Possible(s, events) && AnsweredWith(s, id, outcome) && outcome != Finished
    ensures var t := Run(s, events);
            && AnsweredWith(t, id, outcome) && (forall o :: AnsweredWith(t, id, o) ==> o == outcome)
            && !Waits(t, id) && !Runs(t, id) && !HasStarted(t, id)
  {
    hide Inv, Accounted, Run, Possible, Waits, Runs, HasStarted, EachOnce, OneWorker;
    var t := Run(s, events);
    RunIsSound(s, events);
    RunKeepsAnswer(s, events, Answer(id, outcome));
    WorkerOf(t);
    OnePlace(t, id, outcome);
    NoResult(t, id);
  }

  lemma NoResult(s: State, id: nat)
    requires Accounted(s) && !Runs(s, id) && !AnsweredWith(s, id, Finished)
    ensures !HasStarted(s, id)
  {
  }

  lemma AbortOwes(s: State, id: nat)
    requires Waits(s, id)
    ensures Answer(id, Aborted) in Step(s, Abort(id)).owed
  {
    assert IndexOf(s.pending, id).Some?;
  }

  /**
   In every run, an item aborted while it waits is answered `Aborted` and nothing else, and
   neither waits, runs nor has started at any later point.
   */
  lemma AbortedNeverStarts(before: seq<Event>, id: nat, after: seq<Event>)
    requires Possible(INITIAL, before + [Abort(id)] + after)
    requires Possible(INITIAL, before) && Waits(Run(INITIAL, before), id)
    ensures var t := Run(INITIAL, before + [Abort(id)] + after);
            && AnsweredWith(t, id, Aborted) && (forall o :: AnsweredWith(t, id, o) ==> o == Aborted)
            && !Waits(t, id) && !Runs(t, id) && !HasStarted(t, id)
  {
    hide Sound, Step, Waits, Runs, HasStarted;
    InitialSound();
    assert before + [Abort(id)] + after == before + ([Abort(id)] + after);
    RunOfSum(INITIAL, before, [Abort(id)] + after);
    RunIsSound(INITIAL, before);
    var s := Run(INITIAL, before);
    AbortOwes(s, id);
    OneMore(s, Abort(id), after);
    OutcomeIsFinal(Step(s, Abort(id)), after, id, Aborted);
  }

  lemma OneMore(s: State, e: Event, after: seq<Event>)
    requires Possible(s, [e] + after) && Sound(s)
    ensures Enabled(s, e) && Possible(Step(s, e), after) && Sound(Step(s, e))
    ensures Run(s, [e] + after) == Run(Step(s, e), after)
  {
    hide Inv, Accounted, Step;
    assert ([e] + after)[1..] == after;
    WorkerOf(s);
    StepKeepsInv(s, e);
    StepKeepsAccounts(s, e);
  }

  lemma ClearOwes(s: State, id: nat)
    requires Waits(s, id)
    ensures Answer(id, Cleared) in Step(s, Clear).owed
  {
    var i :| 0 <= i < |s.pending| && s.pending[i].id == id;
    assert Step(s, Clear).owed[|s.owed| + i] == Answer(id, Cleared);
  }

  /** The same for `Clear`: what waits then is answered `Cleared` and never starts. */
  lemma ClearedNeverStarts(before: seq<Event>, id: nat, after: seq<Event>)
    requires Possible(INITIAL, before + [Clear] + after)
    requires Possible(INITIAL, before) && Waits(Run(INITIAL, before), id)
    ensures var t := Run(INITIAL, before + [Clear] + after);
            && AnsweredWith(t, id, Cleared) && (forall o :: AnsweredWith(t, id, o) ==> o == Cleared)
            && !Waits(t, id) && !Runs(t, id) && !HasStarted(t, id)
  {
    hide Sound, Step, Waits, Runs, HasStarted;
    InitialSound();
    assert before + [Clear] + after == before + ([Clear] + after);
    RunOfSum(INITIAL, before, [Clear] + after);
    RunIsSound(INITIAL, before);
    var s := Run(INITIAL, before);
    ClearOwes(s, id);
    OneMore(s, Clear, after);
    OutcomeIsFinal(Step(s, Clear), after, id, Cleared);
  }

  /** In every run exactly the items that started run or are answered with a result. */
  lemma ResultsAreOfStarted(events: seq<Event>, id: nat)
    requires Possible(INITIAL, events)
    ensures var t := Run(INITIAL, events);
            HasStarted(t, id) <==> Runs(t, id) || AnsweredWith(t, id, Finished)
  {
    InitialSound();
    RunIsSound(INITIAL, events);
  }
}
