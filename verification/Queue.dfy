/**
 The sequential priority queue of crates/engine/src/queue.rs as a state machine.
 One event is one section under the queue's mutex, with the position callbacks it fires, or
 the sending of one answer. Events of submitters, abort watchers, `clear` and worker tasks
 interleave freely. Callbacks are taken not to panic.
 */
module Queue {
  import opened Prelude

  datatype Item = Item(id: nat, priority: int, enqueuedAt: nat, watched: bool)

  datatype Outcome = Aborted | Cleared | Finished

  datatype Answer = Answer(id: nat, outcome: Outcome)

  /** Where a worker task is: before its take, in the task, or past it with the answer sent. */
  datatype Phase = Taking | Running(id: nat) | Settled(id: nat)

  datatype State = State(
    // the fields under the mutex
    pending: seq<Item>,
    active: Option<nat>,
    processing: bool,
    nextId: nat,
    // what the rest of the program can see
    workers: seq<Phase>,
    owed: seq<Answer>,
    answers: seq<Answer>,
    started: seq<Item>,
    reported: map<nat, nat>,
    clock: nat
  )

  const INITIAL: State := State([], None, false, 1, [], [], [], [], map[], 0)

  const NANOS_PER_SEC: nat := 1_000_000_000

  /** Elapsed whole seconds, zero when the clock has not passed `since`. */
  function WaitedSecs(now: nat, since: nat): nat {
    if now > since then (now - since) / NANOS_PER_SEC else 0
  }

  /** `effective_score` of crates/engine/src/orchestrator/priority.rs. */
  function EffectiveScore(base: int, waitedSecs: nat): int {
    base * 100 + waitedSecs * 5
  }

  function Score(item: Item, now: nat): int {
    EffectiveScore(item.priority, WaitedSecs(now, item.enqueuedAt))
  }

  /** The earliest of the pending items with the highest score. */
  ghost predicate IsTop(pending: seq<Item>, now: nat, i: nat) {
    && i < |pending|
    && (forall j :: 0 <= j < |pending| ==> Score(pending[j], now) <= Score(pending[i], now))
    && (forall j :: 0 <= j < i ==> Score(pending[j], now) < Score(pending[i], now))
  }

  datatype Event =
    | Submit(priority: int, at: nat, watched: bool, aborted: bool)
    | Clear
    | Abort(id: nat)
    | Deliver(answer: nat)
    | Take(worker: nat, now: nat, top: nat)
    | Settle(worker: nat)
    | Finish(worker: nat)

  ghost predicate Enabled(s: State, e: Event) {
    match e
    case Submit(_, at, _, _) => s.clock <= at
    case Clear => true
    case Abort(_) => true
    case Deliver(k) => k < |s.owed|
    case Take(w, now, top) =>
      && w < |s.workers| && s.workers[w].Taking? && s.clock <= now
      && (s.pending != [] ==> IsTop(s.pending, now, top))
    case Settle(w) => w < |s.workers| && s.workers[w].Running?
    case Finish(w) => w < |s.workers| && s.workers[w].Settled?
  }

  /** The first item with the id is at `i`. */
  predicate FirstWith(pending: seq<Item>, i: int, id: nat) {
    0 <= i < |pending| && pending[i].id == id && forall j :: 0 <= j < i ==> pending[j].id != id
  }

  function IndexOf(pending: seq<Item>, id: nat): (r: Option<nat>)
    ensures r.Some? ==> FirstWith(pending, r.value, id)
    ensures r.None? ==> forall i :: 0 <= i < |pending| ==> pending[i].id != id
  {
    if pending == [] then None
    else if pending[0].id == id then Some(0)
    else
      match IndexOf(pending[1..], id)
      case None => None
      case Some(i) => Some(i + 1)
  }

  /** The callbacks of the items from index `i` on, each given its index plus one. */
  function Report(reported: map<nat, nat>, pending: seq<Item>, i: nat): map<nat, nat>
    decreases |pending| - i
  {
    if i >= |pending| then reported
    else Report(if pending[i].watched then reported[pending[i].id := i + 1] else reported, pending, i + 1)
  }

  function AllCleared(items: seq<Item>): seq<Answer> {
    seq(|items|, i requires 0 <= i < |items| => Answer(items[i].id, Cleared))
  }

  ghost function Step(s: State, e: Event): State
    requires Enabled(s, e)
  {
    match e
    case Submit(priority, at, watched, aborted) =>
      if aborted then s.(clock := at)
      else
        var item := Item(s.nextId, priority, at, watched);
        s.(pending := s.pending + [item],
           processing := true,
           nextId := s.nextId + 1,
           workers := if s.processing then s.workers else s.workers + [Taking],
           reported := if s.processing && watched then s.reported[item.id := |s.pending| + 1] else s.reported,
           clock := at)
    case Clear =>
      s.(pending := [], owed := s.owed + AllCleared(s.pending))
    case Abort(id) =>
      (match IndexOf(s.pending, id)
       case None => s
       case Some(i) =>
         var rest := Without(s.pending, i);
         s.(pending := rest, owed := s.owed + [Answer(id, Aborted)], reported := Report(s.reported, rest, i)))
    case Deliver(k) =>
      s.(owed := Without(s.owed, k), answers := s.answers + [s.owed[k]])
    case Take(w, now, top) =>
      if s.pending == [] then
        s.(active := None, processing := false, workers := Without(s.workers, w), clock := now)
      else
        var item, rest := s.pending[top], Without(s.pending, top);
        s.(pending := rest,
           active := Some(item.id),
           workers := s.workers[w := Running(item.id)],
           started := s.started + [item],
           reported := Report(s.reported, rest, 0),
           clock := now)
    case Settle(w) =>
      var id := s.workers[w].id;
      s.(workers := s.workers[w := Settled(id)], answers := s.answers + [Answer(id, Finished)])
    case Finish(w) =>
      if s.pending == [] then s.(active := None, processing := false, workers := Without(s.workers, w))
      else s.(active := None, workers := s.workers[w := Taking])
  }

  // ---- Conservation: every accepted item is in exactly one place

  function ItemIds(items: seq<Item>): seq<nat> {
    seq(|items|, i requires 0 <= i < |items| => items[i].id)
  }

  function AnswerIds(answers: seq<Answer>): seq<nat> {
    seq(|answers|, i requires 0 <= i < |answers| => answers[i].id)
  }

  function RunningIds(workers: seq<Phase>): multiset<nat> {
    if workers == [] then multiset{}
    else (if workers[0].Running? then multiset{workers[0].id} else multiset{}) + RunningIds(workers[1..])
  }

  /** Ids waiting, running, removed with an answer still to be sent, and answered. */
  function Census(s: State): multiset<nat> {
    multiset(ItemIds(s.pending)) + RunningIds(s.workers)
    + multiset(AnswerIds(s.owed)) + multiset(AnswerIds(s.answers))
  }

  ghost predicate OnceUpTo(ids: multiset<nat>, nextId: nat) {
    forall id :: ids[id] == if 1 <= id < nextId then 1 else 0
  }

  ghost predicate EachOnce(s: State) {
    OnceUpTo(Census(s), s.nextId)
  }

  // ---- One worker, no lost wake-up

  ghost predicate OneWorker(s: State) {
    && |s.workers| == (if s.processing then 1 else 0)
    && (s.pending != [] ==> s.processing)
    && s.active == (if s.workers != [] && !s.workers[0].Taking? then Some(s.workers[0].id) else None)
  }

  // ---- Order

  /** Submission order: by id, and by time. */
  ghost predicate InLine(pending: seq<Item>) {
    forall i, j :: 0 <= i < j < |pending| ==>
      pending[i].id < pending[j].id && pending[i].enqueuedAt <= pending[j].enqueuedAt
  }

  ghost predicate Known(items: seq<Item>, nextId: nat) {
    forall i :: 0 <= i < |items| ==> items[i].id < nextId
  }

  ghost predicate Past(items: seq<Item>, clock: nat) {
    forall i :: 0 <= i < |items| ==> items[i].enqueuedAt <= clock
  }

  ghost predicate Lined(s: State) {
    s.nextId >= 1 && InLine(s.pending) && Known(s.pending, s.nextId) && Past(s.pending, s.clock)
  }

  /**
   `first` may start ahead of the earlier `second` only on priority: each point of it is
   worth twenty seconds of waiting, so equal priorities never change places.
   */
  predicate FairlyBefore(first: Item, second: Item) {
    first.id > second.id ==>
      20 * (first.priority - second.priority) > WaitedSecs(first.enqueuedAt, second.enqueuedAt)
  }

  ghost predicate FairAmong(started: seq<Item>) {
    forall i, j :: 0 <= i < j < |started| ==> FairlyBefore(started[i], started[j])
  }

  ghost predicate FairTo(started: seq<Item>, pending: seq<Item>) {
    forall i, j :: 0 <= i < |started| && 0 <= j < |pending| ==> FairlyBefore(started[i], pending[j])
  }

  ghost predicate FairStarts(s: State) {
    FairAmong(s.started) && FairTo(s.started, s.pending) && Known(s.started, s.nextId)
  }

  // ---- Positions

  /** The position last reported to a waiting item is its index plus one; none was only to a head. */
  ghost predicate Placed(reported: map<nat, nat>, pending: seq<Item>) {
    forall i :: 0 <= i < |pending| && pending[i].watched ==>
                  if pending[i].id in reported then reported[pending[i].id] == i + 1 else i == 0
  }

  ghost predicate Positions(s: State) {
    && (forall id :: id in s.reported ==> id < s.nextId)
    && Placed(s.reported, s.pending)
  }

  ghost predicate Inv(s: State) {
    EachOnce(s) && OneWorker(s) && Lined(s) && FairStarts(s) && Positions(s)
  }

  // ---- Lemmas about the pieces

  lemma ItemIdsWithout(items: seq<Item>, i: nat)
    requires i < |items|
    ensures multiset(ItemIds(items)) == multiset(ItemIds(Without(items, i))) + multiset{items[i].id}
  {
    assert ItemIds(Without(items, i)) == Without(ItemIds(items), i);
    MultisetWithout(ItemIds(items), i);
  }

  lemma AnswerIdsWithout(answers: seq<Answer>, i: nat)
    requires i < |answers|
    ensures multiset(AnswerIds(answers)) == multiset(AnswerIds(Without(answers, i))) + multiset{answers[i].id}
  {
    assert AnswerIds(Without(answers, i)) == Without(AnswerIds(answers), i);
    MultisetWithout(AnswerIds(answers), i);
  }

  lemma AnswerIdsAppend(a: seq<Answer>, b: seq<Answer>)
    ensures multiset(AnswerIds(a + b)) == multiset(AnswerIds(a)) + multiset(AnswerIds(b))
  {
    assert AnswerIds(a + b) == AnswerIds(a) + AnswerIds(b);
  }

  lemma AnswerIdsAppendOne(answers: seq<Answer>, answer: Answer)
    ensures multiset(AnswerIds(answers + [answer])) == multiset(AnswerIds(answers)) + multiset{answer.id}
  {
    assert AnswerIds(answers + [answer]) == AnswerIds(answers) + [answer.id];
  }

  lemma ItemIdsAppend(items: seq<Item>, item: Item)
    ensures multiset(ItemIds(items + [item])) == multiset(ItemIds(items)) + multiset{item.id}
  {
    assert ItemIds(items + [item]) == ItemIds(items) + [item.id];
  }

  ghost predicate DistinctIds(pending: seq<Item>) {
    forall i, j :: 0 <= i < j < |pending| ==> pending[i].id != pending[j].id
  }

  /** After a report from `from` on, each watched item there has its index plus one. */
  lemma {:induction false} ReportSets(reported: map<nat, nat>, pending: seq<Item>, from: nat, id: nat)
    requires DistinctIds(pending)
    ensures var r := Report(reported, pending, from);
            && (forall i :: from <= i < |pending| && pending[i].watched && pending[i].id == id ==>
                    id in r && r[id] == i + 1)
            && ((forall i :: from <= i < |pending| && pending[i].watched ==> pending[i].id != id) ==>
                  (id in r <==> id in reported) && (id in r ==> r[id] == reported[id]))
    decreases |pending| - from
  {
    if from < |pending| {
      var next := if pending[from].watched then reported[pending[from].id := from + 1] else reported;
      ReportSets(next, pending, from + 1, id);
    }
  }

  lemma ReportAll(reported: map<nat, nat>, pending: seq<Item>, from: nat)
    requires DistinctIds(pending)
    ensures var r := Report(reported, pending, from);
            && (forall i :: from <= i < |pending| && pending[i].watched ==>
                    pending[i].id in r && r[pending[i].id] == i + 1)
            && (forall i :: 0 <= i < from && i < |pending| && pending[i].id in r ==>
                  pending[i].id in reported && r[pending[i].id] == reported[pending[i].id])
            && (forall i :: 0 <= i < from && i < |pending| && pending[i].id in reported ==> pending[i].id in r)
            && (forall id :: id in r ==> id in reported || exists i :: 0 <= i < |pending| && pending[i].id == id)
  {
    var r := Report(reported, pending, from);
    forall i | 0 <= i < |pending| ensures
        && (from <= i && pending[i].watched ==> pending[i].id in r && r[pending[i].id] == i + 1)
        && (i < from && pending[i].id in r ==> pending[i].id in reported && r[pending[i].id] == reported[pending[i].id])
        && (i < from && pending[i].id in reported ==> pending[i].id in r)
    {
      ReportSets(reported, pending, from, pending[i].id);
    }
    forall id | id in r && id !in reported ensures exists i :: 0 <= i < |pending| && pending[i].id == id {
      ReportSets(reported, pending, from, id);
    }
  }

  // ---- Every step keeps every part of the invariant

  lemma StepKeepsWorker(s: State, e: Event)
    requires OneWorker(s) && Enabled(s, e)
    ensures OneWorker(Step(s, e))
  {
  }

  /** What a step adds to the census: the new id of an accepted submission, and nothing else. */
  lemma StepCensus(s: State, e: Event)
    requires OneWorker(s) && Enabled(s, e)
    ensures Census(Step(s, e)) == Census(s) + (if e.Submit? && !e.aborted then multiset{s.nextId} else multiset{})
  {
    hide Step, Census;
    match e
    case Submit(_, _, _, _) => SubmitCensus(s, e);
    case Clear => ClearCensus(s);
    case Abort(id) => AbortCensus(s, id);
    case Deliver(k) => DeliverCensus(s, k);
    case Take(w, now, top) => TakeCensus(s, w, now, top);
    case Settle(w) => SettleCensus(s, w);
    case Finish(w) => FinishCensus(s, w);
  }

  lemma ClearCensus(s: State)
    ensures Census(Step(s, Clear)) == Census(s)
  {
    AnswerIdsAppend(s.owed, AllCleared(s.pending));
    assert AnswerIds(AllCleared(s.pending)) == ItemIds(s.pending);
  }

  lemma FinishCensus(s: State, w: nat)
    requires OneWorker(s) && Enabled(s, Finish(w))
    ensures Census(Step(s, Finish(w))) == Census(s)
  {
  }

  lemma SubmitCensus(s: State, e: Event)
    requires OneWorker(s) && e.Submit? && Enabled(s, e)
    ensures Census(Step(s, e)) == Census(s) + (if !e.aborted then multiset{s.nextId} else multiset{})
  {
    if !e.aborted {
      var t := Step(s, e);
      ItemIdsAppend(s.pending, Item(s.nextId, e.priority, e.at, e.watched));
      FirstWorker(s.workers);
      CensusFrom(s, t, multiset{s.nextId});
    }
  }

  lemma CensusFrom(s: State, t: State, more: multiset<nat>)
    requires multiset(ItemIds(t.pending)) == multiset(ItemIds(s.pending)) + more
    requires RunningIds(t.workers) == RunningIds(s.workers) && t.owed == s.owed && t.answers == s.answers
    ensures Census(t) == Census(s) + more
  {
  }

  lemma FirstWorker(workers: seq<Phase>)
    ensures workers == [] ==> RunningIds(workers + [Taking]) == RunningIds(workers)
  {
    if workers == [] {
      assert workers + [Taking] == [Taking];
      assert RunningIds([Taking]) == RunningIds([]);
    }
  }

  lemma DeliverCensus(s: State, k: nat)
    requires k < |s.owed|
    ensures Census(Step(s, Deliver(k))) == Census(s)
  {
    hide AnswerIds, ItemIds;
    AnswerIdsWithout(s.owed, k);
    AnswerIdsAppendOne(s.answers, s.owed[k]);
  }

  lemma AbortCensus(s: State, id: nat)
    ensures Census(Step(s, Abort(id))) == Census(s)
  {
    hide AnswerIds, ItemIds, Report;
    var i := IndexOf(s.pending, id);
    if i.Some? {
      ItemIdsWithout(s.pending, i.value);
      AnswerIdsAppendOne(s.owed, Answer(id, Aborted));
    }
  }

  lemma TakeCensus(s: State, w: nat, now: nat, top: nat)
    requires OneWorker(s) && Enabled(s, Take(w, now, top))
    ensures Census(Step(s, Take(w, now, top))) == Census(s)
  {
    assert s.workers == [Taking];
    if s.pending != [] {
      ItemIdsWithout(s.pending, top);
    }
  }

  lemma SettleCensus(s: State, w: nat)
    requires OneWorker(s) && Enabled(s, Settle(w))
    ensures Census(Step(s, Settle(w))) == Census(s)
  {
    var id := s.workers[w].id;
    assert s.workers == [Running(id)];
    AnswerIdsAppendOne(s.answers, Answer(id, Finished));
  }

  lemma OnceMore(ids: multiset<nat>, nextId: nat)
    requires nextId >= 1 && OnceUpTo(ids, nextId)
    ensures OnceUpTo(ids + multiset{nextId}, nextId + 1)
  {
  }

  lemma StepKeepsCensus(s: State, e: Event)
    requires OneWorker(s) && Lined(s) && EachOnce(s) && Enabled(s, e)
    ensures EachOnce(Step(s, e))
  {
    StepCensus(s, e);
    if e.Submit? && !e.aborted {
      OnceMore(Census(s), s.nextId);
    } else {
      assert Step(s, e).nextId == s.nextId;
    }
  }

  /** What removing one waiting item keeps. */
  lemma WithoutKeepsLine(pending: seq<Item>, i: nat)
    requires i < |pending| && InLine(pending)
    ensures InLine(Without(pending, i))
    ensures forall x :: x in Without(pending, i) ==> x in pending && x.id != pending[i].id
  {
    var rest := Without(pending, i);
    assert forall k :: 0 <= k < |rest| ==> rest[k] == pending[if k < i then k else k + 1];
  }

  lemma StepKeepsLine(s: State, e: Event)
    requires Lined(s) && Enabled(s, e)
    ensures Lined(Step(s, e))
  {
    match e
    case Abort(id) =>
      if IndexOf(s.pending, id).Some? {
        WithoutKeepsLine(s.pending, IndexOf(s.pending, id).value);
        MembersOnly(Without(s.pending, IndexOf(s.pending, id).value), s.pending, s.nextId, s.clock);
      }
    case Take(w, now, top) =>
      if s.pending != [] {
        WithoutKeepsLine(s.pending, top);
        MembersOnly(Without(s.pending, top), s.pending, s.nextId, s.clock);
      }
    case _ =>
  }

  lemma MembersOnly(some: seq<Item>, all: seq<Item>, nextId: nat, clock: nat)
    requires forall x :: x in some ==> x in all
    requires Known(all, nextId) && Past(all, clock)
    ensures Known(some, nextId) && Past(some, clock)
  {
    forall i | 0 <= i < |some| ensures some[i].id < nextId && some[i].enqueuedAt <= clock {
      assert some[i] in all;
    }
  }

  lemma DivSuper(x: nat, y: nat)
    ensures (x + y) / NANOS_PER_SEC >= x / NANOS_PER_SEC + y / NANOS_PER_SEC
  {
  }

  /** The waited seconds are the whole seconds between the two times, none when the clock is behind. */
  lemma WaitedWhole(now: nat, since: nat)
    ensures since <= now ==> WaitedSecs(now, since) * 1_000_000_000 <= now - since
                             < (WaitedSecs(now, since) + 1) * 1_000_000_000
    ensures now <= since ==> WaitedSecs(now, since) == 0
  {
  }

  /** `a` comes before `b`: a point of priority is worth twenty seconds of waiting. */
  predicate Leads(a: Item, b: Item, now: nat) {
    20 * a.priority + WaitedSecs(now, a.enqueuedAt) > 20 * b.priority + WaitedSecs(now, b.enqueuedAt)
  }

  /**
   The item taken is the one that leads every other, with ties going to the front: so enough
   priority does overtake, and nothing else does.
   */
  lemma TopLeads(pending: seq<Item>, now: nat, top: nat)
    requires top < |pending|
    ensures IsTop(pending, now, top) <==> forall j :: 0 <= j < |pending| && j != top ==>
              Leads(pending[top], pending[j], now) || (top < j && !Leads(pending[j], pending[top], now))
  {
    forall j | 0 <= j < |pending|
      ensures Leads(pending[top], pending[j], now) <==> Score(pending[j], now) < Score(pending[top], now)
      ensures Leads(pending[j], pending[top], now) <==> Score(pending[top], now) < Score(pending[j], now)
    {
      LeadsByScore(pending[top], pending[j], now);
      LeadsByScore(pending[j], pending[top], now);
    }
  }

  lemma LeadsByScore(a: Item, b: Item, now: nat)
    ensures Leads(a, b, now) <==> Score(b, now) < Score(a, now)
  {
  }

  /** Whoever is taken over an earlier item leads it by more than the extra wait is worth. */
  lemma TopIsFair(pending: seq<Item>, now: nat, top: nat, other: nat)
    requires IsTop(pending, now, top) && other < |pending| && other != top
    requires InLine(pending) && Past(pending, now)
    ensures FairlyBefore(pending[top], pending[other])
  {
    if other < top {
      var a, b := pending[top], pending[other];
      assert Score(b, now) < Score(a, now);
      DivSuper(now - a.enqueuedAt, a.enqueuedAt - b.enqueuedAt);
    }
  }

  lemma TakeIsFair(started: seq<Item>, pending: seq<Item>, now: nat, top: nat)
    requires IsTop(pending, now, top) && InLine(pending) && Past(pending, now)
    requires FairAmong(started) && FairTo(started, pending)
    ensures FairAmong(started + [pending[top]]) && FairTo(started + [pending[top]], Without(pending, top))
  {
    var rest := Without(pending, top);
    forall j | 0 <= j < |rest| ensures
      FairlyBefore(pending[top], rest[j]) && forall i :: 0 <= i < |started| ==> FairlyBefore(started[i], rest[j])
    {
      var k := if j < top then j else j + 1;
      assert rest[j] == pending[k];
      TopIsFair(pending, now, top, k);
    }
  }

  lemma StepKeepsFairness(s: State, e: Event)
    requires Lined(s) && FairStarts(s) && Enabled(s, e)
    ensures FairStarts(Step(s, e))
  {
    match e
    case Submit(_, _, _, _) =>
    case Abort(id) =>
      if IndexOf(s.pending, id).Some? {
        FairToFewer(s.started, s.pending, IndexOf(s.pending, id).value);
      }
    case Take(w, now, top) =>
      if s.pending != [] {
        TakeIsFair(s.started, s.pending, now, top);
      }
    case _ =>
  }

  lemma FairToFewer(started: seq<Item>, pending: seq<Item>, i: nat)
    requires i < |pending| && FairTo(started, pending)
    ensures FairTo(started, Without(pending, i))
  {
    var rest := Without(pending, i);
    assert forall k :: 0 <= k < |rest| ==> rest[k] == pending[if k < i then k else k + 1];
  }

  lemma PlacedAfterRemoval(reported: map<nat, nat>, pending: seq<Item>, i: nat, from: nat)
    requires i < |pending| && InLine(pending) && Placed(reported, pending) && from <= i
    ensures Placed(Report(reported, Without(pending, i), from), Without(pending, i))
  {
    var rest := Without(pending, i);
    WithoutKeepsLine(pending, i);
    ReportAll(reported, rest, from);
    var r := Report(reported, rest, from);
    forall k | 0 <= k < |rest| && rest[k].watched
      ensures if rest[k].id in r then r[rest[k].id] == k + 1 else k == 0
    {
      if k < from {
        assert rest[k] == pending[k];
      }
    }
  }

  lemma ReportKnows(reported: map<nat, nat>, pending: seq<Item>, from: nat, nextId: nat)
    requires DistinctIds(pending) && Known(pending, nextId)
    requires forall id :: id in reported ==> id < nextId
    ensures forall id :: id in Report(reported, pending, from) ==> id < nextId
  {
    ReportAll(reported, pending, from);
  }

  lemma RemovalKeepsPositions(s: State, i: nat, from: nat)
    requires Lined(s) && Positions(s) && i < |s.pending| && from <= i
    ensures var rest := Without(s.pending, i);
            var r := Report(s.reported, rest, from);
            Placed(r, rest) && forall id :: id in r ==> id < s.nextId
  {
    PlacedAfterRemoval(s.reported, s.pending, i, from);
    WithoutKeepsLine(s.pending, i);
    MembersOnly(Without(s.pending, i), s.pending, s.nextId, s.clock);
    ReportKnows(s.reported, Without(s.pending, i), from, s.nextId);
  }

  lemma StepKeepsPositions(s: State, e: Event)
    requires OneWorker(s) && Lined(s) && Positions(s) && Enabled(s, e)
    ensures Positions(Step(s, e))
  {
    match e
    case Abort(id) =>
      var i := IndexOf(s.pending, id);
      if i.Some? {
        RemovalKeepsPositions(s, i.value, i.value);
      }
    case Take(w, now, top) =>
      if s.pending != [] {
        RemovalKeepsPositions(s, top, 0);
      }
    case _ =>
  }

  lemma StepKeepsInv(s: State, e: Event)
    requires Inv(s) && Enabled(s, e)
    ensures Inv(Step(s, e))
  {
    StepKeepsWorker(s, e);
    StepKeepsCensus(s, e);
    StepKeepsLine(s, e);
    StepKeepsFairness(s, e);
    StepKeepsPositions(s, e);
  }

  // ---- Whole runs

  ghost predicate Possible(s: State, events: seq<Event>)
    decreases |events|
  {
    events == [] || (Enabled(s, events[0]) && Possible(Step(s, events[0]), events[1..]))
  }

  ghost function Run(s: State, events: seq<Event>): State
    requires Possible(s, events)
    decreases |events|
  {
    if events == [] then s else Run(Step(s, events[0]), events[1..])
  }

  lemma {:induction false} RunKeepsInv(s: State, events: seq<Event>)
    requires Inv(s) && Possible(s, events)
    ensures Inv(Run(s, events))
    decreases |events|
  {
    if events != [] {
      StepKeepsInv(s, events[0]);
      RunKeepsInv(Step(s, events[0]), events[1..]);
    }
  }

  /**
   In every run, each accepted item is waiting, running, owed an answer or answered, in just
   one of these ways and answered at most once; a worker is live exactly when `processing` is
   set, there is never a second one, and none is missing while an item waits.
   */
  lemma QueueSafety(events: seq<Event>)
    requires Possible(INITIAL, events)
    ensures var s := Run(INITIAL, events);
            && Inv(s)
            && (forall id :: 1 <= id < s.nextId ==> Census(s)[id] == 1)
            && (forall i, j :: 0 <= i < j < |s.answers| ==> s.answers[i].id != s.answers[j].id)
            && |s.workers| <= 1
            && (s.processing <==> |s.workers| == 1)
            && (s.pending != [] ==> |s.workers| == 1)
  {
    InitialInv();
    RunKeepsInv(INITIAL, events);
    var s := Run(INITIAL, events);
    forall i, j | 0 <= i < j < |s.answers| ensures s.answers[i].id != s.answers[j].id {
      AnsweredOnce(s, i, j);
    }
  }

  lemma InitialInv()
    ensures Inv(INITIAL)
  {
    assert ItemIds([]) == [] && AnswerIds([]) == [];
  }

  lemma AnsweredOnce(s: State, i: nat, j: nat)
    requires EachOnce(s) && i < j < |s.answers|
    ensures s.answers[i].id != s.answers[j].id
  {
    var ids := AnswerIds(s.answers);
    assert multiset(ids)[ids[i]] <= Census(s)[ids[i]] <= 1;
    if ids[i] == ids[j] {
      CountedTwice(ids, i, j);
      assert false;
    }
  }

  /**
   Starts are fair in every run: of two items with one priority the one submitted first
   starts first, and a later item overtakes an earlier one only if each twenty seconds
   between their submissions are outweighed by a point of priority.
   */
  lemma StartsAreFair(events: seq<Event>, i: nat, j: nat)
    requires Possible(INITIAL, events)
    requires var s := Run(INITIAL, events); i < j < |s.started|
    ensures var s := Run(INITIAL, events);
            var a, b := s.started[i], s.started[j];
            && (a.priority == b.priority ==> a.id < b.id)
            && (a.id > b.id ==> 20 * (a.priority - b.priority) > WaitedSecs(a.enqueuedAt, b.enqueuedAt))
  {
    InitialInv();
    RunKeepsInv(INITIAL, events);
    RunStartsOnce(INITIAL, events);
  }

  // Started items were accepted once, so their ids differ.

  ghost predicate StartsOnce(s: State) {
    && (forall i, j :: 0 <= i < j < |s.started| ==> s.started[i].id != s.started[j].id)
    && (forall i, j :: 0 <= i < |s.started| && 0 <= j < |s.pending| ==> s.started[i].id != s.pending[j].id)
  }

  lemma StepStartsOnce(s: State, e: Event)
    requires Lined(s) && Known(s.started, s.nextId) && StartsOnce(s) && Enabled(s, e)
    ensures StartsOnce(Step(s, e))
  {
    match e
    case Abort(id) =>
      if IndexOf(s.pending, id).Some? {
        StartedApart(s.started, s.pending, IndexOf(s.pending, id).value);
      }
    case Take(w, now, top) => TakeStartsOnce(s, e);
    case _ =>
  }

  lemma TakeStartsOnce(s: State, e: Event)
    requires Lined(s) && StartsOnce(s) && e.Take? && Enabled(s, e)
    ensures StartsOnce(Step(s, e))
  {
    if s.pending != [] {
      StartedApart(s.started, s.pending, e.top);
    }
  }

  lemma StartedApart(started: seq<Item>, pending: seq<Item>, k: nat)
    requires k < |pending| && InLine(pending)
    requires forall i, j :: 0 <= i < |started| && 0 <= j < |pending| ==> started[i].id != pending[j].id
    ensures var rest := Without(pending, k);
            && (forall i, j :: 0 <= i < |started| && 0 <= j < |rest| ==> started[i].id != rest[j].id)
            && (forall j :: 0 <= j < |rest| ==> pending[k].id != rest[j].id)
  {
    var rest := Without(pending, k);
    assert forall j :: 0 <= j < |rest| ==> rest[j] == pending[if j < k then j else j + 1];
  }

  lemma {:induction false} RunStartsOnce(s: State, events: seq<Event>)
    requires Inv(s) && StartsOnce(s) && Possible(s, events)
    ensures StartsOnce(Run(s, events))
    decreases |events|
  {
    if events != [] {
      StepStartsOnce(s, events[0]);
      StepKeepsInv(s, events[0]);
      RunStartsOnce(Step(s, events[0]), events[1..]);
    }
  }

  // ---- Progress

  predicate WorkerEvent(e: Event) { e.Take? || e.Settle? || e.Finish? }

  predicate Accepting(e: Event) { e.Submit? && !e.aborted }

  /** Worker steps left before the queue is idle, if nothing more is submitted. */
  function Work(s: State): nat {
    3 * |s.pending|
    + if s.workers == [] then 0
      else match s.workers[0]
           case Taking => 1
           case Running(_) => 3
           case Settled(_) => 2
  }

  function WorkerEvents(events: seq<Event>): nat {
    if events == [] then 0 else (if WorkerEvent(events[0]) then 1 else 0) + WorkerEvents(events[1..])
  }

  /** While an item waits or a task runs, the worker has a step to take: nothing is stuck. */
  lemma WorkerNeverStuck(s: State)
    requires Inv(s) && s.processing
    ensures exists e :: WorkerEvent(e) && Enabled(s, e)
  {
    match s.workers[0]
    case Taking =>
      if s.pending == [] {
        assert Enabled(s, Take(0, s.clock, 0));
      } else {
        var top := ATop(s.pending, s.clock);
        assert Enabled(s, Take(0, s.clock, top));
      }
    case Running(_) => assert Enabled(s, Settle(0));
    case Settled(_) => assert Enabled(s, Finish(0));
  }

  lemma {:induction false} ATop(pending: seq<Item>, now: nat) returns (top: nat)
    requires pending != []
    ensures IsTop(pending, now, top)
  {
    var last := |pending| - 1;
    if last == 0 {
      top := 0;
    } else {
      top := ATop(pending[..last], now);
      assert forall j :: 0 <= j < last ==> pending[..last][j] == pending[j];
      if Score(pending[last], now) > Score(pending[top], now) {
        top := last;
      }
    }
  }

  lemma StepWork(s: State, e: Event)
    requires OneWorker(s) && Enabled(s, e) && !Accepting(e)
    ensures Work(Step(s, e)) + (if WorkerEvent(e) then 1 else 0) <= Work(s)
  {
  }

  /**
   Without further submissions the worker takes at most `Work` steps, whatever aborts, clears
   and deliveries come between, and once it has no step left no item waits and none runs.
   */
  lemma {:induction false} QueueDrains(s: State, events: seq<Event>)
    requires Inv(s) && Possible(s, events)
    requires forall e :: e in events ==> !Accepting(e)
    ensures WorkerEvents(events) + Work(Run(s, events)) <= Work(s)
    ensures Work(s) == 0 <==> s.pending == [] && !s.processing
    decreases |events|
  {
    if events != [] {
      var next := Step(s, events[0]);
      StepKeepsInv(s, events[0]);
      StepWork(s, events[0]);
      QueueDrains(next, events[1..]);
    }
  }

  /** In every run the last position a waiting item was told is its index plus one. */
  lemma PositionsAreCurrent(events: seq<Event>, i: nat)
    requires Possible(INITIAL, events) && i < |Run(INITIAL, events).pending|
    requires Run(INITIAL, events).pending[i].watched
    ensures var s := Run(INITIAL, events);
            var id := s.pending[i].id;
            (id in s.reported ==> s.reported[id] == i + 1) && (i > 0 ==> id in s.reported)
  {
    InitialInv();
    RunKeepsInv(INITIAL, events);
  }

  // ---- The queue itself

  /**
   The fields under the mutex, and a ghost record of what has become of each item. Every
   section is proved to be one `Step`, so `StepKeepsInv` and the run lemmas speak of it.
   */
  class SequentialRipQueue {
    var pending: seq<Item>
    var active: Option<nat>
    var processing: bool
    var nextId: nat
    ghost var workers: seq<Phase>
    ghost var owed: seq<Answer>
    ghost var answers: seq<Answer>
    ghost var started: seq<Item>
    ghost var reported: map<nat, nat>
    ghost var clock: nat

    ghost function Snapshot(): State
      reads this
    {
      State(pending, active, processing, nextId, workers, owed, answers, started, reported, clock)
    }

    constructor ()
      ensures Snapshot() == INITIAL
    {
      pending, active, processing, nextId := [], None, false, 1;
      workers, owed, answers, started, reported, clock := [], [], [], [], map[], 0;
    }

    /** `submit`: whether the item was accepted, and whether this call spawns the worker. */
    method Submit(priority: int, at: nat, watched: bool, aborted: bool)
      returns (accepted: bool, spawned: bool)
      requires clock <= at
      modifies this
      ensures Snapshot() == Step(old(Snapshot()), Event.Submit(priority, at, watched, aborted))
      ensures accepted == !aborted && spawned == (accepted && !old(processing))
      ensures aborted ==> pending == old(pending) && nextId == old(nextId) && processing == old(processing)
      ensures !aborted ==>
                && pending == old(pending) + [Item(old(nextId), priority, at, watched)]
                && nextId == old(nextId) + 1 && processing
      ensures reported
           == if accepted && !spawned && watched then old(reported)[old(nextId) := |pending|] else old(reported)
    {
      clock := at;
      if aborted {
        return false, false;
      }
      var id := nextId;
      nextId := nextId + 1;
      spawned := !processing;
      processing := true;
      var position := |pending| + 1;
      pending := pending + [Item(id, priority, at, watched)];
      if spawned {
        workers := workers + [Taking];
      } else if watched {
        reported := reported[id := position];
      }
      accepted := true;
    }

    method Clear()
      modifies this
      ensures Snapshot() == Step(old(Snapshot()), Event.Clear)
      ensures pending == [] && processing == old(processing) && active == old(active)
      ensures |owed| == |old(owed)| + |old(pending)| && owed[..|old(owed)|] == old(owed)
      ensures forall i :: 0 <= i < |old(pending)| ==> owed[|old(owed)| + i] == Answer(old(pending)[i].id, Cleared)
    {
      owed := owed + AllCleared(pending);
      pending := [];
    }

    /** `position`: the first pending item with this id. */
    method FindPending(id: nat) returns (r: Option<nat>)
      ensures r == IndexOf(pending, id)
    {
      var i := 0;
      while i < |pending|
        invariant 0 <= i <= |pending|
        invariant IndexOf(pending, id)
               == match IndexOf(pending[i..], id) case None => None case Some(k) => Some(i + k)
      {
        if pending[i].id == id {
          return Some(i);
        }
        i := i + 1;
      }
      return None;
    }

    /** `abort_item`: a waiting item leaves the queue and is owed its answer; any other id changes nothing. */
    method AbortItem(id: nat)
      modifies this
      ensures Snapshot() == Step(old(Snapshot()), Event.Abort(id))
      ensures (forall i :: 0 <= i < |old(pending)| ==> old(pending)[i].id != id) ==> Snapshot() == old(Snapshot())
      ensures forall i :: FirstWith(old(pending), i, id) ==>
                && pending == old(pending)[..i] + old(pending)[i + 1..]
                && owed == old(owed) + [Answer(id, Aborted)]
                && active == old(active) && processing == old(processing)
      ensures DistinctIds(old(pending)) ==> forall i :: 0 <= i < |pending| ==> pending[i].id != id
    {
      var found := FindPending(id);
      if found.Some? {
        pending := Without(pending, found.value);
        owed := owed + [Answer(id, Aborted)];
        reported := Report(reported, pending, found.value);
      }
    }

    /** `take_next`: the scan that keeps the incumbent unless strictly beaten. */
    method TakeNext(now: nat) returns (top: Option<nat>)
      ensures pending == [] ==> top == None
      ensures pending != [] ==> top.Some? && IsTop(pending, now, top.value)
    {
      top := None;
      var bestScore := 0;
      for index := 0 to |pending|
        invariant index == 0 ==> top == None
        invariant index > 0 ==>
                    && top.Some? && top.value < index && bestScore == Score(pending[top.value], now)
                    && (forall j :: 0 <= j < index ==> Score(pending[j], now) <= bestScore)
                    && (forall j :: 0 <= j < top.value ==> Score(pending[j], now) < bestScore)
      {
        var score := Score(pending[index], now);
        if top.None? || score > bestScore {
          top, bestScore := Some(index), score;
        }
      }
    }

    /** The first section of worker `w`: take the top item, or stop. */
    method WorkerTake(ghost w: nat, now: nat) returns (item: Option<Item>, ghost top: nat)
      requires clock <= now && w < |workers| && workers[w].Taking?
      modifies this
      ensures Enabled(old(Snapshot()), Take(w, now, top))
      ensures Snapshot() == Step(old(Snapshot()), Take(w, now, top))
      ensures item == if old(pending) == [] then None else Some(old(pending)[top])
      ensures item.None? ==> pending == [] && !processing && active == None
      ensures item.Some? ==>
                && pending == old(pending)[..top] + old(pending)[top + 1..]
                && active == Some(item.value.id) && processing == old(processing)
    {
      hide Report, AllCleared, IndexOf;
      var best := TakeNext(now);
      if best.None? {
        active, processing := None, false;
        workers, clock := Without(workers, w), now;
        return None, 0;
      }
      item, top := Some(pending[best.value]), best.value;
      pending := Without(pending, best.value);
      active := Some(item.value.id);
      workers, clock := workers[w := Running(item.value.id)], now;
      started := started + [item.value];
      reported := Report(reported, pending, 0);
    }

    /** The last section of worker `w`: whether it stops instead of taking again. */
    method WorkerFinish(ghost w: nat) returns (stopped: bool)
      requires w < |workers| && workers[w].Settled?
      modifies this
      ensures Snapshot() == Step(old(Snapshot()), Finish(w))
      ensures stopped == (old(pending) == [])
      ensures pending == old(pending) && active == None && processing == (old(processing) && !stopped)
    {
      active := None;
      if pending == [] {
        processing := false;
        workers := Without(workers, w);
        return true;
      }
      workers := workers[w := Taking];
      return false;
    }
  }
}
