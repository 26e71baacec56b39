/** The progress throttle of crates/bot/src/main.rs. */
module Throttle {
  import opened Prelude

  const INTERVAL: nat := 250

  /** A 32-bit float, as far as equality goes: not-a-number equals nothing, both zeros are equal. */
  datatype Float = NaN | Infinite(negative: bool) | Finite(value: real)

  predicate FloatEq(a: Option<Float>, b: Option<Float>) {
    match (a, b)
    case (None, None) => true
    case (Some(x), Some(y)) => !x.NaN? && x == y
    case _ => false
  }

  datatype DownloadLane = DownloadLane(
    stage: string, title: Option<string>, artist: Option<string>, artworkUrl: Option<string>, bytesDone: Option<nat>,
    bytesTotal: Option<nat>, percent: Option<Float>, codec: Option<string>, trackIndex: Option<nat>,
    totalTracks: Option<nat>)

  datatype UploadLane = UploadLane(
    stage: string, title: Option<string>, artist: Option<string>, artworkUrl: Option<string>, bytesDone: Option<nat>,
    bytesTotal: Option<nat>, percent: Option<Float>, codec: Option<string>, trackIndex: Option<nat>,
    totalTracks: Option<nat>,
    workerId: Option<nat>, dcId: Option<int>)

  datatype Progress = Progress(
    jobStage: Option<string>, download: Option<DownloadLane>, upload: Option<UploadLane>, uploads: seq<UploadLane>,
    percent: Option<Float>, currentTrackTitle: Option<string>, currentTrackArtist: Option<string>,
    currentTrackArtworkUrl: Option<string>, currentTrackIndex: Option<nat>, totalTracks: Option<nat>,
    completedTracks: Option<nat>, failedTracks: Option<nat>)

  // ---- Equality of snapshots

  predicate DownloadEq(a: Option<DownloadLane>, b: Option<DownloadLane>) {
    match (a, b)
    case (None, None) => true
    case (Some(x), Some(y)) => FloatEq(x.percent, y.percent) && x == y.(percent := x.percent)
    case _ => false
  }

  predicate LaneEq(x: UploadLane, y: UploadLane) {
    FloatEq(x.percent, y.percent) && x == y.(percent := x.percent)
  }

  predicate UploadEq(a: Option<UploadLane>, b: Option<UploadLane>) {
    match (a, b)
    case (None, None) => true
    case (Some(x), Some(y)) => LaneEq(x, y)
    case _ => false
  }

  /** The derived `==` of snapshots. */
  predicate Equal(p: Progress, q: Progress) {
    && p.jobStage == q.jobStage && DownloadEq(p.download, q.download) && UploadEq(p.upload, q.upload)
    && |p.uploads| == |q.uploads| && (forall i :: 0 <= i < |p.uploads| ==> LaneEq(p.uploads[i], q.uploads[i]))
    && FloatEq(p.percent, q.percent) && p.currentTrackTitle == q.currentTrackTitle
    && p.currentTrackArtist == q.currentTrackArtist && p.currentTrackArtworkUrl == q.currentTrackArtworkUrl
    && p.currentTrackIndex == q.currentTrackIndex && p.totalTracks == q.totalTracks
    && p.completedTracks == q.completedTracks && p.failedTracks == q.failedTracks
  }

  // ---- Phases

  predicate SameDownloadPhase(a: Option<DownloadLane>, b: Option<DownloadLane>) {
    match (a, b)
    case (Some(x), Some(y)) => x.stage == y.stage && x.title == y.title && x.artist == y.artist
    case (None, None) => true
    case _ => false
  }

  predicate SameLanePhase(x: UploadLane, y: UploadLane) {
    x.stage == y.stage && x.title == y.title && x.artist == y.artist && x.workerId == y.workerId && x.dcId == y.dcId
  }

  predicate SameUploadPhase(a: Option<UploadLane>, b: Option<UploadLane>) {
    match (a, b)
    case (Some(x), Some(y)) => SameLanePhase(x, y)
    case (None, None) => true
    case _ => false
  }

  /** `same_progress_phase`. */
  predicate SamePhase(p: Progress, q: Progress) {
    && SameDownloadPhase(p.download, q.download)
    && SameUploadPhase(p.upload, q.upload)
    && |p.uploads| == |q.uploads| && (forall i :: 0 <= i < |p.uploads| ==> SameLanePhase(p.uploads[i], q.uploads[i]))
    && p.jobStage == q.jobStage && p.currentTrackTitle == q.currentTrackTitle
    && p.currentTrackArtist == q.currentTrackArtist && p.currentTrackIndex == q.currentTrackIndex
    && p.totalTracks == q.totalTracks && p.completedTracks == q.completedTracks
  }

  datatype LanePhase = LanePhase(stage: string, title: Option<string>, artist: Option<string>,
        workerId: Option<nat>, dcId: Option<int>)

  /** What a snapshot's phase consists of. */
  datatype Phase = Phase(
    jobStage: Option<string>, download: Option<LanePhase>, upload: Option<LanePhase>, uploads: seq<LanePhase>,
    currentTrackTitle: Option<string>, currentTrackArtist: Option<string>, currentTrackIndex: Option<nat>,
    totalTracks: Option<nat>, completedTracks: Option<nat>)

  function LanePhaseOf(x: UploadLane): LanePhase {
    LanePhase(x.stage, x.title, x.artist, x.workerId, x.dcId)
  }

  function LanePhases(lanes: seq<UploadLane>): (r: seq<LanePhase>)
    ensures |r| == |lanes| && forall i :: 0 <= i < |lanes| ==> r[i] == LanePhaseOf(lanes[i])
  {
    if lanes == [] then [] else LanePhases(lanes[..|lanes| - 1]) + [LanePhaseOf(lanes[|lanes| - 1])]
  }

  function PhaseOf(p: Progress): Phase {
    Phase(p.jobStage,
          if p.download.None? then None
          else Some(LanePhase(p.download.value.stage, p.download.value.title, p.download.value.artist, None, None)),
          if p.upload.None? then None else Some(LanePhaseOf(p.upload.value)),
          LanePhases(p.uploads),
          p.currentTrackTitle, p.currentTrackArtist, p.currentTrackIndex, p.totalTracks, p.completedTracks)
  }

  /** The comparison is the equality of phases, so being in one phase is an equivalence. */
  lemma SamePhaseIsEquality(p: Progress, q: Progress)
    ensures SamePhase(p, q) <==> PhaseOf(p) == PhaseOf(q)
  {
    if PhaseOf(p) == PhaseOf(q) {
      forall i | 0 <= i < |p.uploads| ensures SameLanePhase(p.uploads[i], q.uploads[i]) {
        assert LanePhases(p.uploads)[i] == LanePhases(q.uploads)[i];
      }
    }
  }

  predicate NoNaN(percent: Option<Float>) {
    percent != Some(NaN)
  }

  /** Snapshots compare equal exactly when they are the same and hold no not-a-number. */
  lemma EqualExactly(p: Progress, q: Progress)
    ensures Equal(p, q) <==>
            && p == q && NoNaN(p.percent)
            && (p.download.Some? ==> NoNaN(p.download.value.percent))
            && (p.upload.Some? ==> NoNaN(p.upload.value.percent))
            && forall i :: 0 <= i < |p.uploads| ==> NoNaN(p.uploads[i].percent)
  {
    if Equal(p, q) {
      forall i | 0 <= i < |p.uploads| ensures p.uploads[i] == q.uploads[i] && NoNaN(p.uploads[i].percent) {
        assert LaneEq(p.uploads[i], q.uploads[i]);
      }
      assert p.uploads == q.uploads;
    }
  }

  /** A lane with what may change within a phase left out: artwork, bytes, percentage, codec and track numbers. */
  function BareLane(x: UploadLane): UploadLane {
    UploadLane(x.stage, x.title, x.artist, None, None, None, None, None, None, None, x.workerId, x.dcId)
  }

  function BareDownload(x: DownloadLane): DownloadLane {
    DownloadLane(x.stage, x.title, x.artist, None, None, None, None, None, None, None)
  }

  /** A snapshot with what may change within a phase left out: of its own, artwork, percentage and failed tracks. */
  function Bare(p: Progress): Progress {
    Progress(p.jobStage, if p.download.None? then None else Some(BareDownload(p.download.value)),
             if p.upload.None? then None else Some(BareLane(p.upload.value)),
             seq(|p.uploads|, i requires 0 <= i < |p.uploads| => BareLane(p.uploads[i])),
             None, p.currentTrackTitle, p.currentTrackArtist, None, p.currentTrackIndex, p.totalTracks,
             p.completedTracks, None)
  }

  lemma PhaseExactly(p: Progress, q: Progress)
    ensures SamePhase(p, q) <==> Bare(p) == Bare(q)
  {
    if Bare(p) == Bare(q) {
      forall i | 0 <= i < |p.uploads| ensures SameLanePhase(p.uploads[i], q.uploads[i]) {
        assert Bare(p).uploads[i] == Bare(q).uploads[i];
      }
    }
  }

  // ---- The throttle

  datatype Input = Input(now: nat, progress: Progress)

  /** The last emission, if any. */
  type Last = Option<Input>

  function Elapsed(now: nat, since: nat): nat {
    if now < since then 0 else now - since
  }

  predicate Emits(last: Last, x: Input) {
    || last.None?
    || !SamePhase(last.value.progress, x.progress)
    || (!Equal(last.value.progress, x.progress) && Elapsed(x.now, last.value.now) >= INTERVAL)
  }

  function Next(last: Last, x: Input): Last {
    if Emits(last, x) then Some(x) else last
  }

  class ProgressThrottle {
    var lastEmittedAt: Option<nat>
    var lastProgress: Option<Progress>

    constructor ()
      ensures Valid() && Value() == None
    {
      lastEmittedAt, lastProgress := None, None;
    }

    predicate Valid()
      reads this
    {
      lastEmittedAt.Some? <==> lastProgress.Some?
    }

    function Value(): Last
      requires Valid()
      reads this
    {
      if lastProgress.None? then None else Some(Input(lastEmittedAt.value, lastProgress.value))
    }

    /** `should_emit`. */
    method ShouldEmit(now: nat, progress: Progress) returns (r: bool)
      requires Valid()
      modifies this
      ensures Valid() && r == Emits(old(Value()), Input(now, progress))
      ensures Value() == Next(old(Value()), Input(now, progress))
    {
      if lastProgress.None? {
        lastEmittedAt, lastProgress := Some(now), Some(progress);
        return true;
      }
      var previous := lastProgress.value;
      var phaseChanged := !SamePhase(previous, progress);
      var progressChanged := !Equal(previous, progress);
      var intervalElapsed := lastEmittedAt.Some? && Elapsed(now, lastEmittedAt.value) >= INTERVAL;
      if phaseChanged || (progressChanged && intervalElapsed) {
        lastEmittedAt, lastProgress := Some(now), Some(progress);
        return true;
      }
      return false;
    }
  }

  // ---- Runs

  function LastAfter(inputs: seq<Input>): Last {
    if inputs == [] then None else Next(LastAfter(inputs[..|inputs| - 1]), inputs[|inputs| - 1])
  }

  function Emitted(inputs: seq<Input>): seq<Input> {
    if inputs == [] then []
    else
      var before := inputs[..|inputs| - 1];
      var x := inputs[|inputs| - 1];
      Emitted(before) + if Emits(LastAfter(before), x) then [x] else []
  }

  function Phases(inputs: seq<Input>): (r: seq<Phase>)
    ensures |r| == |inputs| && forall i :: 0 <= i < |inputs| ==> r[i] == PhaseOf(inputs[i].progress)
  {
    if inputs == [] then [] else Phases(inputs[..|inputs| - 1]) + [PhaseOf(inputs[|inputs| - 1].progress)]
  }

  /** The sequence without immediate repeats. */
  function Collapse<T(==)>(s: seq<T>): seq<T> {
    if |s| <= 1 then s
    else if s[|s| - 1] == s[|s| - 2] then Collapse(s[..|s| - 1])
    else Collapse(s[..|s| - 1]) + [s[|s| - 1]]
  }

  lemma CollapseAppend<T>(s: seq<T>, x: T)
    ensures Collapse(s + [x]) == if s != [] && s[|s| - 1] == x then Collapse(s) else Collapse(s) + [x]
  {
    var t := s + [x];
    assert t[..|t| - 1] == s && t[|t| - 1] == x;
    if s == [] {
      assert Collapse(t) == t;
    } else {
      assert t[|t| - 2] == s[|s| - 1];
    }
  }

  /** Two sequences that collapse alike and end alike still do after `x`, even if one leaves out a repeat. */
  lemma CollapseStep<T>(shown: seq<T>, all: seq<T>, x: T, emits: bool)
    requires Collapse(shown) == Collapse(all) && (shown == [] <==> all == [])
    requires all != [] ==> shown[|shown| - 1] == all[|all| - 1]
    requires !emits ==> all != [] && all[|all| - 1] == x
    ensures Collapse(if emits then shown + [x] else shown) == Collapse(all + [x])
  {
    CollapseAppend(shown, x);
    CollapseAppend(all, x);
  }

  /** The state is the last emission, which is in the phase of the last input. */
  lemma {:induction false} LastEmission(inputs: seq<Input>)
    ensures LastAfter(inputs) == if Emitted(inputs) == [] then None else Some(Emitted(inputs)[|Emitted(inputs)| - 1])
    ensures Emitted(inputs) == [] <==> inputs == []
    ensures inputs != [] ==> PhaseOf(LastAfter(inputs).value.progress) == PhaseOf(inputs[|inputs| - 1].progress)
  {
    if inputs != [] {
      var before, x := inputs[..|inputs| - 1], inputs[|inputs| - 1];
      LastEmission(before);
      var last := LastAfter(before);
      if last.Some? {
        SamePhaseIsEquality(last.value.progress, x.progress);
      }
    }
  }

  lemma PhasesAppend(a: seq<Input>, x: Input)
    ensures Phases(a + [x]) == Phases(a) + [PhaseOf(x.progress)]
  {
  }

  /** An input is left out only if it stays in the phase of the input before it. */
  lemma LeftOutInPhase(before: seq<Input>, x: Input)
    ensures !Emits(LastAfter(before), x) ==>
              before != [] && PhaseOf(before[|before| - 1].progress) == PhaseOf(x.progress)
  {
    LastEmission(before);
    if before != [] {
      SamePhaseIsEquality(LastAfter(before).value.progress, x.progress);
    }
  }

  lemma SameLastPhase(inputs: seq<Input>)
    requires inputs != []
    ensures Emitted(inputs) != []
    ensures var shown, all := Phases(Emitted(inputs)), Phases(inputs); shown[|shown| - 1] == all[|all| - 1]
  {
    LastEmission(inputs);
  }

  lemma EmittedStep(before: seq<Input>, x: Input)
    ensures Phases(Emitted(before + [x])) ==
            if Emits(LastAfter(before), x) then Phases(Emitted(before)) + [PhaseOf(x.progress)]
              else Phases(Emitted(before))
  {
    assert (before + [x])[..|before|] == before;
    PhasesAppend(Emitted(before), x);
  }

  lemma PreservedStep(inputs: seq<Input>, before: seq<Input>, x: Input)
    requires inputs == before + [x] && Preserved(before)
    ensures Preserved(inputs)
  {
    if before == [] {
      assert Emitted(before) == [];
    } else {
      SameLastPhase(before);
    }
    LeftOutInPhase(before, x);
    EmittedStep(before, x);
    PhasesAppend(before, x);
    CollapseStep(Phases(Emitted(before)), Phases(before), PhaseOf(x.progress), Emits(LastAfter(before), x));
  }

  ghost predicate Preserved(inputs: seq<Input>) {
    Collapse(Phases(Emitted(inputs))) == Collapse(Phases(inputs))
  }

  lemma NothingPreserved()
    ensures Preserved([])
  {
  }

  lemma LastPreserved(inputs: seq<Input>, before: seq<Input>)
    requires inputs != [] && before == inputs[..|inputs| - 1] && Preserved(before)
    ensures Preserved(inputs)
  {
    hide Preserved;
    assert inputs == before + [inputs[|inputs| - 1]];
    PreservedStep(inputs, before, inputs[|inputs| - 1]);
  }

  lemma {:induction false} AllPreserved(inputs: seq<Input>)
    ensures Preserved(inputs)
  {
    if |inputs| == 0 {
      assert inputs == [];
      NothingPreserved();
    } else {
      var before := inputs[..|inputs| - 1];
      AllPreserved(before);
      LastPreserved(inputs, before);
    }
  }

  /** Once repeats are dropped, the emissions go through the same phases as the inputs. */
  lemma PhasesPreserved(inputs: seq<Input>)
    ensures Collapse(Phases(Emitted(inputs))) == Collapse(Phases(inputs))
  {
    AllPreserved(inputs);
  }

  /** Neighbouring emissions of one phase differ and are at least the interval apart. */
  lemma {:induction false} EmissionsApart(inputs: seq<Input>, i: nat)
    requires i + 1 < |Emitted(inputs)|
    ensures var a, b := Emitted(inputs)[i], Emitted(inputs)[i + 1];
            SamePhase(a.progress, b.progress) ==> !Equal(a.progress, b.progress) && b.now >= a.now + 250
  {
    var before := inputs[..|inputs| - 1];
    LastEmission(before);
    if i + 1 < |Emitted(before)| {
      EmissionsApart(before, i);
    }
  }

  /** What was last shown is never far behind: it is equal to the last input, or less than the interval old. */
  lemma EmissionsFresh(inputs: seq<Input>)
    requires inputs != []
    ensures var x, last := inputs[|inputs| - 1], LastAfter(inputs).value;
            && SamePhase(last.progress, x.progress)
            && (last == x || Equal(last.progress, x.progress) || x.now < last.now + 250)
  {
    LastEmission(inputs);
    SamePhaseIsEquality(LastAfter(inputs).value.progress, inputs[|inputs| - 1].progress);
  }
}
