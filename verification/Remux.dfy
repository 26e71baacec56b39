/** The sample timeline check of crates/media/src/remux.rs. */
module Remux {
  import opened Prelude

  datatype SampleInfo = SampleInfo(
    index: nat, dts: nat, duration: nat, size: nat, descriptionIndex: nat, ctsOffset: int)

  datatype TimelineError = OutOfOrder | Discontinuous | EmptySample | DescriptionSwitch | CtsRange | Overflow

  /** Summed durations of the first `n` samples. */
  function Elapsed(samples: seq<SampleInfo>, n: nat): nat
    requires n <= |samples|
  {
    if n == 0 then 0 else Elapsed(samples, n - 1) + samples[n - 1].duration
  }

  ghost predicate GoodSample(samples: seq<SampleInfo>, i: nat)
    requires i < |samples|
  {
    var s := samples[i];
    && s.index == i && s.dts == Elapsed(samples, i)
    && s.duration > 0 && s.size > 0 && s.descriptionIndex == 1
    && I32_MIN <= s.ctsOffset <= I32_MAX
    && Elapsed(samples, i + 1) <= U64_MAX
  }

  /** The first check the sample fails, in the order of the loop. */
  ghost predicate FaultAt(samples: seq<SampleInfo>, i: nat, error: TimelineError) {
    && i < |samples|
    && var s := samples[i];
       match error
       case OutOfOrder => s.index != i
       case Discontinuous => s.index == i && s.dts != Elapsed(samples, i)
       case EmptySample => s.index == i && s.dts == Elapsed(samples, i) && s.duration * s.size == 0
       case DescriptionSwitch =>
         s.index == i && s.dts == Elapsed(samples, i) && s.duration * s.size > 0 && s.descriptionIndex != 1
       case CtsRange =>
         && s.index == i && s.dts == Elapsed(samples, i) && s.duration * s.size > 0 && s.descriptionIndex == 1
         && !(-2147483648 <= s.ctsOffset <= 2147483647)
       case Overflow =>
         && s.index == i && s.dts == Elapsed(samples, i) && s.duration * s.size > 0 && s.descriptionIndex == 1
         && -2147483648 <= s.ctsOffset <= 2147483647 && s.dts + s.duration >= 0x1_0000_0000_0000_0000
  }

  /**
   The loop accepts exactly the timelines in which every sample is numbered by its place,
   starts when all earlier samples end, is not empty and keeps the one description; it then
   ends at the total duration.
   */
  method CheckTimeline(samples: seq<SampleInfo>) returns (r: Result<nat, TimelineError>)
    ensures r.Ok? <==> forall i :: 0 <= i < |samples| ==> GoodSample(samples, i)
    ensures r.Ok? ==> r.value == Elapsed(samples, |samples|)
    // The error is that of the first sample at fault.
    ensures r.Err? ==>
              exists i: nat :: FaultAt(samples, i, r.error) && forall j :: 0 <= j < i ==> GoodSample(samples, j)
  {
    var expectedDts := 0;
    for i := 0 to |samples|
      invariant expectedDts == Elapsed(samples, i) <= U64_MAX
      invariant forall j :: 0 <= j < i ==> GoodSample(samples, j)
    {
      var sample := samples[i];
      assert Elapsed(samples, i + 1) == expectedDts + sample.duration;
      if sample.index != i {
        assert !GoodSample(samples, i);
        assert FaultAt(samples, i, OutOfOrder);
        return Err(OutOfOrder);
      }
      if sample.dts != expectedDts {
        assert !GoodSample(samples, i);
        assert FaultAt(samples, i, Discontinuous);
        return Err(Discontinuous);
      }
      if sample.duration == 0 || sample.size == 0 {
        assert !GoodSample(samples, i);
        assert FaultAt(samples, i, EmptySample);
        return Err(EmptySample);
      }
      if sample.descriptionIndex != 1 {
        assert !GoodSample(samples, i);
        assert FaultAt(samples, i, DescriptionSwitch);
        return Err(DescriptionSwitch);
      }
      if !(I32_MIN <= sample.ctsOffset <= I32_MAX) {
        assert !GoodSample(samples, i);
        assert FaultAt(samples, i, CtsRange);
        return Err(CtsRange);
      }
      if expectedDts + sample.duration > U64_MAX {
        assert !GoodSample(samples, i);
        assert FaultAt(samples, i, Overflow);
        return Err(Overflow);
      }
      expectedDts := expectedDts + sample.duration;
    }
    return Ok(expectedDts);
  }

  /** The samples follow one another from zero without gaps, end within 64 bits, and are each sound in themselves. */
  ghost predicate Tiles(samples: seq<SampleInfo>) {
    && (samples != [] ==> samples[0].dts == 0)
    && (forall i :: 0 <= i < |samples| - 1 ==> samples[i + 1].dts == samples[i].dts + samples[i].duration)
    && (forall i :: 0 <= i < |samples| ==> samples[i].dts + samples[i].duration < 0x1_0000_0000_0000_0000)
    && forall i :: 0 <= i < |samples| ==>
         var s := samples[i];
         && s.index == i && s.duration >= 1 && s.size >= 1 && s.descriptionIndex == 1
         && -2147483648 <= s.ctsOffset <= 2147483647
  }

  lemma {:induction false} TilesElapsed(samples: seq<SampleInfo>, i: nat)
    requires Tiles(samples) && i < |samples|
    ensures samples[i].dts == Elapsed(samples, i)
  {
    if i > 0 {
      TilesElapsed(samples, i - 1);
    }
  }

  /** What is accepted, said of neighbouring samples. */
  lemma AcceptedExactly(samples: seq<SampleInfo>)
    ensures (forall i :: 0 <= i < |samples| ==> GoodSample(samples, i)) <==> Tiles(samples)
  {
    if Tiles(samples) {
      forall i | 0 <= i < |samples| ensures GoodSample(samples, i) {
        TilesElapsed(samples, i);
      }
    }
    if forall i :: 0 <= i < |samples| ==> GoodSample(samples, i) {
      forall i | 0 <= i < |samples| - 1 ensures samples[i + 1].dts == samples[i].dts + samples[i].duration {
        TimelineTiles(samples, i);
      }
      forall i | 0 <= i < |samples|
        ensures var s := samples[i];
                && s.dts + s.duration < 0x1_0000_0000_0000_0000 && s.index == i && s.duration >= 1 && s.size >= 1
                && s.descriptionIndex == 1 && -2147483648 <= s.ctsOffset <= 2147483647
      {
        assert GoodSample(samples, i) && Elapsed(samples, i + 1) == Elapsed(samples, i) + samples[i].duration;
      }
      assert samples != [] ==> GoodSample(samples, 0);
    }
  }

  /** Samples of an accepted timeline tile it: each ends where the next one starts. */
  lemma TimelineTiles(samples: seq<SampleInfo>, i: nat)
    requires forall j :: 0 <= j < |samples| ==> GoodSample(samples, j)
    requires i + 1 < |samples|
    ensures samples[i + 1].dts == samples[i].dts + samples[i].duration
  {
    assert GoodSample(samples, i) && GoodSample(samples, i + 1);
    assert Elapsed(samples, i + 1) == Elapsed(samples, i) + samples[i].duration;
  }
}
