/**
 What the ticks of crates/media/src/fragmented.rs mean: a run's ticks are the sum of its
 samples, and in a file without gaps the end of the last fragment is the sum of them all.
 */
module FragmentTime {
  import opened Prelude
  import opened Bytes
  import opened BoxWalk
  import opened Fragmented
  import opened NonInterference

  // ---- Runs

  ghost predicate SamplesInside(buf: Buffer, offset: nat, stride: nat, count: nat) {
    forall i :: 0 <= i < count ==> SampleAt(offset, stride, i) + 4 <= |buf|
  }

  ghost function SampleSum(buf: Buffer, offset: nat, stride: nat, index: nat, count: nat): nat
    requires index <= count && SamplesInside(buf, offset, stride, count)
    decreases count - index
  {
    if index == count then 0
    else
      assert SampleAt(offset, stride, index) + 4 <= |buf|;
      U32At(buf, SampleAt(offset, stride, index)).value + SampleSum(buf, offset, stride, index + 1, count)
  }

  /**
   The checked arithmetic of a run never fails: with 32-bit counts and durations the result
   is the plain sum of the samples, and it is missing only when a sample lies past the file.
   */
  lemma {:induction false} RunIsExactSum(buf: Buffer, offset: nat, stride: nat, index: nat, count: nat, total: nat)
    requires index <= count <= U32_MAX && stride <= 20 && total <= index * U32_MAX
    requires forall i :: 0 <= i < index ==> SampleAt(offset, stride, i) + 4 <= |buf|
    ensures SampleTicks(buf, offset, stride, index, count, total)
         == if SamplesInside(buf, offset, stride, count)
            then Some(total + SampleSum(buf, offset, stride, index, count)) else None
    decreases count - index
  {
    hide U32At;
    if index < count {
      var at := SampleAt(offset, stride, index);
      NoOverflow(index, stride);
      WordInFile(buf, at);
      if at + 4 <= |buf| {
        var ticks := U32At(buf, at).value;
        RunIsExactSum(buf, offset, stride, index + 1, count, total + ticks);
      } else {
        assert !SamplesInside(buf, offset, stride, count);
      }
    }
  }

  lemma NoOverflow(index: nat, stride: nat)
    requires index < U32_MAX && stride <= 20
    ensures index * stride <= U32_MAX * 20 && (index + 1) * U32_MAX == index * U32_MAX + U32_MAX
    ensures (index + 1) * U32_MAX <= U32_MAX * U32_MAX
  {
    MulMonotone(index, U32_MAX, stride, 20);
    MulMonotone(index + 1, U32_MAX, U32_MAX, U32_MAX);
  }

  lemma WordInFile(buf: Buffer, at: nat)
    ensures U32At(buf, at).Some? <==> at + 4 <= |buf|
  {
  }

  lemma MulMonotone(a: nat, b: nat, x: nat, y: nat)
    requires a <= b && x <= y
    ensures a * x <= b * y
  {
    assert a * x <= b * x by { assert (b - a) * x >= 0; }
    assert b * x <= b * y by { assert b * (y - x) >= 0; }
  }

  /** Samples that all last `d` sum to what the default-duration form multiplies out. */
  lemma {:induction false} UniformSum(buf: Buffer, offset: nat, stride: nat, index: nat, count: nat, d: nat)
    requires index <= count && SamplesInside(buf, offset, stride, count)
    requires forall i :: 0 <= i < count ==> U32At(buf, SampleAt(offset, stride, i)) == Some(d)
    ensures SampleSum(buf, offset, stride, index, count) == (count - index) * d
    decreases count - index
  {
    if index < count {
      assert U32At(buf, SampleAt(offset, stride, index)) == Some(d);
      UniformSum(buf, offset, stride, index + 1, count, d);
      assert (count - index) * d == (count - index - 1) * d + d;
    }
  }

  /** The run of `h` lists a duration for each sample and each is `d`. */
  ghost predicate Uniform(buf: Buffer, h: BoxHeader, d: nat) {
    && h.Body() + 8 <= |buf|
    && var flags, count := FlagsAt(buf, h.Body()).value, U32At(buf, h.Body() + 4).value;
       var offset, stride := SamplesAt(h.Body(), flags), Stride(flags, U8At(buf, h.Body()).value);
       && Flag(flags, 0x100)
       && SamplesInside(buf, offset, stride, count)
       && forall i :: 0 <= i < count ==> U32At(buf, SampleAt(offset, stride, i)) == Some(d)
  }

  /**
   The per-sample and the default-duration forms agree: a run whose samples all last `d`
   has the ticks of a run of as many samples that leaves `d` to the default.
   */
  lemma RunFormsAgree(a: Buffer, h: BoxHeader, b: Buffer, g: BoxHeader, d: nat)
    requires Uniform(a, h, d) && d <= U32_MAX
    requires g.Body() + 8 <= |b| && !Flag(FlagsAt(b, g.Body()).value, 0x100)
    requires U32At(b, g.Body() + 4) == U32At(a, h.Body() + 4)
    ensures RunTicks(a, h, None) == RunTicks(b, g, Some(d))
    ensures RunTicks(b, g, Some(d)) == Some(U32At(a, h.Body() + 4).value * d)
  {
    var flags, count := FlagsAt(a, h.Body()).value, U32At(a, h.Body() + 4).value;
    var offset, stride := SamplesAt(h.Body(), flags), Stride(flags, U8At(a, h.Body()).value);
    RunIsExactSum(a, offset, stride, 0, count, 0);
    UniformSum(a, offset, stride, 0, count, d);
    MulMonotone(count, U32_MAX, d, U32_MAX);
  }

  // ---- Fragments

  /** Only fragments advance the clocks: a moov box leaves them alone. */
  ghost predicate SameClock(a: ScanState, b: ScanState) {
    a.fragments == b.fragments && a.sumTicks == b.sumTicks && a.endTicks == b.endTicks
  }

  lemma {:induction false} MdiaKeepsClock(buf: Buffer, boxes: seq<BoxHeader>, st: ScanState)
    ensures SameClock(MdiaFold(buf, boxes, st), st)
  {
    if boxes != [] {
      MdiaKeepsClock(buf, boxes[1..], if boxes[0].kind == MDHD then FullHeader(buf, boxes[0], st, true) else st);
    }
  }

  lemma {:induction false} TrakKeepsClock(buf: Buffer, boxes: seq<BoxHeader>, st: ScanState)
    requires Inside(boxes, U64_MAX)
    ensures SameClock(TrakFold(buf, boxes, st), st)
  {
    if boxes != [] {
      if boxes[0].kind == MDIA {
        MdiaKeepsClock(buf, Children(buf, boxes[0].Body(), boxes[0].End()), st);
      }
      TrakKeepsClock(buf, boxes[1..], TrakStep(buf, boxes[0], st));
    }
  }

  lemma {:induction false} MvexKeepsClock(buf: Buffer, boxes: seq<BoxHeader>, st: ScanState)
    ensures SameClock(MvexFold(buf, boxes, st), st)
  {
    if boxes != [] {
      MvexKeepsClock(buf, boxes[1..],
                     if boxes[0].kind == TREX then st.(trexDefault := U32At(buf, boxes[0].Body() + 12)) else st);
    }
  }

  lemma MoovStepKeepsClock(buf: Buffer, c: BoxHeader, st: ScanState)
    requires c.End() <= U64_MAX
    ensures SameClock(MoovStep(buf, c, st), st)
  {
    if c.kind == TRAK {
      ChildrenInside(buf, c.Body(), c.End());
      TrakKeepsClock(buf, Children(buf, c.Body(), c.End()), st);
    } else if c.kind == MVEX {
      MvexKeepsClock(buf, Children(buf, c.Body(), c.End()), st);
    }
  }

  lemma {:induction false} MoovKeepsClock(buf: Buffer, boxes: seq<BoxHeader>, st: ScanState)
    requires Inside(boxes, U64_MAX)
    ensures SameClock(MoovFold(buf, boxes, st), st)
  {
    if boxes != [] {
      MoovStepKeepsClock(buf, boxes[0], st);
      MoovKeepsClock(buf, boxes[1..], MoovStep(buf, boxes[0], st));
    }
  }

  lemma TopStepClock(buf: Buffer, b: BoxHeader, st: ScanState)
    requires b.End() <= U64_MAX && b.kind != MOOF
    ensures SameClock(TopStep(buf, b, st), st)
  {
    if b.kind == MOOV {
      ChildrenInside(buf, b.Body(), b.End());
      MoovKeepsClock(buf, Children(buf, b.Body(), b.End()), st);
    }
  }

  /** A fragment that resolved: where it starts, if it says so, and its ticks. */
  datatype Span = Span(start: Option<nat>, ticks: nat)

  function Capped(n: nat): nat {
    if n < 0x1_0000_0000_0000_0000 then n else 0xFFFF_FFFF_FFFF_FFFF
  }

  /** Where a span ends, held at 2^64 - 1; nowhere without a start. */
  function EndOf(s: Span): nat {
    if s.start.None? then 0 else Capped(s.start.value + s.ticks)
  }

  function SpanSum(spans: seq<Span>): nat {
    if spans == [] then 0 else spans[0].ticks + SpanSum(spans[1..])
  }

  /** The fragments of a file that resolve, each under the default known when it is reached. */
  ghost function Spans(buf: Buffer, boxes: seq<BoxHeader>, st: ScanState): seq<Span>
    requires Inside(boxes, U64_MAX)
  {
    if boxes == [] then []
    else
      var ticks := if boxes[0].kind == MOOF then FragmentTicks(buf, boxes[0], st.trexDefault) else None;
      (if ticks.Some? then [Span(BaseDecodeTime(buf, boxes[0]), ticks.value)] else [])
      + Spans(buf, boxes[1..], TopStep(buf, boxes[0], st))
  }

  lemma TopStepSums(buf: Buffer, b: BoxHeader, st: ScanState)
    requires b.End() <= U64_MAX && st.sumTicks <= U64_MAX
    ensures var ticks := if b.kind == MOOF then FragmentTicks(buf, b, st.trexDefault) else None;
            var next := TopStep(buf, b, st);
            && next.sumTicks == Capped(st.sumTicks + if ticks.Some? then ticks.value else 0)
            && next.endTicks >= st.endTicks
            && (ticks.None? ==> next.endTicks == st.endTicks)
            && (ticks.Some? ==>
                  var end := EndOf(Span(BaseDecodeTime(buf, b), ticks.value));
                  next.endTicks >= end && (next.endTicks == st.endTicks || next.endTicks == end))
  {
    hide FragmentTicks, BaseDecodeTime, Moov;
    if b.kind != MOOF {
      TopStepClock(buf, b, st);
    }
  }

  /** `sum_ticks` is the sum of the resolved fragments, held at 2^64 - 1. */
  lemma {:induction false} SumIsConserved(buf: Buffer, boxes: seq<BoxHeader>, st: ScanState)
    requires Inside(boxes, U64_MAX) && st.sumTicks <= U64_MAX
    ensures TopFold(buf, boxes, st).sumTicks == Capped(st.sumTicks + SpanSum(Spans(buf, boxes, st)))
  {
    hide TopStep, FragmentTicks, BaseDecodeTime;
    if boxes != [] {
      TopStepSums(buf, boxes[0], st);
      var next := TopStep(buf, boxes[0], st);
      SumIsConserved(buf, boxes[1..], next);
      var all, rest := Spans(buf, boxes, st), Spans(buf, boxes[1..], next);
      assert all == rest || all[1..] == rest;
    }
  }

  /** `end_ticks` is the latest end of a span. */
  ghost predicate IsLatest(spans: seq<Span>, before: nat, end: nat) {
    && before <= end && (forall i :: 0 <= i < |spans| ==> EndOf(spans[i]) <= end)
    && (end == before || exists i :: 0 <= i < |spans| && EndOf(spans[i]) == end)
  }

  lemma LatestOfMore(all: seq<Span>, rest: seq<Span>, before: nat, next: nat, end: nat)
    requires IsLatest(rest, next, end) && before <= next
    requires (all == rest && next == before) ||
             (all != [] && all[1..] == rest && next >= EndOf(all[0]) && (next == before || next == EndOf(all[0])))
    ensures IsLatest(all, before, end)
  {
    hide EndOf;
    if all != rest {
      assert forall i :: 0 < i < |all| ==> all[i] == rest[i - 1];
      if i :| 0 <= i < |rest| && EndOf(rest[i]) == end {
        assert all[i + 1] == rest[i];
      }
    }
  }

  lemma {:induction false} EndIsLatest(buf: Buffer, boxes: seq<BoxHeader>, st: ScanState)
    requires Inside(boxes, U64_MAX) && st.sumTicks <= U64_MAX
    ensures IsLatest(Spans(buf, boxes, st), st.endTicks, TopFold(buf, boxes, st).endTicks)
  {
    hide TopStep, FragmentTicks, BaseDecodeTime, EndOf;
    if boxes != [] {
      TopStepSums(buf, boxes[0], st);
      var next := TopStep(buf, boxes[0], st);
      var all, rest := Spans(buf, boxes, st), Spans(buf, boxes[1..], next);
      EndIsLatest(buf, boxes[1..], next);
      LatestOfMore(all, rest, st.endTicks, next.endTicks, TopFold(buf, boxes, st).endTicks);
    }
  }

  lemma {:induction false} FragmentsCounted(buf: Buffer, boxes: seq<BoxHeader>, st: ScanState)
    requires Inside(boxes, U64_MAX)
    ensures TopFold(buf, boxes, st).fragments == st.fragments + |Spans(buf, boxes, st)| + Unresolved(buf, boxes, st)
  {
    hide FragmentTicks, BaseDecodeTime, Moov;
    if boxes != [] {
      if boxes[0].kind != MOOF {
        TopStepClock(buf, boxes[0], st);
      }
      FragmentsCounted(buf, boxes[1..], TopStep(buf, boxes[0], st));
    }
  }

  /** The fragments that do not resolve. */
  ghost function Unresolved(buf: Buffer, boxes: seq<BoxHeader>, st: ScanState): nat
    requires Inside(boxes, U64_MAX)
  {
    if boxes == [] then 0
    else
      (if boxes[0].kind == MOOF && FragmentTicks(buf, boxes[0], st.trexDefault).None? then 1 else 0)
      + Unresolved(buf, boxes[1..], TopStep(buf, boxes[0], st))
  }

  /** The length of a file: where its last span ends, or the sum of its spans when none ends past the start. */
  ghost predicate IsLength(spans: seq<Span>, length: nat) {
    if exists i :: 0 <= i < |spans| && EndOf(spans[i]) > 0
    then (exists i :: 0 <= i < |spans| && EndOf(spans[i]) == length)
         && forall i :: 0 <= i < |spans| ==> EndOf(spans[i]) <= length
    else length == Capped(SpanSum(spans))
  }

  /**
   For every file, well formed or not: there is a duration exactly when the timescale is known and
   the resolved fragments have a length above zero, and then it is that length.
   */
  lemma DurationIsLength(buf: Buffer, length: nat)
    requires IsLength(Spans(buf, Top(buf), BLANK), length)
    ensures Scan(buf).Duration()
         == if Scan(buf).timescale > 0 && length > 0 then Some((length, Scan(buf).timescale)) else None
  {
    hide TopFold, Spans, EndOf;
    var spans, st := Spans(buf, Top(buf), BLANK), Scan(buf);
    SumIsConserved(buf, Top(buf), BLANK);
    EndIsLatest(buf, Top(buf), BLANK);
    FragmentsCounted(buf, Top(buf), BLANK);
    assert BLANK.endTicks == 0 == BLANK.sumTicks;
    if st.endTicks > 0 {
      var i :| 0 <= i < |spans| && EndOf(spans[i]) == st.endTicks;
      var j :| 0 <= j < |spans| && EndOf(spans[j]) == length;
      assert st.Ticks() == length;
    }
  }

  /** Every file has exactly one length. */
  lemma LengthExists(spans: seq<Span>) returns (length: nat)
    ensures IsLength(spans, length) && forall other: nat :: IsLength(spans, other) ==> other == length
  {
    if exists i :: 0 <= i < |spans| && EndOf(spans[i]) > 0 {
      length := LatestEnd(spans);
    } else {
      length := Capped(SpanSum(spans));
    }
  }

  lemma LatestEnd(spans: seq<Span>) returns (end: nat)
    requires spans != []
    ensures exists i :: 0 <= i < |spans| && EndOf(spans[i]) == end
    ensures forall i :: 0 <= i < |spans| ==> EndOf(spans[i]) <= end
  {
    hide EndOf;
    if |spans| == 1 {
      end := EndOf(spans[0]);
      assert EndOf(spans[0]) == end;
    } else {
      var rest := spans[1..];
      end := LatestEnd(rest);
      var i :| 0 <= i < |rest| && EndOf(rest[i]) == end;
      assert spans[i + 1] == rest[i];
      end := if end < EndOf(spans[0]) then EndOf(spans[0]) else end;
    }
  }

  /** Each span starts at the ticks of all the spans before it. */
  ghost predicate Gapless(spans: seq<Span>) {
    forall i :: 0 <= i < |spans| ==> spans[i].start == Some(SpanSum(spans[..i]))
  }

  lemma {:induction false} SumOfBoth(a: seq<Span>, b: seq<Span>)
    ensures SpanSum(a + b) == SpanSum(a) + SpanSum(b)
    decreases |a|
  {
    if a == [] {
      assert a + b == b;
    } else {
      assert (a + b)[1..] == a[1..] + b;
      SumOfBoth(a[1..], b);
    }
  }

  lemma SumUpTo(spans: seq<Span>, i: nat)
    requires i < |spans|
    ensures SpanSum(spans[..i]) + spans[i].ticks <= SpanSum(spans)
    ensures i == |spans| - 1 ==> SpanSum(spans[..i]) + spans[i].ticks == SpanSum(spans)
  {
    assert spans == spans[..i] + spans[i..];
    SumOfBoth(spans[..i], spans[i..]);
    assert i == |spans| - 1 ==> spans[i..][1..] == [];
  }

  /** In a gapless file below 2^64 ticks the two clocks agree, for any number of fragments. */
  lemma FragmentTimeConserved(buf: Buffer)
    requires var spans := Spans(buf, Top(buf), BLANK); Gapless(spans) && SpanSum(spans) < 0x1_0000_0000_0000_0000
    ensures Scan(buf).endTicks == Scan(buf).sumTicks == SpanSum(Spans(buf, Top(buf), BLANK))
    ensures IsLength(Spans(buf, Top(buf), BLANK), Scan(buf).sumTicks)
  {
    hide TopFold, Spans;
    var spans := Spans(buf, Top(buf), BLANK);
    SumIsConserved(buf, Top(buf), BLANK);
    EndIsLatest(buf, Top(buf), BLANK);
    GaplessLength(spans);
  }

  lemma GaplessLength(spans: seq<Span>)
    requires Gapless(spans) && SpanSum(spans) < 0x1_0000_0000_0000_0000
    ensures IsLength(spans, SpanSum(spans)) && IsLatest(spans, 0, SpanSum(spans))
  {
    hide SpanSum;
    forall i | 0 <= i < |spans| ensures EndOf(spans[i]) <= SpanSum(spans) {
      SumUpTo(spans, i);
    }
    if spans == [] {
      NoSpans();
    } else {
      SumUpTo(spans, |spans| - 1);
      assert EndOf(spans[|spans| - 1]) == SpanSum(spans);
    }
  }

  lemma NoSpans()
    ensures SpanSum([]) == 0
  {
  }
}
