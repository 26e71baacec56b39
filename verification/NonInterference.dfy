/**
 Which bytes of a fragmented file the scanner does not depend on.
 `Quiet(buf, p)` walks the boxes the scanner walks and says that byte p lies in no header,
 no field it reads, and no unread tail of a walked range. An edit confined to quiet bytes
 leaves the whole scan unchanged (`QuietEditsKeepScan`).
 */
module NonInterference {
  import opened Prelude
  import opened Bytes
  import opened BoxWalk
  import opened Fragmented

  // ---- Boxes long enough for the fields they declare

  ghost predicate HeaderFits(buf: Buffer, h: BoxHeader) {
    && h.Body() < h.End() <= |buf|
    && var field := DurationOf(buf, h); field.offset + field.Width() <= h.End()
  }

  ghost predicate TrexFits(h: BoxHeader) { h.Body() + 16 <= h.End() }

  ghost predicate TfhdFits(buf: Buffer, h: BoxHeader) {
    && h.Body() + 8 <= h.End() <= |buf|
    && var flags := FlagsAt(buf, h.Body()).value;
       Flag(flags, 0x08) ==> TfhdDefaultAt(h.Body(), flags) + 4 <= h.End()
  }

  ghost predicate TfdtFits(buf: Buffer, h: BoxHeader) {
    && h.Body() + 8 <= h.End() <= |buf|
    && (U8At(buf, h.Body()).value == 1 ==> h.Body() + 12 <= h.End())
  }

  ghost predicate TrunFits(buf: Buffer, h: BoxHeader) {
    && h.Body() + 8 <= h.End() <= |buf|
    && var flags, count := FlagsAt(buf, h.Body()).value, U32At(buf, h.Body() + 4).value;
       var stride := Stride(flags, U8At(buf, h.Body()).value);
       Flag(flags, 0x100) ==>
         forall i :: 0 <= i < count ==> SampleAt(SamplesAt(h.Body(), flags), stride, i) + 4 <= h.End()
  }

  function SampleAt(offset: nat, stride: nat, index: nat): nat { offset + index * stride }

  ghost predicate MdiaFits(buf: Buffer, m: BoxHeader)
    requires m.End() <= U64_MAX
  {
    forall g :: g in Children(buf, m.Body(), m.End()) && g.kind == MDHD ==> HeaderFits(buf, g)
  }

  ghost predicate TrakFits(buf: Buffer, k: BoxHeader)
    requires k.End() <= U64_MAX
  {
    ChildrenInside(buf, k.Body(), k.End());
    forall m :: m in Children(buf, k.Body(), k.End()) && m.kind == MDIA ==> MdiaFits(buf, m)
  }

  ghost predicate MvexFits(buf: Buffer, x: BoxHeader)
    requires x.End() <= U64_MAX
  {
    forall g :: g in Children(buf, x.Body(), x.End()) && g.kind == TREX ==> TrexFits(g)
  }

  ghost predicate MoovChildFits(buf: Buffer, c: BoxHeader)
    requires c.End() <= U64_MAX
  {
    && (c.kind == MVHD ==> HeaderFits(buf, c))
    && (c.kind == TRAK ==> TrakFits(buf, c))
    && (c.kind == MVEX ==> MvexFits(buf, c))
  }

  ghost predicate TrafFits(buf: Buffer, t: BoxHeader)
    requires t.End() <= U64_MAX
  {
    forall c :: c in Children(buf, t.Body(), t.End()) ==>
                  && (c.kind == TFHD ==> TfhdFits(buf, c))
                  && (c.kind == TFDT ==> TfdtFits(buf, c))
                  && (c.kind == TRUN ==> TrunFits(buf, c))
  }

  ghost predicate TopFits(buf: Buffer, b: BoxHeader)
    requires b.End() <= U64_MAX
  {
    ChildrenInside(buf, b.Body(), b.End());
    && (b.kind == MOOV ==> forall c :: c in Children(buf, b.Body(), b.End()) ==> MoovChildFits(buf, c))
    && (b.kind == MOOF ==> forall t :: t in Children(buf, b.Body(), b.End()) && t.kind == TRAF ==> TrafFits(buf, t))
  }

  /** Every mvhd, mdhd, trex, tfhd, tfdt and trun box the scanner visits holds the fields it declares. */
  ghost predicate WellSized(buf: Buffer) {
    forall b :: b in Top(buf) ==> TopFits(buf, b)
  }

  // ---- Quiet bytes

  ghost predicate Outside(h: BoxHeader, p: nat) { p < h.start || h.End() <= p }

  /** p is in no header of the walk, nor in what the walk leaves unread. */
  ghost predicate RangeQuiet(boxes: seq<BoxHeader>, start: nat, end: nat, p: nat) {
    && (forall b :: b in boxes ==> p < b.start || b.Body() <= p)
    && (p < WalkEnd(boxes, start) || end <= p)
  }

  ghost predicate BodyQuiet(buf: Buffer, h: BoxHeader, p: nat)
    requires h.End() <= U64_MAX
  {
    RangeQuiet(Children(buf, h.Body(), h.End()), h.Body(), h.End(), p)
  }

  ghost predicate HeaderQuiet(buf: Buffer, h: BoxHeader, p: nat)
    requires HeaderFits(buf, h)
  {
    p < h.start || DurationOf(buf, h).offset <= p
  }

  ghost predicate MdiaQuiet(buf: Buffer, m: BoxHeader, p: nat)
    requires m.End() <= U64_MAX && MdiaFits(buf, m)
  {
    && BodyQuiet(buf, m, p)
    && forall g :: g in Children(buf, m.Body(), m.End()) && g.kind == MDHD ==> HeaderQuiet(buf, g, p)
  }

  ghost predicate TrakQuiet(buf: Buffer, k: BoxHeader, p: nat)
    requires k.End() <= U64_MAX && TrakFits(buf, k)
  {
    ChildrenInside(buf, k.Body(), k.End());
    && BodyQuiet(buf, k, p)
    && forall m :: m in Children(buf, k.Body(), k.End()) && m.kind == MDIA ==> MdiaQuiet(buf, m, p)
  }

  ghost predicate MvexQuiet(buf: Buffer, x: BoxHeader, p: nat)
    requires x.End() <= U64_MAX
  {
    && BodyQuiet(buf, x, p)
    && forall g :: g in Children(buf, x.Body(), x.End()) && g.kind == TREX ==> Outside(g, p)
  }

  ghost predicate MoovChildQuiet(buf: Buffer, c: BoxHeader, p: nat)
    requires c.End() <= U64_MAX && MoovChildFits(buf, c)
  {
    && (c.kind == MVHD ==> HeaderQuiet(buf, c, p))
    && (c.kind == TRAK ==> TrakQuiet(buf, c, p))
    && (c.kind == MVEX ==> MvexQuiet(buf, c, p))
  }

  ghost predicate TopQuiet(buf: Buffer, b: BoxHeader, p: nat)
    requires b.End() <= U64_MAX && TopFits(buf, b)
  {
    ChildrenInside(buf, b.Body(), b.End());
    && (b.kind == MOOV ==>
          && BodyQuiet(buf, b, p)
          && forall c :: c in Children(buf, b.Body(), b.End()) ==> MoovChildQuiet(buf, c, p))
    && (b.kind == MOOF ==> Outside(b, p))
  }

  ghost predicate Quiet(buf: Buffer, p: nat)
    requires WellSized(buf)
  {
    && RangeQuiet(Top(buf), 0, |buf|, p)
    && forall b :: b in Top(buf) ==> TopQuiet(buf, b, p)
  }

  // ---- Non-interference, one scanner function at a time

  ghost predicate Diff(a: Buffer, b: Buffer, p: nat) {
    |a| == |b| && p < |a| && a[p] != b[p]
  }

  lemma ReadOutsideDiff(a: Buffer, b: Buffer, at: nat, width: nat)
    requires |a| == |b|
    requires forall p: nat :: Diff(a, b, p) ==> p < at || at + width <= p
    ensures ReadBe(a, at, width) == ReadBe(b, at, width)
  {
    forall i | at <= i < at + width && 0 <= i < |a|
      ensures a[i] == b[i]
    {
      assert !Diff(a, b, i);
    }
    ReadBeLocal(a, b, at, width);
  }

  lemma ReadHeaderLocal(a: Buffer, b: Buffer, offset: nat, limit: u64)
    requires |a| == |b|
    requires var r := ReadHeader(a, offset, limit);
             forall p: nat :: Diff(a, b, p) ==> p < offset || (if r.Some? then r.value.Body() else limit) <= p
    ensures ReadHeader(b, offset, limit) == ReadHeader(a, offset, limit)
  {
    if offset + 8 <= limit && offset + 8 <= |a| {
      forall i | offset <= i < offset + 8 ensures a[i] == b[i] {
        assert !Diff(a, b, i);
      }
      assert a[offset..offset + 4] == b[offset..offset + 4];
      assert a[offset + 4..offset + 8] == b[offset + 4..offset + 8];
      if Be(a[offset..offset + 4]) == 1 && offset + 16 <= |a| && offset + 16 <= limit {
        forall i | offset + 8 <= i < offset + 16 ensures a[i] == b[i] {
          assert !Diff(a, b, i);
        }
        assert a[offset + 8..offset + 16] == b[offset + 8..offset + 16];
      }
    }
  }

  lemma {:induction false} ChildrenLocal(a: Buffer, b: Buffer, start: nat, end: u64)
    requires |a| == |b|
    requires forall p: nat :: Diff(a, b, p) ==> RangeQuiet(Children(a, start, end), start, end, p)
    ensures Children(b, start, end) == Children(a, start, end)
    decreases if start <= end then end - start else 0
  {
    var r := ReadHeader(a, start, end);
    if r.Some? {
      var rest := Children(a, r.value.End(), end);
      assert Children(a, start, end)[0] == r.value;
      forall p: nat | Diff(a, b, p)
        ensures RangeQuiet(rest, r.value.End(), end, p) && (p < start || r.value.Body() <= p)
      {
        assert RangeQuiet([r.value] + rest, start, end, p);
        assert r.value in [r.value] + rest;
        assert forall x :: x in rest ==> x in [r.value] + rest;
      }
      ReadHeaderLocal(a, b, start, end);
      ChildrenLocal(a, b, r.value.End(), end);
    } else {
      forall p: nat | Diff(a, b, p) ensures p < start || end <= p {
        assert RangeQuiet([], start, end, p);
      }
      ReadHeaderLocal(a, b, start, end);
    }
  }

  lemma FullHeaderLocal(a: Buffer, b: Buffer, h: BoxHeader, st: ScanState, isMedia: bool)
    requires |a| == |b| && HeaderFits(a, h) && h.start < h.Body()
    requires forall p: nat :: Diff(a, b, p) ==> HeaderQuiet(a, h, p)
    ensures FullHeader(b, h, st, isMedia) == FullHeader(a, h, st, isMedia)
  {
    ReadOutsideDiff(a, b, h.Body(), 1);
    ReadOutsideDiff(a, b, h.Body() + 4 + TimePrefix(U8At(a, h.Body()).value), 4);
  }

  lemma {:induction false} MdiaFoldLocal(a: Buffer, b: Buffer, boxes: seq<BoxHeader>, st: ScanState)
    requires |a| == |b|
    requires forall g :: g in boxes && g.kind == MDHD ==> HeaderFits(a, g) && g.start < g.Body()
    requires forall g, p: nat :: g in boxes && g.kind == MDHD && Diff(a, b, p) ==> HeaderQuiet(a, g, p)
    ensures MdiaFold(b, boxes, st) == MdiaFold(a, boxes, st)
  {
    if boxes != [] {
      if boxes[0].kind == MDHD {
        FullHeaderLocal(a, b, boxes[0], st, true);
      }
      MdiaFoldLocal(a, b, boxes[1..], if boxes[0].kind == MDHD then FullHeader(a, boxes[0], st, true) else st);
    }
  }

  lemma MdiaLocal(a: Buffer, b: Buffer, m: BoxHeader, st: ScanState)
    requires |a| == |b| && m.kind == MDIA && m.End() <= U64_MAX && MdiaFits(a, m)
    requires forall p: nat :: Diff(a, b, p) ==> MdiaQuiet(a, m, p)
    ensures TrakStep(b, m, st) == TrakStep(a, m, st)
  {
    ChildrenLocal(a, b, m.Body(), m.End());
    ChildrenShape(a, m.Body(), m.End());
    MdiaFoldLocal(a, b, Children(a, m.Body(), m.End()), st);
  }

  lemma {:induction false} ChildrenShape(buf: Buffer, start: nat, end: u64)
    ensures forall h :: h in Children(buf, start, end) ==> start <= h.start < h.Body() <= h.End() <= end
    decreases if start <= end then end - start else 0
  {
    var r := ReadHeader(buf, start, end);
    if r.Some? {
      ChildrenShape(buf, r.value.End(), end);
    }
  }

  lemma {:induction false} TrakFoldLocal(a: Buffer, b: Buffer, boxes: seq<BoxHeader>, st: ScanState)
    requires |a| == |b| && Inside(boxes, U64_MAX)
    requires forall m :: m in boxes && m.kind == MDIA ==> MdiaFits(a, m)
    requires forall m, p: nat :: m in boxes && m.kind == MDIA && Diff(a, b, p) ==> MdiaQuiet(a, m, p)
    ensures TrakFold(b, boxes, st) == TrakFold(a, boxes, st)
  {
    if boxes != [] {
      if boxes[0].kind == MDIA {
        MdiaLocal(a, b, boxes[0], st);
      }
      TrakFoldLocal(a, b, boxes[1..], TrakStep(a, boxes[0], st));
    }
  }

  lemma {:induction false} MvexFoldLocal(a: Buffer, b: Buffer, boxes: seq<BoxHeader>, st: ScanState)
    requires |a| == |b|
    requires forall g :: g in boxes && g.kind == TREX ==> TrexFits(g)
    requires forall g, p: nat :: g in boxes && g.kind == TREX && Diff(a, b, p) ==> Outside(g, p)
    ensures MvexFold(b, boxes, st) == MvexFold(a, boxes, st)
  {
    if boxes != [] {
      if boxes[0].kind == TREX {
        ReadOutsideDiff(a, b, boxes[0].Body() + 12, 4);
      }
      MvexFoldLocal(a, b, boxes[1..],
                    if boxes[0].kind == TREX then st.(trexDefault := U32At(a, boxes[0].Body() + 12)) else st);
    }
  }

  lemma MoovStepLocal(a: Buffer, b: Buffer, c: BoxHeader, st: ScanState)
    requires |a| == |b| && c.start < c.Body() && c.End() <= U64_MAX && MoovChildFits(a, c)
    requires forall p: nat :: Diff(a, b, p) ==> MoovChildQuiet(a, c, p)
    ensures MoovStep(b, c, st) == MoovStep(a, c, st)
  {
    if c.kind == MVHD {
      FullHeaderLocal(a, b, c, st, false);
    } else if c.kind == TRAK {
      ChildrenLocal(a, b, c.Body(), c.End());
      ChildrenInside(a, c.Body(), c.End());
      TrakFoldLocal(a, b, Children(a, c.Body(), c.End()), st);
    } else if c.kind == MVEX {
      ChildrenLocal(a, b, c.Body(), c.End());
      MvexFoldLocal(a, b, Children(a, c.Body(), c.End()), st);
    }
  }

  lemma {:induction false} MoovFoldLocal(a: Buffer, b: Buffer, boxes: seq<BoxHeader>, st: ScanState)
    requires |a| == |b| && Inside(boxes, U64_MAX)
    requires forall c :: c in boxes ==> MoovChildFits(a, c) && c.start < c.Body()
    requires forall c, p: nat :: c in boxes && Diff(a, b, p) ==> MoovChildQuiet(a, c, p)
    ensures MoovFold(b, boxes, st) == MoovFold(a, boxes, st)
  {
    if boxes != [] {
      MoovStepLocal(a, b, boxes[0], st);
      MoovFoldLocal(a, b, boxes[1..], MoovStep(a, boxes[0], st));
    }
  }

  // Everything read for a fragment lies inside its moof box, so edits elsewhere cannot touch it.

  lemma OutsideChildren(a: Buffer, b: Buffer, h: BoxHeader)
    requires |a| == |b| && h.End() <= U64_MAX
    requires forall p: nat :: Diff(a, b, p) ==> Outside(h, p)
    ensures Children(b, h.Body(), h.End()) == Children(a, h.Body(), h.End())
    ensures forall c, p: nat :: c in Children(a, h.Body(), h.End()) && Diff(a, b, p) ==> Outside(c, p)
  {
    ChildrenShape(a, h.Body(), h.End());
    ChildrenTiled(a, h.Body(), h.End());
    ChildrenLocal(a, b, h.Body(), h.End());
  }

  lemma TfhdLocal(a: Buffer, b: Buffer, h: BoxHeader)
    requires |a| == |b| && TfhdFits(a, h)
    requires forall p: nat :: Diff(a, b, p) ==> Outside(h, p)
    ensures TfhdDefault(b, h) == TfhdDefault(a, h)
  {
    ReadOutsideDiff(a, b, h.Body() + 1, 4);
    var flags := FlagsAt(a, h.Body()).value;
    if Flag(flags, 0x08) {
      ReadOutsideDiff(a, b, TfhdDefaultAt(h.Body(), flags), 4);
    }
  }

  lemma TfdtLocal(a: Buffer, b: Buffer, h: BoxHeader)
    requires |a| == |b| && TfdtFits(a, h)
    requires forall p: nat :: Diff(a, b, p) ==> Outside(h, p)
    ensures TfdtTime(b, h) == TfdtTime(a, h)
  {
    ReadOutsideDiff(a, b, h.Body(), 1);
    if U8At(a, h.Body()).value == 1 {
      ReadOutsideDiff(a, b, h.Body() + 4, 8);
    } else {
      ReadOutsideDiff(a, b, h.Body() + 4, 4);
    }
  }

  lemma {:induction false} SamplesLocal(a: Buffer, b: Buffer, h: BoxHeader, offset: nat, stride: nat, index: nat,
        count: nat, total: nat)
    requires |a| == |b| && index <= count && h.start <= offset
    requires forall i :: 0 <= i < count ==> SampleAt(offset, stride, i) + 4 <= h.End()
    requires forall p: nat :: Diff(a, b, p) ==> Outside(h, p)
    ensures SampleTicks(b, offset, stride, index, count, total) == SampleTicks(a, offset, stride, index, count, total)
    decreases count - index
  {
    if index < count {
      var at := SampleAt(offset, stride, index);
      ReadOutsideDiff(a, b, at, 4);
      var ticks := U32At(a, at);
      if ticks.Some? {
        SamplesLocal(a, b, h, offset, stride, index + 1, count, total + ticks.value);
      }
    }
  }

  lemma TrunLocal(a: Buffer, b: Buffer, h: BoxHeader, defaultDuration: Option<nat>)
    requires |a| == |b| && TrunFits(a, h)
    requires forall p: nat :: Diff(a, b, p) ==> Outside(h, p)
    ensures RunTicks(b, h, defaultDuration) == RunTicks(a, h, defaultDuration)
  {
    ReadOutsideDiff(a, b, h.Body() + 1, 4);
    ReadOutsideDiff(a, b, h.Body() + 4, 4);
    ReadOutsideDiff(a, b, h.Body(), 1);
    var flags, count := FlagsAt(a, h.Body()).value, U32At(a, h.Body() + 4).value;
    if Flag(flags, 0x100) {
      SamplesLocal(a, b, h, SamplesAt(h.Body(), flags), Stride(flags, U8At(a, h.Body()).value), 0, count, 0);
    }
  }

  lemma {:induction false} RunsFoldLocal(a: Buffer, b: Buffer, boxes: seq<BoxHeader>, defaultDuration: Option<nat>,
        total: nat, resolved: bool)
    requires |a| == |b|
    requires forall c :: c in boxes && c.kind == TRUN ==> TrunFits(a, c)
    requires forall c, p: nat :: c in boxes && Diff(a, b, p) ==> Outside(c, p)
    ensures RunsFold(b, boxes, defaultDuration, total, resolved) == RunsFold(a, boxes, defaultDuration, total, resolved)
  {
    if boxes != [] {
      if boxes[0].kind == TRUN {
        TrunLocal(a, b, boxes[0], defaultDuration);
        var ticks := RunTicks(a, boxes[0], defaultDuration);
        if ticks.Some? {
          RunsFoldLocal(a, b, boxes[1..], defaultDuration, total + ticks.value, true);
        }
      } else {
        RunsFoldLocal(a, b, boxes[1..], defaultDuration, total, resolved);
      }
    }
  }

  lemma {:induction false} TrafsFoldLocal(a: Buffer, b: Buffer, trafs: seq<BoxHeader>, trexDefault: Option<nat>,
        total: nat, resolved: bool)
    requires |a| == |b| && Inside(trafs, U64_MAX)
    requires forall t :: t in trafs && t.kind == TRAF ==> TrafFits(a, t)
    requires forall t, p: nat :: t in trafs && Diff(a, b, p) ==> Outside(t, p)
    ensures TrafsFold(b, trafs, trexDefault, total, resolved) == TrafsFold(a, trafs, trexDefault, total, resolved)
  {
    if trafs != [] {
      if trafs[0].kind == TRAF {
        OutsideChildren(a, b, trafs[0]);
        var boxes := Children(a, trafs[0].Body(), trafs[0].End());
        if FirstOf(boxes, TFHD).Some? {
          TfhdLocal(a, b, FirstOf(boxes, TFHD).value);
        }
        var defaultDuration := DefaultDuration(a, boxes, trexDefault);
        RunsFoldLocal(a, b, boxes, defaultDuration, total, resolved);
        var sofar := RunsFold(a, boxes, defaultDuration, total, resolved);
        if sofar.Some? {
          TrafsFoldLocal(a, b, trafs[1..], trexDefault, sofar.value.0, sofar.value.1);
        }
      } else {
        TrafsFoldLocal(a, b, trafs[1..], trexDefault, total, resolved);
      }
    }
  }

  lemma {:induction false} DecodeTimeLocal(a: Buffer, b: Buffer, trafs: seq<BoxHeader>)
    requires |a| == |b| && Inside(trafs, U64_MAX)
    requires forall t :: t in trafs && t.kind == TRAF ==> TrafFits(a, t)
    requires forall t, p: nat :: t in trafs && Diff(a, b, p) ==> Outside(t, p)
    ensures DecodeTimeFold(b, trafs) == DecodeTimeFold(a, trafs)
  {
    if trafs != [] {
      if trafs[0].kind == TRAF {
        OutsideChildren(a, b, trafs[0]);
        var tfdt := FirstOf(Children(a, trafs[0].Body(), trafs[0].End()), TFDT);
        if tfdt.Some? {
          TfdtLocal(a, b, tfdt.value);
        }
      }
      DecodeTimeLocal(a, b, trafs[1..]);
    }
  }

  lemma TopStepLocal(a: Buffer, b: Buffer, h: BoxHeader, st: ScanState)
    requires |a| == |b| && h.End() <= U64_MAX && TopFits(a, h)
    requires forall p: nat :: Diff(a, b, p) ==> TopQuiet(a, h, p)
    ensures TopStep(b, h, st) == TopStep(a, h, st)
  {
    ChildrenInside(a, h.Body(), h.End());
    var boxes := Children(a, h.Body(), h.End());
    if h.kind == MOOV {
      ChildrenLocal(a, b, h.Body(), h.End());
      ChildrenShape(a, h.Body(), h.End());
      MoovFoldLocal(a, b, boxes, st);
    } else if h.kind == MOOF {
      OutsideChildren(a, b, h);
      TrafsFoldLocal(a, b, boxes, st.trexDefault, 0, false);
      DecodeTimeLocal(a, b, boxes);
    }
  }

  lemma {:induction false} TopFoldLocal(a: Buffer, b: Buffer, boxes: seq<BoxHeader>, st: ScanState)
    requires |a| == |b| && Inside(boxes, U64_MAX)
    requires forall h :: h in boxes ==> TopFits(a, h)
    requires forall h, p: nat :: h in boxes && Diff(a, b, p) ==> TopQuiet(a, h, p)
    ensures TopFold(b, boxes, st) == TopFold(a, boxes, st)
  {
    if boxes != [] {
      TopStepLocal(a, b, boxes[0], st);
      TopFoldLocal(a, b, boxes[1..], TopStep(a, boxes[0], st));
    }
  }

  /** An edit that touches quiet bytes alone changes nothing the scanner computes. */
  lemma QuietEditsKeepScan(a: Buffer, b: Buffer)
    requires |a| == |b| && WellSized(a)
    requires forall p: nat :: Diff(a, b, p) ==> Quiet(a, p)
    ensures Top(b) == Top(a)
    ensures Scan(b) == Scan(a)
  {
    ChildrenLocal(a, b, 0, |a|);
    TopFoldLocal(a, b, Top(a), BLANK);
  }
}
