/**
 The scanner of crates/media/src/fragmented.rs as it runs: loops over the boxes of each level
 that read the buffer and update one `FragmentScan`. Each method is proved against the
 function of the same step in `Fragmented`.
 */
module FragmentScanner {
  import opened Prelude
  import opened Bytes
  import opened BoxWalk
  import opened Fragmented

  class FragmentScan {
    var fragments: nat
    var timescale: nat
    var endTicks: nat
    var sumTicks: nat
    var trexDefault: Option<nat>
    var mvhd: Option<DurationField>
    var mdhd: Option<DurationField>

    function State(): ScanState
      reads this
    {
      ScanState(fragments, timescale, endTicks, sumTicks, trexDefault, mvhd, mdhd)
    }

    constructor ()
      ensures State() == BLANK
    {
      fragments, timescale, endTicks, sumTicks := 0, 0, 0, 0;
      trexDefault, mvhd, mdhd := None, None, None;
    }

    method ScanFullHeader(buf: Buffer, h: BoxHeader, isMedia: bool)
      modifies this
      ensures State() == FullHeader(buf, h, old(State()), isMedia)
    {
      var version := U8At(buf, h.Body());
      if version.None? {
        return;
      }
      var scale := U32At(buf, h.Body() + 4 + TimePrefix(version.value));
      if scale.None? {
        return;
      }
      if isMedia || timescale == 0 {
        timescale := scale.value;
      }
      var field := Some(DurationField(h.Body() + 4 + TimePrefix(version.value) + 4, version.value == 1));
      if isMedia {
        mdhd := field;
      } else {
        mvhd := field;
      }
    }

    method ScanMdia(buf: Buffer, trak: BoxHeader)
      requires trak.End() <= U64_MAX
      modifies this
      ensures State() == Mdia(buf, trak, old(State()))
    {
      var boxes := ReadChildren(buf, trak.Body(), trak.End());
      ChildrenInside(buf, trak.Body(), trak.End());
      for i := 0 to |boxes|
        invariant TrakFold(buf, boxes, old(State())) == TrakFold(buf, boxes[i..], State())
      {
        if boxes[i].kind == MDIA {
          ScanMediaHeaders(buf, boxes[i]);
        }
      }
    }

    method ScanMediaHeaders(buf: Buffer, mdia: BoxHeader)
      requires mdia.End() <= U64_MAX
      modifies this
      ensures State() == MdiaFold(buf, Children(buf, mdia.Body(), mdia.End()), old(State()))
    {
      var boxes := ReadChildren(buf, mdia.Body(), mdia.End());
      for i := 0 to |boxes|
        invariant MdiaFold(buf, boxes, old(State())) == MdiaFold(buf, boxes[i..], State())
      {
        if boxes[i].kind == MDHD {
          ScanFullHeader(buf, boxes[i], true);
        }
      }
    }

    method ScanMvex(buf: Buffer, mvex: BoxHeader)
      requires mvex.End() <= U64_MAX
      modifies this
      ensures State() == MvexFold(buf, Children(buf, mvex.Body(), mvex.End()), old(State()))
    {
      var boxes := ReadChildren(buf, mvex.Body(), mvex.End());
      for i := 0 to |boxes|
        invariant MvexFold(buf, boxes, old(State())) == MvexFold(buf, boxes[i..], State())
      {
        if boxes[i].kind == TREX {
          trexDefault := U32At(buf, boxes[i].Body() + 12);
        }
      }
    }

    method ScanMoov(buf: Buffer, moov: BoxHeader)
      requires moov.End() <= U64_MAX
      modifies this
      ensures State() == Moov(buf, moov, old(State()))
    {
      var boxes := ReadChildren(buf, moov.Body(), moov.End());
      ChildrenInside(buf, moov.Body(), moov.End());
      for i := 0 to |boxes|
        invariant MoovFold(buf, boxes, old(State())) == MoovFold(buf, boxes[i..], State())
      {
        if boxes[i].kind == MVHD {
          ScanFullHeader(buf, boxes[i], false);
        } else if boxes[i].kind == TRAK {
          ScanMdia(buf, boxes[i]);
        } else if boxes[i].kind == MVEX {
          ScanMvex(buf, boxes[i]);
        }
      }
    }

    method ScanTop(buf: Buffer)
      modifies this
      ensures State() == TopFold(buf, Top(buf), old(State()))
    {
      var boxes := ReadChildren(buf, 0, |buf|);
      ChildrenInside(buf, 0, |buf|);
      for i := 0 to |boxes|
        invariant TopFold(buf, boxes, old(State())) == TopFold(buf, boxes[i..], State())
      {
        if boxes[i].kind == MOOV {
          ScanMoov(buf, boxes[i]);
        } else if boxes[i].kind == MOOF {
          AddMoof(buf, boxes[i]);
        }
      }
    }

    method AddMoof(buf: Buffer, moof: BoxHeader)
      requires moof.End() <= U64_MAX && moof.kind == MOOF
      modifies this
      ensures State() == TopStep(buf, moof, old(State()))
    {
      fragments := fragments + 1;
      var ticks := SumFragment(buf, moof, trexDefault);
      if ticks.Some? {
        sumTicks := SaturatingAdd(sumTicks, ticks.value);
        var base := FindDecodeTime(buf, moof);
        if base.Some? {
          endTicks := Max(endTicks, SaturatingAdd(base.value, ticks.value));
        }
      }
    }
  }

  /** `scan`: a fresh state filled by one pass over the file. */
  method ScanFile(buf: Buffer) returns (scan: FragmentScan)
    ensures fresh(scan) && scan.State() == Scan(buf)
  {
    scan := new FragmentScan();
    scan.ScanTop(buf);
  }

  /** `run_ticks`. */
  method SumRun(buf: Buffer, h: BoxHeader, defaultDuration: Option<nat>) returns (r: Option<nat>)
    ensures r == RunTicks(buf, h, defaultDuration)
  {
    var flags := FlagsAt(buf, h.Body());
    if flags.None? {
      return None;
    }
    var count := U32At(buf, h.Body() + 4);
    if count.None? {
      return None;
    }
    var version := U8At(buf, h.Body());
    if version.None? {
      return None;
    }
    if !Flag(flags.value, 0x100) {
      if defaultDuration.None? {
        return None;
      }
      return CheckedMul(count.value, defaultDuration.value);
    }
    var offset := SamplesAt(h.Body(), flags.value);
    var stride := Stride(flags.value, version.value);
    var total := 0;
    for index := 0 to count.value
      invariant SampleTicks(buf, offset, stride, 0, count.value, 0)
             == SampleTicks(buf, offset, stride, index, count.value, total)
    {
      var skip := CheckedMul(index, stride);
      if skip.None? {
        return None;
      }
      var at := CheckedAdd(offset, skip.value);
      if at.None? {
        return None;
      }
      var ticks := U32At(buf, at.value);
      if ticks.None? {
        return None;
      }
      var next := CheckedAdd(total, ticks.value);
      if next.None? {
        return None;
      }
      total := next.value;
    }
    return Some(total);
  }

  /** `fragment_ticks`. */
  method SumFragment(buf: Buffer, moof: BoxHeader, trexDefault: Option<nat>) returns (r: Option<nat>)
    requires moof.End() <= U64_MAX
    ensures r == FragmentTicks(buf, moof, trexDefault)
  {
    var total, resolved := 0, false;
    var trafs := ReadChildren(buf, moof.Body(), moof.End());
    ChildrenInside(buf, moof.Body(), moof.End());
    for i := 0 to |trafs|
      invariant TrafsFold(buf, trafs, trexDefault, 0, false)
             == TrafsFold(buf, trafs[i..], trexDefault, total, resolved)
    {
      if trafs[i].kind == TRAF {
        var sofar := SumRuns(buf, trafs[i], trexDefault, total, resolved);
        if sofar.None? {
          return None;
        }
        total, resolved := sofar.value.0, sofar.value.1;
      }
    }
    return if resolved then Some(total) else None;
  }

  method SumRuns(buf: Buffer, traf: BoxHeader, trexDefault: Option<nat>, before: nat, seen: bool) returns (r: Running)
    requires traf.End() <= U64_MAX
    ensures var boxes := Children(buf, traf.Body(), traf.End());
            r == RunsFold(buf, boxes, DefaultDuration(buf, boxes, trexDefault), before, seen)
  {
    var boxes := ReadChildren(buf, traf.Body(), traf.End());
    var defaultDuration := DefaultDuration(buf, boxes, trexDefault);
    var total, resolved := before, seen;
    for i := 0 to |boxes|
      invariant RunsFold(buf, boxes, defaultDuration, before, seen)
             == RunsFold(buf, boxes[i..], defaultDuration, total, resolved)
    {
      if boxes[i].kind == TRUN {
        var ticks := SumRun(buf, boxes[i], defaultDuration);
        if ticks.None? {
          return None;
        }
        var next := CheckedAdd(total, ticks.value);
        if next.None? {
          return None;
        }
        total, resolved := next.value, true;
      }
    }
    return Some((total, resolved));
  }

  /** `base_decode_time`. */
  method FindDecodeTime(buf: Buffer, moof: BoxHeader) returns (r: Option<nat>)
    requires moof.End() <= U64_MAX
    ensures r == BaseDecodeTime(buf, moof)
  {
    hide TfdtTime, FirstOf;
    var trafs := ReadChildren(buf, moof.Body(), moof.End());
    ChildrenInside(buf, moof.Body(), moof.End());
    for i := 0 to |trafs|
      invariant DecodeTimeFold(buf, trafs) == DecodeTimeFold(buf, trafs[i..])
    {
      if trafs[i].kind == TRAF {
        var boxes := ReadChildren(buf, trafs[i].Body(), trafs[i].End());
        var tfdt := Find(boxes, TFDT);
        if tfdt.Some? {
          return TfdtTime(buf, tfdt.value);
        }
      }
    }
    return None;
  }

  /** The first box of a kind, by a search that stops at it. */
  method Find(boxes: seq<BoxHeader>, kind: seq<byte>) returns (r: Option<BoxHeader>)
    ensures r == FirstOf(boxes, kind)
  {
    for j := 0 to |boxes|
      invariant FirstOf(boxes, kind) == FirstOf(boxes[j..], kind)
    {
      if boxes[j].kind == kind {
        return Some(boxes[j]);
      }
    }
    return None;
  }
}
