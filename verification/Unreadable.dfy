/**
 What the scanner of crates/media/src/fragmented.rs makes of boxes it cannot read in full,
 because the file ends in them or they declare fields they do not hold.
 */
module Unreadable {
  import opened Prelude
  import opened Bytes
  import opened BoxWalk
  import opened Fragmented
  import opened NonInterference
  import opened FragmentTime

  /** The bytes of a movie or media header up to and with its timescale are in the file. */
  predicate ScaleInFile(buf: Buffer, h: BoxHeader) {
    h.Body() < |buf| && h.Body() + (if buf[h.Body()] == 1 then 24 else 16) <= |buf|
  }

  lemma VersionByte(buf: Buffer, at: nat)
    ensures U8At(buf, at) == if at < |buf| then Some(buf[at]) else None
  {
    if at < |buf| {
      assert buf[at..at + 1] == [buf[at]] && [buf[at]][..0] == [];
    }
  }

  /** A header without a readable timescale changes nothing; any other one is remembered, readable duration or not. */
  lemma HeaderUnreadable(buf: Buffer, h: BoxHeader, st: ScanState, isMedia: bool)
    ensures !ScaleInFile(buf, h) ==> FullHeader(buf, h, st, isMedia) == st
    ensures ScaleInFile(buf, h) ==>
              var t, at := FullHeader(buf, h, st, isMedia), if buf[h.Body()] == 1 then 24 else 16;
              && (if isMedia then t.mdhd else t.mvhd) == Some(DurationField(h.Body() + at, buf[h.Body()] == 1))
              && (isMedia || st.timescale == 0 ==> Some(t.timescale) == U32At(buf, h.Body() + at - 4))
              && (!isMedia && st.timescale != 0 ==> t.timescale == st.timescale)
              && (if isMedia then t.mvhd == st.mvhd else t.mdhd == st.mdhd)
  {
    hide U32At;
    VersionByte(buf, h.Body());
    assert U32At(buf, h.Body() + 4 + TimePrefix(if h.Body() < |buf| then buf[h.Body()] else 0)).Some? <==>
        h.Body() + 8 + TimePrefix(if h.Body() < |buf| then buf[h.Body()] else 0) <= |buf| by { WordReads(buf); }
  }

  lemma WordReads(buf: Buffer)
    ensures forall at: nat :: U32At(buf, at).Some? <==> at + 4 <= |buf|
  {
  }

  /** The last extension box decides the default, and takes it away when it cannot be read. */
  lemma {:induction false} LastExtensionDecides(buf: Buffer, boxes: seq<BoxHeader>, st: ScanState, i: nat)
    requires i < |boxes| && boxes[i].kind == TREX && forall j :: i < j < |boxes| ==> boxes[j].kind != TREX
    ensures MvexFold(buf, boxes, st).trexDefault == U32At(buf, boxes[i].Body() + 12)
    ensures MvexFold(buf, boxes, st).trexDefault.Some? <==> boxes[i].Body() + 16 <= |buf|
  {
    hide U32At;
    WordReads(buf);
    var next := if boxes[0].kind == TREX then st.(trexDefault := U32At(buf, boxes[0].Body() + 12)) else st;
    if i > 0 {
      LastExtensionDecides(buf, boxes[1..], next, i - 1);
    } else {
      NoExtension(buf, boxes[1..], next);
    }
  }

  lemma {:induction false} NoExtension(buf: Buffer, boxes: seq<BoxHeader>, st: ScanState)
    requires forall j :: 0 <= j < |boxes| ==> boxes[j].kind != TREX
    ensures MvexFold(buf, boxes, st) == st
  {
    if boxes != [] {
      NoExtension(buf, boxes[1..], st);
    }
  }

  /** A fragment header has a default exactly when its flags are in the file, say so, and the field is in the file. */
  lemma DefaultUnreadable(buf: Buffer, h: BoxHeader)
    ensures TfhdDefault(buf, h).Some? <==>
            && h.Body() + 5 <= |buf|
            && var flags := FlagsAt(buf, h.Body()).value;
               && Flag(flags, 8)
               && h.Body() + 12 + (if Flag(flags, 1) then 8 else 0) + (if Flag(flags, 2) then 4 else 0) <= |buf|
  {
    hide Flag, U32At;
    WordReads(buf);
  }

  /** Without a readable default of its own, a track fragment has the track's, unless that is zero. */
  lemma DefaultFallsBack(buf: Buffer, boxes: seq<BoxHeader>, trexDefault: Option<nat>)
    ensures var own := FirstOf(boxes, TFHD);
            && (own.Some? && TfhdDefault(buf, own.value).Some? ==>
                  DefaultDuration(buf, boxes, trexDefault) == TfhdDefault(buf, own.value))
            && (own.None? || TfhdDefault(buf, own.value).None? ==>
                  DefaultDuration(buf, boxes, trexDefault) == if trexDefault == Some(0) then None else trexDefault)
  {
    hide TfhdDefault;
  }

  /** A run resolves exactly when its header is in the file, and all its durations are or it has a default. */
  lemma RunUnreadable(buf: Buffer, h: BoxHeader, defaultDuration: Option<nat>)
    requires defaultDuration.Some? ==> defaultDuration.value <= U32_MAX
    ensures RunTicks(buf, h, defaultDuration).Some? <==>
            && h.Body() + 8 <= |buf|
            && var flags, count := FlagsAt(buf, h.Body()).value, U32At(buf, h.Body() + 4).value;
               if Flag(flags, 0x100)
               then SamplesInside(buf, SamplesAt(h.Body(), flags), Stride(flags, buf[h.Body()]), count)
               else defaultDuration.Some?
  {
    hide Flag, SampleTicks;
    WordReads(buf);
    VersionByte(buf, h.Body());
    if h.Body() + 8 <= |buf| {
      var flags, count := FlagsAt(buf, h.Body()).value, U32At(buf, h.Body() + 4).value;
      if Flag(flags, 0x100) {
        RunIsExactSum(buf, SamplesAt(h.Body(), flags), Stride(flags, buf[h.Body()]), 0, count, 0);
      } else if defaultDuration.Some? {
        MulMonotone(count, U32_MAX, defaultDuration.value, U32_MAX);
      }
    }
  }

  /** The first track fragment with a decode time decides, even when that time cannot be read. */
  lemma {:induction false} FirstTimeDecides(buf: Buffer, trafs: seq<BoxHeader>, i: nat)
    requires Inside(trafs, U64_MAX) && i < |trafs| && HasTime(buf, trafs, i)
    requires forall j :: 0 <= j < i ==> !HasTime(buf, trafs, j)
    ensures var first := FirstOf(Children(buf, trafs[i].Body(), trafs[i].End()), TFDT);
            DecodeTimeFold(buf, trafs) == TfdtTime(buf, first.value)
  {
    hide Children, TfdtTime, FirstOf;
    assert trafs[0] in trafs;
    if i > 0 {
      assert !HasTime(buf, trafs, 0);
      forall j | 0 <= j < i - 1 ensures !HasTime(buf, trafs[1..], j) {
        assert !HasTime(buf, trafs, j + 1);
      }
      FirstTimeDecides(buf, trafs[1..], i - 1);
    }
  }

  predicate HasTime(buf: Buffer, trafs: seq<BoxHeader>, i: nat)
    requires i < |trafs|
  {
    trafs[i].kind == TRAF && trafs[i].End() <= U64_MAX
    && FirstOf(Children(buf, trafs[i].Body(), trafs[i].End()), TFDT).Some?
  }

  /** A decode time is known exactly when its version byte and its 4 or 8 bytes are in the file. */
  lemma TimeUnreadable(buf: Buffer, h: BoxHeader)
    ensures TfdtTime(buf, h).Some? <==> h.Body() < |buf| && h.Body() + (if buf[h.Body()] == 1 then 12 else 8) <= |buf|
  {
    VersionByte(buf, h.Body());
  }
}
