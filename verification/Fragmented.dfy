/**
 The fragment scanner of crates/media/src/fragmented.rs: it sums the ticks of every movie
 fragment and remembers where the movie and media headers keep their durations.
 Section numbers are those of ISO/IEC 14496-12.
 */
module Fragmented {
  import opened Prelude
  import opened Bytes
  import opened BoxWalk

  const MOOV: seq<byte> := [0x6D, 0x6F, 0x6F, 0x76]
  const MVHD: seq<byte> := [0x6D, 0x76, 0x68, 0x64]
  const TRAK: seq<byte> := [0x74, 0x72, 0x61, 0x6B]
  const MDIA: seq<byte> := [0x6D, 0x64, 0x69, 0x61]
  const MDHD: seq<byte> := [0x6D, 0x64, 0x68, 0x64]
  const MVEX: seq<byte> := [0x6D, 0x76, 0x65, 0x78]
  const TREX: seq<byte> := [0x74, 0x72, 0x65, 0x78]
  const MOOF: seq<byte> := [0x6D, 0x6F, 0x6F, 0x66]
  const TRAF: seq<byte> := [0x74, 0x72, 0x61, 0x66]
  const TFHD: seq<byte> := [0x74, 0x66, 0x68, 0x64]
  const TFDT: seq<byte> := [0x74, 0x66, 0x64, 0x74]
  const TRUN: seq<byte> := [0x74, 0x72, 0x75, 0x6E]

  /** A duration in a header box: 64 bits wide in version 1, 32 otherwise. */
  datatype DurationField = DurationField(offset: nat, wide: bool) {
    function Width(): nat { if wide then 8 else 4 }
  }

  datatype ScanState = ScanState(
    fragments: nat,
    timescale: nat,
    endTicks: nat,
    sumTicks: nat,
    trexDefault: Option<nat>,
    mvhd: Option<DurationField>,
    mdhd: Option<DurationField>
  ) {
    /** The ticks that become the duration: the end of the last fragment, or the sum without one. */
    function Ticks(): nat { if endTicks > 0 then endTicks else sumTicks }

    /** `duration_secs`, kept as the pair (ticks, timescale). */
    function Duration(): Option<(nat, nat)> {
      if fragments == 0 || timescale == 0 || Ticks() == 0 then None
      else Some((Ticks(), timescale))
    }
  }

  const BLANK: ScanState := ScanState(0, 0, 0, 0, None, None, None)

  function SaturatingAdd(a: nat, b: nat): nat {
    if a + b > U64_MAX then U64_MAX else a + b
  }

  function CheckedAdd(a: nat, b: nat): Option<nat> {
    if a + b > U64_MAX then None else Some(a + b)
  }

  function CheckedMul(a: nat, b: nat): Option<nat> {
    if a * b > U64_MAX then None else Some(a * b)
  }

  function Max(a: nat, b: nat): nat { if a < b then b else a }

  // ---- Header boxes: mvhd (8.2.2) and mdhd (8.4.2)

  function TimePrefix(version: nat): nat { if version == 1 then 16 else 8 }

  /** Where the duration of a header box lies, from its version byte. */
  function DurationOf(buf: Buffer, h: BoxHeader): DurationField
    requires h.Body() < |buf|
  {
    var version := U8At(buf, h.Body()).value;
    DurationField(h.Body() + 4 + TimePrefix(version) + 4, version == 1)
  }

  function FullHeader(buf: Buffer, h: BoxHeader, st: ScanState, isMedia: bool): ScanState {
    match U8At(buf, h.Body())
    case None => st
    case Some(version) =>
      match U32At(buf, h.Body() + 4 + TimePrefix(version))
      case None => st
      case Some(timescale) =>
        var field := Some(DurationOf(buf, h));
        var timed := if isMedia || st.timescale == 0 then st.(timescale := timescale) else st;
        if isMedia then timed.(mdhd := field) else timed.(mvhd := field)
  }

  // ---- moov and below, each loop as a fold over the boxes it visits

  function MvexFold(buf: Buffer, boxes: seq<BoxHeader>, st: ScanState): ScanState {
    if boxes == [] then st
    else MvexFold(buf, boxes[1..],
                  if boxes[0].kind == TREX then st.(trexDefault := U32At(buf, boxes[0].Body() + 12)) else st)
  }

  function MdiaFold(buf: Buffer, boxes: seq<BoxHeader>, st: ScanState): ScanState {
    if boxes == [] then st
    else MdiaFold(buf, boxes[1..],
                  if boxes[0].kind == MDHD then FullHeader(buf, boxes[0], st, true) else st)
  }

  function TrakStep(buf: Buffer, b: BoxHeader, st: ScanState): ScanState
    requires b.End() <= U64_MAX
  {
    if b.kind == MDIA then MdiaFold(buf, Children(buf, b.Body(), b.End()), st) else st
  }

  ghost predicate Inside(boxes: seq<BoxHeader>, hi: nat) {
    forall b :: b in boxes ==> b.Body() <= b.End() <= hi
  }

  function TrakFold(buf: Buffer, boxes: seq<BoxHeader>, st: ScanState): ScanState
    requires Inside(boxes, U64_MAX)
  {
    if boxes == [] then st
    else TrakFold(buf, boxes[1..], TrakStep(buf, boxes[0], st))
  }

  lemma ChildrenInside(buf: Buffer, offset: nat, limit: u64)
    ensures Inside(Children(buf, offset, limit), limit)
  {
    ChildrenTiled(buf, offset, limit);
  }

  function Mdia(buf: Buffer, trak: BoxHeader, st: ScanState): ScanState
    requires trak.End() <= U64_MAX
  {
    ChildrenInside(buf, trak.Body(), trak.End());
    TrakFold(buf, Children(buf, trak.Body(), trak.End()), st)
  }

  function MoovStep(buf: Buffer, b: BoxHeader, st: ScanState): ScanState
    requires b.End() <= U64_MAX
  {
    if b.kind == MVHD then FullHeader(buf, b, st, false)
    else if b.kind == TRAK then Mdia(buf, b, st)
    else if b.kind == MVEX then MvexFold(buf, Children(buf, b.Body(), b.End()), st)
    else st
  }

  function MoovFold(buf: Buffer, boxes: seq<BoxHeader>, st: ScanState): ScanState
    requires Inside(boxes, U64_MAX)
  {
    if boxes == [] then st
    else MoovFold(buf, boxes[1..], MoovStep(buf, boxes[0], st))
  }

  function Moov(buf: Buffer, moov: BoxHeader, st: ScanState): ScanState
    requires moov.End() <= U64_MAX
  {
    ChildrenInside(buf, moov.Body(), moov.End());
    MoovFold(buf, Children(buf, moov.Body(), moov.End()), st)
  }

  // ---- Track runs (8.8.8) and their defaults: trex (8.8.3), tfhd (8.8.7)

  predicate Flag(flags: nat, bit: nat)
    requires bit > 0
  {
    (flags / bit) % 2 == 1
  }

  function FlagsAt(buf: Buffer, body: nat): Option<nat> {
    match U32At(buf, body + 1)
    case None => None
    case Some(word) => Some((word / 256) % 0x100_0000)
  }

  function TfhdDefaultAt(body: nat, flags: nat): nat {
    body + 8 + (if Flag(flags, 0x01) then 8 else 0) + (if Flag(flags, 0x02) then 4 else 0)
  }

  function TfhdDefault(buf: Buffer, h: BoxHeader): Option<nat> {
    match FlagsAt(buf, h.Body())
    case None => None
    case Some(flags) =>
      if !Flag(flags, 0x08) then None else U32At(buf, TfhdDefaultAt(h.Body(), flags))
  }

  /** The first sample record of a run. */
  function SamplesAt(body: nat, flags: nat): nat {
    body + 8 + (if Flag(flags, 0x01) then 4 else 0) + (if Flag(flags, 0x04) then 4 else 0)
  }

  /** The distance between sample records, with the composition offset the code allows version 1. */
  function Stride(flags: nat, version: nat): nat {
    (if Flag(flags, 0x100) then 4 else 0) + (if Flag(flags, 0x200) then 4 else 0)
    + (if Flag(flags, 0x400) then 4 else 0)
    + (if Flag(flags, 0x800) then (if version == 1 then 8 else 4) else 0)
  }

  /** The per-sample durations of a run, read one after another until one cannot be read. */
  function SampleTicks(buf: Buffer, offset: nat, stride: nat, index: nat, count: nat, total: nat): Option<nat>
    requires index <= count
    decreases count - index
  {
    if index == count then Some(total)
    else
      match CheckedMul(index, stride)
      case None => None
      case Some(skip) =>
        match CheckedAdd(offset, skip)
        case None => None
        case Some(at) =>
          match U32At(buf, at)
          case None => None
          case Some(ticks) =>
            match CheckedAdd(total, ticks)
            case None => None
            case Some(next) => SampleTicks(buf, offset, stride, index + 1, count, next)
  }

  function RunTicks(buf: Buffer, h: BoxHeader, defaultDuration: Option<nat>): Option<nat> {
    match FlagsAt(buf, h.Body())
    case None => None
    case Some(flags) =>
      match U32At(buf, h.Body() + 4)
      case None => None
      case Some(count) =>
        match U8At(buf, h.Body())
        case None => None
        case Some(version) =>
          if !Flag(flags, 0x100) then
            if defaultDuration.None? then None else CheckedMul(count, defaultDuration.value)
          else
            SampleTicks(buf, SamplesAt(h.Body(), flags), Stride(flags, version), 0, count, 0)
  }

  // ---- moof and below

  function FirstOf(boxes: seq<BoxHeader>, kind: seq<byte>): (r: Option<BoxHeader>)
    ensures r.Some? ==> r.value in boxes && r.value.kind == kind
  {
    if boxes == [] then None
    else if boxes[0].kind == kind then Some(boxes[0])
    else FirstOf(boxes[1..], kind)
  }

  /** tfhd's default outranks trex's, and a zero trex default counts as none. */
  function DefaultDuration(buf: Buffer, boxes: seq<BoxHeader>, trexDefault: Option<nat>): Option<nat> {
    var tfhd := FirstOf(boxes, TFHD);
    var declared := if tfhd.None? then None else TfhdDefault(buf, tfhd.value);
    if declared.Some? then declared
    else if trexDefault.Some? && trexDefault.value > 0 then trexDefault
    else None
  }

  /** Ticks so far and whether any run has been summed; nothing once a run fails. */
  type Running = Option<(nat, bool)>

  function RunsFold(buf: Buffer, boxes: seq<BoxHeader>, defaultDuration: Option<nat>, total: nat,
        resolved: bool): Running {
    if boxes == [] then Some((total, resolved))
    else if boxes[0].kind != TRUN then RunsFold(buf, boxes[1..], defaultDuration, total, resolved)
    else
      match RunTicks(buf, boxes[0], defaultDuration)
      case None => None
      case Some(ticks) =>
        match CheckedAdd(total, ticks)
        case None => None
        case Some(next) => RunsFold(buf, boxes[1..], defaultDuration, next, true)
  }

  function TrafsFold(buf: Buffer, trafs: seq<BoxHeader>, trexDefault: Option<nat>, total: nat, resolved: bool): Running
    requires Inside(trafs, U64_MAX)
  {
    if trafs == [] then Some((total, resolved))
    else if trafs[0].kind != TRAF then TrafsFold(buf, trafs[1..], trexDefault, total, resolved)
    else
      var boxes := Children(buf, trafs[0].Body(), trafs[0].End());
      match RunsFold(buf, boxes, DefaultDuration(buf, boxes, trexDefault), total, resolved)
      case None => None
      case Some(sofar) => TrafsFold(buf, trafs[1..], trexDefault, sofar.0, sofar.1)
  }

  function FragmentTicks(buf: Buffer, moof: BoxHeader, trexDefault: Option<nat>): Option<nat>
    requires moof.End() <= U64_MAX
  {
    ChildrenInside(buf, moof.Body(), moof.End());
    match TrafsFold(buf, Children(buf, moof.Body(), moof.End()), trexDefault, 0, false)
    case None => None
    case Some(sofar) => if sofar.1 then Some(sofar.0) else None
  }

  /** tfdt (8.8.12) holds 64 bits in version 1 and 32 otherwise. */
  function TfdtTime(buf: Buffer, h: BoxHeader): Option<nat> {
    match U8At(buf, h.Body())
    case None => None
    case Some(version) =>
      if version == 1 then U64At(buf, h.Body() + 4) else U32At(buf, h.Body() + 4)
  }

  function DecodeTimeFold(buf: Buffer, trafs: seq<BoxHeader>): Option<nat>
    requires Inside(trafs, U64_MAX)
  {
    if trafs == [] then None
    else
      var tfdt := if trafs[0].kind != TRAF then None
                  else FirstOf(Children(buf, trafs[0].Body(), trafs[0].End()), TFDT);
      if tfdt.None? then DecodeTimeFold(buf, trafs[1..]) else TfdtTime(buf, tfdt.value)
  }

  function BaseDecodeTime(buf: Buffer, moof: BoxHeader): Option<nat>
    requires moof.End() <= U64_MAX
  {
    ChildrenInside(buf, moof.Body(), moof.End());
    DecodeTimeFold(buf, Children(buf, moof.Body(), moof.End()))
  }

  // ---- The whole file

  /** One fragment that resolved to `ticks`. */
  function AddFragment(st: ScanState, ticks: nat, base: Option<nat>): ScanState {
    var summed := st.(sumTicks := SaturatingAdd(st.sumTicks, ticks));
    if base.None? then summed
    else summed.(endTicks := Max(summed.endTicks, SaturatingAdd(base.value, ticks)))
  }

  function TopStep(buf: Buffer, b: BoxHeader, st: ScanState): ScanState
    requires b.End() <= U64_MAX
  {
    if b.kind == MOOV then Moov(buf, b, st)
    else if b.kind == MOOF then
      var counted := st.(fragments := st.fragments + 1);
      match FragmentTicks(buf, b, counted.trexDefault)
      case None => counted
      case Some(ticks) => AddFragment(counted, ticks, BaseDecodeTime(buf, b))
    else st
  }

  function TopFold(buf: Buffer, boxes: seq<BoxHeader>, st: ScanState): ScanState
    requires Inside(boxes, U64_MAX)
  {
    if boxes == [] then st
    else TopFold(buf, boxes[1..], TopStep(buf, boxes[0], st))
  }

  function Top(buf: Buffer): (boxes: seq<BoxHeader>)
    ensures Inside(boxes, |buf|)
  {
    ChildrenInside(buf, 0, |buf|);
    Children(buf, 0, |buf|)
  }

  function Scan(buf: Buffer): ScanState {
    TopFold(buf, Top(buf), BLANK)
  }
}
