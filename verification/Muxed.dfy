/**
 Whole fragmented files: a list of boxes as a muxer means them, the bytes ISO/IEC 14496-12
 writes for them, and the proof that the scanner of crates/media/src/fragmented.rs computes
 from those bytes what the boxes mean.
 */
module Muxed {
  import opened Prelude
  import opened Bytes
  import opened BoxWalk
  import opened Fragmented
  import opened Layout

  // ---- Boxes on the wire (4.2)

  datatype RawBox = RawBox(kind: seq<byte>, payload: seq<byte>) {
    function Size(): nat { 8 + |payload| }

    ghost predicate Sized() { |kind| == 4 && Size() <= U32_MAX }

    function Wire(): seq<byte> { ToBe(Size(), 4) + (kind + payload) }
  }

  function WireAll(boxes: seq<RawBox>): seq<byte> {
    if boxes == [] then [] else boxes[0].Wire() + WireAll(boxes[1..])
  }

  ghost predicate AllSized(boxes: seq<RawBox>) {
    forall i :: 0 <= i < |boxes| ==> boxes[i].Sized()
  }

  /** The box can be read at `p`. */
  ghost predicate LaidBox(buf: Buffer, p: nat, b: RawBox) {
    && b.Sized() && p + b.Size() <= |buf|
    && U32At(buf, p) == Some(b.Size()) && buf[p + 4..p + 8] == b.kind && Laid(buf, p + 8, b.payload)
  }

  ghost predicate LaidAll(buf: Buffer, p: nat, boxes: seq<RawBox>)
    decreases |boxes|
  {
    boxes == [] || (LaidBox(buf, p, boxes[0]) && LaidAll(buf, p + boxes[0].Size(), boxes[1..]))
  }

  lemma WireIsLaid(buf: Buffer, p: nat, b: RawBox)
    requires b.Sized() && Laid(buf, p, b.Wire())
    ensures LaidBox(buf, p, b)
  {
    LaidBoth(buf, p, ToBe(b.Size(), 4), b.kind + b.payload);
    LaidBoth(buf, p + 4, b.kind, b.payload);
    ReadU32(buf, p, b.Size());
    KindLaid(buf, p + 4, b.kind);
  }

  lemma KindLaid(buf: Buffer, p: nat, kind: seq<byte>)
    requires Laid(buf, p, kind)
    ensures buf[p..p + |kind|] == kind
  {
  }

  function TotalSize(boxes: seq<RawBox>): nat {
    if boxes == [] then 0 else boxes[0].Size() + TotalSize(boxes[1..])
  }

  lemma {:induction false} WiresAreLaid(buf: Buffer, p: nat, boxes: seq<RawBox>)
    requires AllSized(boxes) && Laid(buf, p, WireAll(boxes))
    ensures LaidAll(buf, p, boxes) && |WireAll(boxes)| == TotalSize(boxes)
    decreases |boxes|
  {
    if boxes != [] {
      LaidBoth(buf, p, boxes[0].Wire(), WireAll(boxes[1..]));
      WireIsLaid(buf, p, boxes[0]);
      WiresAreLaid(buf, p + boxes[0].Size(), boxes[1..]);
    }
  }

  // ---- Walking them

  function HeaderAt(p: nat, b: RawBox): BoxHeader {
    BoxHeader(p, b.Size(), 8, b.kind)
  }

  function HeadersAt(p: nat, boxes: seq<RawBox>): seq<BoxHeader>
    decreases |boxes|
  {
    if boxes == [] then [] else [HeaderAt(p, boxes[0])] + HeadersAt(p + boxes[0].Size(), boxes[1..])
  }

  lemma ReadHeaderLaid(buf: Buffer, p: nat, b: RawBox, limit: u64)
    requires LaidBox(buf, p, b) && p + b.Size() <= limit
    ensures ReadHeader(buf, p, limit) == Some(HeaderAt(p, b))
  {
    assert Be(buf[p..p + 4]) == b.Size();
  }

  lemma WalkOn(buf: Buffer, p: nat, limit: u64, h: BoxHeader, rest: seq<BoxHeader>)
    requires ReadHeader(buf, p, limit) == Some(h) && Children(buf, h.End(), limit) == rest
    ensures Children(buf, p, limit) == [h] + rest
  {
  }

  /** The walk of a range laid out as boxes finds exactly those boxes. */
  lemma {:induction false} ChildrenLaid(buf: Buffer, p: nat, boxes: seq<RawBox>, limit: u64)
    requires LaidAll(buf, p, boxes) && limit == p + TotalSize(boxes)
    ensures Children(buf, p, limit) == HeadersAt(p, boxes)
    decreases |boxes|
  {
    if boxes != [] {
      ReadHeaderLaid(buf, p, boxes[0], limit);
      ChildrenLaid(buf, p + boxes[0].Size(), boxes[1..], limit);
      WalkOn(buf, p, limit, HeaderAt(p, boxes[0]), HeadersAt(p + boxes[0].Size(), boxes[1..]));
    }
  }

  lemma PayloadLaid(buf: Buffer, p: nat, b: RawBox, boxes: seq<RawBox>)
    requires LaidBox(buf, p, b) && b.payload == WireAll(boxes) && AllSized(boxes)
    ensures LaidAll(buf, p + 8, boxes) && b.Size() == 8 + TotalSize(boxes) && p + b.Size() <= |buf|
  {
    WiresAreLaid(buf, p + 8, boxes);
  }

  /** A box that holds boxes: walking its payload finds them. */
  lemma NodeLaid(buf: Buffer, p: nat, b: RawBox, boxes: seq<RawBox>)
    requires LaidBox(buf, p, b) && b.payload == WireAll(boxes) && AllSized(boxes)
    ensures p + b.Size() <= |buf| && LaidAll(buf, p + 8, boxes)
    ensures Children(buf, p + 8, p + b.Size()) == HeadersAt(p + 8, boxes)
  {
    PayloadLaid(buf, p, b, boxes);
    ChildrenLaid(buf, p + 8, boxes, p + b.Size());
  }

  // ---- Trees of boxes

  /** A box as a muxer means it: one of the boxes the scanner reads, one that holds boxes, or any other. */
  datatype Node =
    | Head(media: bool, header: HeaderBox)
    | Extends(trex: TrexBox)
    | FragmentHead(tfhd: TfhdBox)
    | DecodeTime(tfdt: TfdtBox)
    | Run(run: TrunBox)
    | Holder(kind: seq<byte>, children: seq<Node>)
    | Else(raw: RawBox)

  predicate IsLeaf(kind: seq<byte>) {
    kind == MVHD || kind == MDHD || kind == TREX || kind == TFHD || kind == TFDT || kind == TRUN
  }

  predicate IsHolder(kind: seq<byte>) {
    kind == MOOV || kind == TRAK || kind == MDIA || kind == MVEX || kind == MOOF || kind == TRAF
  }

  function Raw(n: Node): RawBox
    decreases n
  {
    match n
    case Head(media, header) => RawBox(if media then MDHD else MVHD, header.Payload())
    case Extends(trex) => RawBox(TREX, trex.Payload())
    case FragmentHead(tfhd) => RawBox(TFHD, tfhd.Payload())
    case DecodeTime(tfdt) => RawBox(TFDT, tfdt.Payload())
    case Run(run) => RawBox(TRUN, run.Payload())
    case Holder(kind, children) => RawBox(kind, WireAll(Raws(children)))
    case Else(raw) => raw
  }

  function Raws(ns: seq<Node>): seq<RawBox>
    decreases ns
  {
    if ns == [] then [] else [Raw(ns[0])] + Raws(ns[1..])
  }

  /** Each value fits its field and each box a 32-bit size; a box of another kind is not one the scanner knows. */
  ghost predicate NodeValid(n: Node)
    decreases n
  {
    && Raw(n).Sized()
    && match n
       case Head(_, header) => header.Valid()
       case Extends(trex) => trex.Valid()
       case FragmentHead(tfhd) => tfhd.Valid()
       case DecodeTime(tfdt) => tfdt.Valid()
       case Run(run) => run.Valid()
       case Holder(kind, children) => !IsLeaf(kind) && NodesValid(children)
       case Else(raw) => !IsLeaf(raw.kind) && !IsHolder(raw.kind)
  }

  ghost predicate NodesValid(ns: seq<Node>)
    decreases ns
  {
    ns == [] || (NodeValid(ns[0]) && NodesValid(ns[1..]))
  }

  // ---- What they mean

  /** What `ScanState` holds, with only whether the two duration fields were found. */
  datatype Clock = Clock(
    fragments: nat, timescale: nat, endTicks: nat, sumTicks: nat, trexDefault: Option<nat>, mvhd: bool, mdhd: bool)

  function ClockOf(st: ScanState): Clock {
    Clock(st.fragments, st.timescale, st.endTicks, st.sumTicks, st.trexDefault, st.mvhd.Some?, st.mdhd.Some?)
  }

  /** A media header sets the timescale; a movie header only when there is none yet. */
  function HeadMean(n: Node, c: Clock): Clock
    requires n.Head?
  {
    if n.media then c.(timescale := n.header.timescale, mdhd := true)
    else c.(timescale := if c.timescale == 0 then n.header.timescale else c.timescale, mvhd := true)
  }

  function MdiaMean(ns: seq<Node>, c: Clock): Clock {
    if ns == [] then c else MdiaMean(ns[1..], if ns[0].Head? && ns[0].media then HeadMean(ns[0], c) else c)
  }

  function TrakMean(ns: seq<Node>, c: Clock): Clock {
    if ns == [] then c
    else TrakMean(ns[1..], if ns[0].Holder? && ns[0].kind == MDIA then MdiaMean(ns[0].children, c) else c)
  }

  /** The last extension box decides the default duration. */
  function MvexMean(ns: seq<Node>, c: Clock): Clock {
    if ns == [] then c
    else MvexMean(ns[1..], if ns[0].Extends? then c.(trexDefault := Some(ns[0].trex.duration)) else c)
  }

  function MoovChildMean(n: Node, c: Clock): Clock {
    if n.Head? && !n.media then HeadMean(n, c)
    else if n.Holder? && n.kind == TRAK then TrakMean(n.children, c)
    else if n.Holder? && n.kind == MVEX then MvexMean(n.children, c)
    else c
  }

  function MoovMean(ns: seq<Node>, c: Clock): Clock {
    if ns == [] then c else MoovMean(ns[1..], MoovChildMean(ns[0], c))
  }

  /** The first track fragment header's own default, if it has one. */
  function OwnDefault(ns: seq<Node>): Option<nat> {
    if ns == [] then None
    else if ns[0].FragmentHead? then ns[0].tfhd.Default()
    else OwnDefault(ns[1..])
  }

  /** A fragment's own default outranks the track's, and a zero one of the track counts as none. */
  function DefaultOf(own: Option<nat>, trexDefault: Option<nat>): Option<nat> {
    if own.Some? then own else if trexDefault.Some? && trexDefault.value > 0 then trexDefault else None
  }

  /** The ticks of each run of a track fragment. */
  function RunsOf(ns: seq<Node>, defaultDuration: Option<nat>): seq<Option<nat>> {
    if ns == [] then []
    else (if ns[0].Run? then [ns[0].run.Ticks(defaultDuration)] else []) + RunsOf(ns[1..], defaultDuration)
  }

  /** The ticks of each run of each track fragment of a fragment. */
  function AllRuns(ns: seq<Node>, trexDefault: Option<nat>): seq<Option<nat>> {
    if ns == [] then []
    else
      (if ns[0].Holder? && ns[0].kind == TRAF
       then RunsOf(ns[0].children, DefaultOf(OwnDefault(ns[0].children), trexDefault)) else [])
      + AllRuns(ns[1..], trexDefault)
  }

  function Total(ticks: seq<Option<nat>>): nat {
    if ticks == [] then 0 else (if ticks[0].Some? then ticks[0].value else 0) + Total(ticks[1..])
  }

  /** A fragment lasts the sum of all its runs; it must have one, know each, and stay within 64 bits. */
  function Lasts(ticks: seq<Option<nat>>): Option<nat> {
    if ticks != [] && (forall i :: 0 <= i < |ticks| ==> ticks[i].Some?) && Total(ticks) <= U64_MAX
    then Some(Total(ticks)) else None
  }

  function FirstTime(ns: seq<Node>): Option<nat> {
    if ns == [] then None else if ns[0].DecodeTime? then Some(ns[0].tfdt.time) else FirstTime(ns[1..])
  }

  /** The decode time of the first track fragment that has one. */
  function StartsAt(ns: seq<Node>): Option<nat> {
    if ns == [] then None
    else if ns[0].Holder? && ns[0].kind == TRAF && FirstTime(ns[0].children).Some? then FirstTime(ns[0].children)
    else StartsAt(ns[1..])
  }

  function MeanOne(n: Node, c: Clock): Clock {
    if n.Holder? && n.kind == MOOV then MoovMean(n.children, c)
    else if n.Holder? && n.kind == MOOF then
      var counted := c.(fragments := c.fragments + 1);
      match Lasts(AllRuns(n.children, c.trexDefault))
      case None => counted
      case Some(ticks) =>
        var summed := counted.(sumTicks := SaturatingAdd(c.sumTicks, ticks));
        (match StartsAt(n.children)
         case None => summed
         case Some(start) =>
           var end := SaturatingAdd(start, ticks);
           summed.(endTicks := if end > c.endTicks then end else c.endTicks))
    else c
  }

  function Mean(ns: seq<Node>, c: Clock): Clock {
    if ns == [] then c else Mean(ns[1..], MeanOne(ns[0], c))
  }

  // ---- Nodes in the bytes

  lemma FirstNode(buf: Buffer, p: nat, ns: seq<Node>)
    requires ns != [] && NodesValid(ns) && LaidAll(buf, p, Raws(ns))
    ensures var n, q := ns[0], p + Raw(ns[0]).Size();
            && NodeValid(n) && NodesValid(ns[1..]) && LaidBox(buf, p, Raw(n)) && LaidAll(buf, q, Raws(ns[1..]))
            && q <= |buf|
            && HeadersAt(p, Raws(ns)) == [HeaderAt(p, Raw(n))] + HeadersAt(q, Raws(ns[1..]))
  {
    hide Raw, NodeValid, LaidBox;
    assert Raws(ns)[1..] == Raws(ns[1..]);
    assert LaidBox(buf, p, Raw(ns[0]));
    BoxInside(buf, p, Raw(ns[0]));
  }

  lemma BoxInside(buf: Buffer, p: nat, b: RawBox)
    requires LaidBox(buf, p, b)
    ensures p + b.Size() <= |buf|
  {
  }

  lemma NoNodes(p: nat)
    ensures HeadersAt(p, Raws([])) == []
  {
  }

  lemma {:induction false} NodesSized(ns: seq<Node>)
    requires NodesValid(ns)
    ensures AllSized(Raws(ns))
  {
    hide Raw;
    if ns != [] {
      NodesSized(ns[1..]);
    }
  }

  /** A holder's children are found where its payload lies. */
  lemma HolderLaid(buf: Buffer, p: nat, n: Node)
    requires n.Holder? && NodeValid(n) && LaidBox(buf, p, Raw(n))
    ensures var h := HeaderAt(p, Raw(n));
            && h.End() <= |buf| && NodesValid(n.children) && LaidAll(buf, p + 8, Raws(n.children))
            && Children(buf, h.Body(), h.End()) == HeadersAt(p + 8, Raws(n.children))
  {
    hide LaidBox, LaidAll, WireAll, Children, HeadersAt;
    NodesSized(n.children);
    NodeLaid(buf, p, Raw(n), Raws(n.children));
  }

  lemma NodesInside(buf: Buffer, p: nat, n: Node)
    requires n.Holder? && NodeValid(n) && LaidBox(buf, p, Raw(n))
    ensures Inside(HeadersAt(p + 8, Raws(n.children)), U64_MAX)
  {
    hide LaidBox, Raws, HeadersAt, Children;
    HolderLaid(buf, p, n);
    var h := HeaderAt(p, Raw(n));
    ChildrenInside(buf, h.Body(), h.End());
  }

  // ---- Folds, one box at a time

  lemma InsideTail(h: BoxHeader, hs: seq<BoxHeader>, hi: nat)
    requires Inside([h] + hs, hi)
    ensures Inside(hs, hi) && h.End() <= hi && ([h] + hs)[1..] == hs
  {
    assert h in [h] + hs;
    forall b | b in hs ensures b.Body() <= b.End() <= hi {
      assert b in [h] + hs;
    }
  }

  lemma HeadLaid(buf: Buffer, p: nat, n: Node, st: ScanState)
    requires n.Head? && NodeValid(n) && LaidBox(buf, p, Raw(n))
    ensures ClockOf(FullHeader(buf, HeaderAt(p, Raw(n)), st, n.media)) == HeadMean(n, ClockOf(st))
  {
    HeaderReadBack(buf, HeaderAt(p, Raw(n)), n.header, st, n.media);
  }

  lemma {:induction false} MdiaLaid(buf: Buffer, p: nat, ns: seq<Node>, st: ScanState)
    requires NodesValid(ns) && LaidAll(buf, p, Raws(ns))
    ensures ClockOf(MdiaFold(buf, HeadersAt(p, Raws(ns)), st)) == MdiaMean(ns, ClockOf(st))
    decreases |ns|
  {
    hide FullHeader, LaidBox, LaidAll, HeadMean, HeadersAt, Raws, ClockOf;
    if ns == [] {
      NoNodes(p);
    } else {
      FirstNode(buf, p, ns);
      var n, h := ns[0], HeaderAt(p, Raw(ns[0]));
      if n.Head? && n.media {
        HeadLaid(buf, p, n, st);
      }
      var q := p + Raw(n).Size();
      assert ([h] + HeadersAt(q, Raws(ns[1..])))[1..] == HeadersAt(q, Raws(ns[1..]));
      MdiaLaid(buf, q, ns[1..], if h.kind == MDHD then FullHeader(buf, h, st, true) else st);
    }
  }

  lemma {:induction false} MvexLaid(buf: Buffer, p: nat, ns: seq<Node>, st: ScanState)
    requires NodesValid(ns) && LaidAll(buf, p, Raws(ns))
    ensures ClockOf(MvexFold(buf, HeadersAt(p, Raws(ns)), st)) == MvexMean(ns, ClockOf(st))
    decreases |ns|
  {
    hide LaidBox, LaidAll, HeadersAt, Raws;
    if ns == [] {
      NoNodes(p);
    } else {
      FirstNode(buf, p, ns);
      var n, h := ns[0], HeaderAt(p, Raw(ns[0]));
      if n.Extends? {
        ExtendsLaid(buf, p, n);
      }
      var q := p + Raw(n).Size();
      assert ([h] + HeadersAt(q, Raws(ns[1..])))[1..] == HeadersAt(q, Raws(ns[1..]));
      MvexLaid(buf, q, ns[1..], if h.kind == TREX then st.(trexDefault := U32At(buf, h.Body() + 12)) else st);
    }
  }

  lemma ExtendsLaid(buf: Buffer, p: nat, n: Node)
    requires n.Extends? && NodeValid(n) && LaidBox(buf, p, Raw(n))
    ensures U32At(buf, HeaderAt(p, Raw(n)).Body() + 12) == Some(n.trex.duration)
  {
    TrexReadBack(buf, HeaderAt(p, Raw(n)), n.trex);
  }

  lemma {:induction false} TrakLaid(buf: Buffer, p: nat, ns: seq<Node>, st: ScanState)
    requires NodesValid(ns) && LaidAll(buf, p, Raws(ns)) && Inside(HeadersAt(p, Raws(ns)), U64_MAX)
    ensures ClockOf(TrakFold(buf, HeadersAt(p, Raws(ns)), st)) == TrakMean(ns, ClockOf(st))
    decreases |ns|
  {
    hide LaidBox, LaidAll, HeadersAt, Raws, ClockOf, MdiaFold, MdiaMean, Children, Inside;
    if ns == [] {
      NoNodes(p);
    } else {
      FirstNode(buf, p, ns);
      var n, h, q := ns[0], HeaderAt(p, Raw(ns[0])), p + Raw(ns[0]).Size();
      InsideTail(h, HeadersAt(q, Raws(ns[1..])), U64_MAX);
      if n.Holder? && n.kind == MDIA {
        HolderLaid(buf, p, n);
        MdiaLaid(buf, p + 8, n.children, st);
      }
      TrakLaid(buf, q, ns[1..], TrakStep(buf, h, st));
    }
  }

  lemma MoovChildLaid(buf: Buffer, p: nat, n: Node, st: ScanState)
    requires NodeValid(n) && LaidBox(buf, p, Raw(n)) && HeaderAt(p, Raw(n)).End() <= U64_MAX
    ensures ClockOf(MoovStep(buf, HeaderAt(p, Raw(n)), st)) == MoovChildMean(n, ClockOf(st))
  {
    hide LaidBox, LaidAll, HeadersAt, Raws, ClockOf, TrakFold, TrakMean, MvexFold, MvexMean, Children, FullHeader,
         HeadMean, Inside;
    if n.Head? && !n.media {
      HeadLaid(buf, p, n, st);
    } else if n.Holder? && n.kind == TRAK {
      HolderLaid(buf, p, n);
      NodesInside(buf, p, n);
      TrakLaid(buf, p + 8, n.children, st);
    } else if n.Holder? && n.kind == MVEX {
      HolderLaid(buf, p, n);
      MvexLaid(buf, p + 8, n.children, st);
    }
  }

  lemma {:induction false} MoovLaid(buf: Buffer, p: nat, ns: seq<Node>, st: ScanState)
    requires NodesValid(ns) && LaidAll(buf, p, Raws(ns)) && Inside(HeadersAt(p, Raws(ns)), U64_MAX)
    ensures ClockOf(MoovFold(buf, HeadersAt(p, Raws(ns)), st)) == MoovMean(ns, ClockOf(st))
    decreases |ns|
  {
    hide LaidBox, LaidAll, HeadersAt, Raws, ClockOf, MoovStep, MoovChildMean, Inside;
    if ns == [] {
      NoNodes(p);
    } else {
      FirstNode(buf, p, ns);
      var n, h, q := ns[0], HeaderAt(p, Raw(ns[0])), p + Raw(ns[0]).Size();
      InsideTail(h, HeadersAt(q, Raws(ns[1..])), U64_MAX);
      MoovChildLaid(buf, p, n, st);
      MoovLaid(buf, q, ns[1..], MoovStep(buf, h, st));
    }
  }

  // ---- Reading a fragment

  lemma {:induction false} OwnDefaultLaid(buf: Buffer, p: nat, ns: seq<Node>)
    requires NodesValid(ns) && LaidAll(buf, p, Raws(ns))
    ensures var first := FirstOf(HeadersAt(p, Raws(ns)), TFHD);
            OwnDefault(ns) == if first.None? then None else TfhdDefault(buf, first.value)
    decreases |ns|
  {
    hide LaidBox, LaidAll, HeadersAt, Raws, TfhdDefault, TfhdBox.Default;
    if ns == [] {
      NoNodes(p);
    } else {
      FirstNode(buf, p, ns);
      var n, h, q := ns[0], HeaderAt(p, Raw(ns[0])), p + Raw(ns[0]).Size();
      assert ([h] + HeadersAt(q, Raws(ns[1..])))[1..] == HeadersAt(q, Raws(ns[1..]));
      if n.FragmentHead? {
        TfhdLaid(buf, p, n);
      } else {
        OwnDefaultLaid(buf, q, ns[1..]);
      }
    }
  }

  lemma TfhdLaid(buf: Buffer, p: nat, n: Node)
    requires n.FragmentHead? && NodeValid(n) && LaidBox(buf, p, Raw(n))
    ensures TfhdDefault(buf, HeaderAt(p, Raw(n))) == n.tfhd.Default()
  {
    TfhdReadBack(buf, HeaderAt(p, Raw(n)), n.tfhd);
  }

  lemma {:induction false} FirstTimeLaid(buf: Buffer, p: nat, ns: seq<Node>)
    requires NodesValid(ns) && LaidAll(buf, p, Raws(ns))
    ensures var first := FirstOf(HeadersAt(p, Raws(ns)), TFDT);
            && first.Some? == FirstTime(ns).Some?
            && (first.Some? ==> TfdtTime(buf, first.value) == FirstTime(ns))
    decreases |ns|
  {
    hide LaidBox, LaidAll, HeadersAt, Raws, TfdtTime;
    if ns == [] {
      NoNodes(p);
    } else {
      FirstNode(buf, p, ns);
      var n, h, q := ns[0], HeaderAt(p, Raw(ns[0])), p + Raw(ns[0]).Size();
      assert ([h] + HeadersAt(q, Raws(ns[1..])))[1..] == HeadersAt(q, Raws(ns[1..]));
      if n.DecodeTime? {
        TfdtLaid(buf, p, n);
      } else {
        FirstTimeLaid(buf, q, ns[1..]);
      }
    }
  }

  lemma TfdtLaid(buf: Buffer, p: nat, n: Node)
    requires n.DecodeTime? && NodeValid(n) && LaidBox(buf, p, Raw(n))
    ensures TfdtTime(buf, HeaderAt(p, Raw(n))) == Some(n.tfdt.time)
  {
    TfdtReadBack(buf, HeaderAt(p, Raw(n)), n.tfdt);
  }

  lemma RunLaid(buf: Buffer, p: nat, n: Node, defaultDuration: Option<nat>)
    requires n.Run? && NodeValid(n) && LaidBox(buf, p, Raw(n)) && AtMost32(defaultDuration)
    ensures RunTicks(buf, HeaderAt(p, Raw(n)), defaultDuration) == n.run.Ticks(defaultDuration)
  {
    TrunReadBack(buf, HeaderAt(p, Raw(n)), n.run, defaultDuration);
  }

  /** Runs added to what there is: nothing once one is unknown or the sum leaves 64 bits. */
  function Added(ticks: seq<Option<nat>>, total: nat, resolved: bool): Running {
    if ticks == [] then Some((total, resolved))
    else if ticks[0].None? || total + ticks[0].value > U64_MAX then None
    else Added(ticks[1..], total + ticks[0].value, true)
  }

  lemma {:induction false} AddedBoth(a: seq<Option<nat>>, b: seq<Option<nat>>, total: nat, resolved: bool)
    ensures var first := Added(a, total, resolved);
            Added(a + b, total, resolved) == if first.None? then None else Added(b, first.value.0, first.value.1)
    decreases |a|
  {
    if a == [] {
      assert a + b == b;
    } else {
      assert (a + b)[1..] == a[1..] + b;
      if ticks :| ticks == a[0] && ticks.Some? && total + ticks.value <= U64_MAX {
        AddedBoth(a[1..], b, total + ticks.value, true);
      }
    }
  }

  /** Adding all runs from nothing gives what the fragment lasts. */
  lemma {:induction false} AddedIsTotal(ticks: seq<Option<nat>>, total: nat, resolved: bool)
    ensures var all := (forall i :: 0 <= i < |ticks| ==> ticks[i].Some?);
            total <= U64_MAX ==>
              Added(ticks, total, resolved) == if all && total + Total(ticks) <= U64_MAX
                                               then Some((total + Total(ticks), resolved || ticks != [])) else None
    decreases |ticks|
  {
    if ticks != [] {
      var rest := ticks[1..];
      assert forall i :: 0 < i < |ticks| ==> ticks[i] == rest[i - 1];
      if ticks[0].Some? {
        AddedIsTotal(rest, total + ticks[0].value, true);
      }
    }
  }

  lemma RawKind(n: Node)
    requires NodeValid(n)
    ensures Raw(n).kind == TRUN <==> n.Run?
  {
  }

  lemma {:induction false} RunsLaid(buf: Buffer, p: nat, ns: seq<Node>, d: Option<nat>, total: nat, resolved: bool)
    requires NodesValid(ns) && LaidAll(buf, p, Raws(ns)) && AtMost32(d)
    ensures RunsFold(buf, HeadersAt(p, Raws(ns)), d, total, resolved) == Added(RunsOf(ns, d), total, resolved)
    decreases |ns|
  {
    hide LaidBox, LaidAll, HeadersAt, Raws, Raw, NodeValid, RunTicks, TrunBox.Ticks;
    if ns == [] {
      NoNodes(p);
    } else {
      FirstNode(buf, p, ns);
      var n, h, q := ns[0], HeaderAt(p, Raw(ns[0])), p + Raw(ns[0]).Size();
      assert ([h] + HeadersAt(q, Raws(ns[1..])))[1..] == HeadersAt(q, Raws(ns[1..]));
      RawKind(n);
      if n.Run? {
        RunLaid(buf, p, n, d);
        var ticks := n.run.Ticks(d);
        assert ([ticks] + RunsOf(ns[1..], d))[1..] == RunsOf(ns[1..], d);
        if ticks.Some? && total + ticks.value <= U64_MAX {
          RunsLaid(buf, q, ns[1..], d, total + ticks.value, true);
        }
      } else {
        assert [] + RunsOf(ns[1..], d) == RunsOf(ns[1..], d);
        RunsLaid(buf, q, ns[1..], d, total, resolved);
      }
    }
  }

  lemma OwnDefaultSmall(ns: seq<Node>)
    requires NodesValid(ns)
    ensures AtMost32(OwnDefault(ns))
  {
    if ns != [] {
      OwnDefaultSmall(ns[1..]);
    }
  }

  lemma TrafLaid(buf: Buffer, p: nat, n: Node, trexDefault: Option<nat>, total: nat, resolved: bool)
    requires n.Holder? && n.kind == TRAF && NodeValid(n) && LaidBox(buf, p, Raw(n)) && AtMost32(trexDefault)
    ensures var h := HeaderAt(p, Raw(n));
            var boxes := Children(buf, h.Body(), h.End());
            && h.End() <= U64_MAX
            && RunsFold(buf, boxes, DefaultDuration(buf, boxes, trexDefault), total, resolved)
               == Added(RunsOf(n.children, DefaultOf(OwnDefault(n.children), trexDefault)), total, resolved)
            && FirstOf(boxes, TFDT).Some? == FirstTime(n.children).Some?
            && (FirstOf(boxes, TFDT).Some? ==> TfdtTime(buf, FirstOf(boxes, TFDT).value) == FirstTime(n.children))
  {
    hide LaidBox, LaidAll, HeadersAt, Raws, TfhdDefault, TfdtTime, Children, RunsFold, RunsOf, Added, FirstOf,
         FirstTime,
         OwnDefault;
    HolderLaid(buf, p, n);
    OwnDefaultSmall(n.children);
    OwnDefaultLaid(buf, p + 8, n.children);
    FirstTimeLaid(buf, p + 8, n.children);
    RunsLaid(buf, p + 8, n.children, DefaultOf(OwnDefault(n.children), trexDefault), total, resolved);
  }

  lemma {:induction false} TrafsLaid(buf: Buffer, p: nat, ns: seq<Node>, trexDefault: Option<nat>, total: nat,
    resolved: bool)
    requires NodesValid(ns) && LaidAll(buf, p, Raws(ns)) && AtMost32(trexDefault)
    requires Inside(HeadersAt(p, Raws(ns)), U64_MAX)
    ensures TrafsFold(buf, HeadersAt(p, Raws(ns)), trexDefault, total, resolved)
         == Added(AllRuns(ns, trexDefault), total, resolved)
    decreases |ns|
  {
    hide LaidBox, LaidAll, HeadersAt, Raws, Children, RunsFold, RunsOf, FirstOf, DefaultDuration, Inside, OwnDefault,
         Added;
    if ns == [] {
      NoNodes(p);
      NothingAdded(total, resolved);
    } else {
      FirstNode(buf, p, ns);
      var n, h, q := ns[0], HeaderAt(p, Raw(ns[0])), p + Raw(ns[0]).Size();
      InsideTail(h, HeadersAt(q, Raws(ns[1..])), U64_MAX);
      if n.Holder? && n.kind == TRAF {
        TrafLaid(buf, p, n, trexDefault, total, resolved);
        var here := RunsOf(n.children, DefaultOf(OwnDefault(n.children), trexDefault));
        AddedBoth(here, AllRuns(ns[1..], trexDefault), total, resolved);
        var sum := Added(here, total, resolved);
        if sum.Some? {
          TrafsLaid(buf, q, ns[1..], trexDefault, sum.value.0, sum.value.1);
        }
      } else {
        assert [] + AllRuns(ns[1..], trexDefault) == AllRuns(ns[1..], trexDefault);
        TrafsLaid(buf, q, ns[1..], trexDefault, total, resolved);
      }
    }
  }

  lemma NothingAdded(total: nat, resolved: bool)
    ensures Added([], total, resolved) == Some((total, resolved))
  {
  }

  lemma {:induction false} StartLaid(buf: Buffer, p: nat, ns: seq<Node>)
    requires NodesValid(ns) && LaidAll(buf, p, Raws(ns)) && Inside(HeadersAt(p, Raws(ns)), U64_MAX)
    ensures DecodeTimeFold(buf, HeadersAt(p, Raws(ns))) == StartsAt(ns)
    decreases |ns|
  {
    hide LaidBox, LaidAll, HeadersAt, Raws, Children, RunsFold, RunsOf, FirstOf, DefaultDuration, Inside, TfdtTime,
         FirstTime,
         OwnDefault;
    if ns == [] {
      NoNodes(p);
    } else {
      FirstNode(buf, p, ns);
      var n, h, q := ns[0], HeaderAt(p, Raw(ns[0])), p + Raw(ns[0]).Size();
      InsideTail(h, HeadersAt(q, Raws(ns[1..])), U64_MAX);
      if n.Holder? && n.kind == TRAF {
        TrafLaid(buf, p, n, None, 0, false);
      }
      StartLaid(buf, q, ns[1..]);
    }
  }

  /** A laid-out fragment lasts the sum of its runs and starts at its first decode time. */
  lemma FragmentLaid(buf: Buffer, p: nat, n: Node, trexDefault: Option<nat>)
    requires n.Holder? && NodeValid(n) && LaidBox(buf, p, Raw(n)) && AtMost32(trexDefault)
    ensures var h := HeaderAt(p, Raw(n));
            && h.End() <= U64_MAX
            && FragmentTicks(buf, h, trexDefault) == Lasts(AllRuns(n.children, trexDefault))
            && BaseDecodeTime(buf, h) == StartsAt(n.children)
  {
    hide LaidBox, LaidAll, HeadersAt, Raws, Children, TrafsFold, DecodeTimeFold, AllRuns, StartsAt, Inside, Added,
         Total;
    HolderLaid(buf, p, n);
    NodesInside(buf, p, n);
    TrafsLaid(buf, p + 8, n.children, trexDefault, 0, false);
    StartLaid(buf, p + 8, n.children);
    AddedIsTotal(AllRuns(n.children, trexDefault), 0, false);
  }

  // ---- The file

  lemma TopNodeLaid(buf: Buffer, p: nat, n: Node, st: ScanState)
    requires NodeValid(n) && LaidBox(buf, p, Raw(n)) && AtMost32(st.trexDefault)
    ensures HeaderAt(p, Raw(n)).End() <= U64_MAX
    ensures ClockOf(TopStep(buf, HeaderAt(p, Raw(n)), st)) == MeanOne(n, ClockOf(st))
  {
    hide LaidBox, LaidAll, HeadersAt, Raws, Children, FragmentTicks, BaseDecodeTime, AllRuns, StartsAt, Lasts,
         MoovFold, MoovMean,
         Inside;
    BoxInside(buf, p, Raw(n));
    if n.Holder? && n.kind == MOOV {
      HolderLaid(buf, p, n);
      NodesInside(buf, p, n);
      MoovLaid(buf, p + 8, n.children, st);
    } else if n.Holder? && n.kind == MOOF {
      FragmentLaid(buf, p, n, st.trexDefault);
    }
  }

  lemma {:induction false} MvexSmall(ns: seq<Node>, c: Clock)
    requires NodesValid(ns) && AtMost32(c.trexDefault)
    ensures AtMost32(MvexMean(ns, c).trexDefault)
  {
    if ns != [] {
      MvexSmall(ns[1..], if ns[0].Extends? then c.(trexDefault := Some(ns[0].trex.duration)) else c);
    }
  }

  lemma {:induction false} TrakSmall(ns: seq<Node>, c: Clock)
    ensures TrakMean(ns, c).trexDefault == c.trexDefault
  {
    if ns != [] {
      if ns[0].Holder? && ns[0].kind == MDIA {
        MdiaSmall(ns[0].children, c);
        TrakSmall(ns[1..], MdiaMean(ns[0].children, c));
      } else {
        TrakSmall(ns[1..], c);
      }
    }
  }

  lemma {:induction false} MdiaSmall(ns: seq<Node>, c: Clock)
    ensures MdiaMean(ns, c).trexDefault == c.trexDefault
  {
    if ns != [] {
      MdiaSmall(ns[1..], if ns[0].Head? && ns[0].media then HeadMean(ns[0], c) else c);
    }
  }

  lemma {:induction false} MoovSmall(ns: seq<Node>, c: Clock)
    requires NodesValid(ns) && AtMost32(c.trexDefault)
    ensures AtMost32(MoovMean(ns, c).trexDefault)
  {
    if ns != [] {
      if ns[0].Holder? && ns[0].kind == TRAK {
        TrakSmall(ns[0].children, c);
      } else if ns[0].Holder? && ns[0].kind == MVEX {
        MvexSmall(ns[0].children, c);
      }
      MoovSmall(ns[1..], MoovChildMean(ns[0], c));
    }
  }

  lemma MeanSmall(n: Node, c: Clock)
    requires NodeValid(n) && AtMost32(c.trexDefault)
    ensures AtMost32(MeanOne(n, c).trexDefault)
  {
    hide AllRuns, StartsAt, Lasts, MoovMean, Raw;
    if n.Holder? && n.kind == MOOV {
      MoovSmall(n.children, c);
    }
  }

  lemma {:induction false} NodesLaid(buf: Buffer, p: nat, ns: seq<Node>, st: ScanState)
    requires NodesValid(ns) && LaidAll(buf, p, Raws(ns)) && AtMost32(st.trexDefault)
    requires Inside(HeadersAt(p, Raws(ns)), U64_MAX)
    ensures ClockOf(TopFold(buf, HeadersAt(p, Raws(ns)), st)) == Mean(ns, ClockOf(st))
    decreases |ns|
  {
    hide LaidBox, LaidAll, HeadersAt, Raws, TopStep, MeanOne, Inside, NodeValid;
    if ns == [] {
      NoNodes(p);
    } else {
      FirstNode(buf, p, ns);
      var n, h, q := ns[0], HeaderAt(p, Raw(ns[0])), p + Raw(ns[0]).Size();
      InsideTail(h, HeadersAt(q, Raws(ns[1..])), U64_MAX);
      TopNodeLaid(buf, p, n, st);
      MeanSmall(n, ClockOf(st));
      NodesLaid(buf, q, ns[1..], TopStep(buf, h, st));
    }
  }

  /** The bytes of the file. */
  function FileBytes(ns: seq<Node>): seq<byte> {
    WireAll(Raws(ns))
  }

  lemma FileChildren(ns: seq<Node>, buf: Buffer)
    requires NodesValid(ns) && buf == FileBytes(ns)
    ensures LaidAll(buf, 0, Raws(ns)) && Top(buf) == HeadersAt(0, Raws(ns))
  {
    hide LaidAll, WireAll, Raws;
    NodesSized(ns);
    WholeIsLaid(buf);
    WiresAreLaid(buf, 0, Raws(ns));
    ChildrenLaid(buf, 0, Raws(ns), |buf|);
  }

  lemma WholeIsLaid(buf: Buffer)
    ensures Laid(buf, 0, buf)
  {
  }

  lemma ScanIsFold(buf: Buffer, hs: seq<BoxHeader>)
    requires Top(buf) == hs
    ensures Inside(hs, U64_MAX) && Scan(buf) == TopFold(buf, hs, BLANK)
  {
    hide TopFold;
    assert Inside(Top(buf), |buf|);
  }

  /**
   The scan of a file written as the standard says is what its boxes mean, for every tree of
   boxes: any number of tracks, fragments and track fragments, with or without headers, default
   durations and decode times, and with any other boxes between them.
   */
  lemma MuxedFileScans(ns: seq<Node>, buf: Buffer)
    requires NodesValid(ns) && buf == FileBytes(ns)
    ensures ClockOf(Scan(buf)) == Mean(ns, ClockOf(BLANK))
  {
    hide LaidAll, HeadersAt, Raws, TopFold, Mean, Inside, FileBytes, Top, Scan;
    FileChildren(ns, buf);
    ScanIsFold(buf, HeadersAt(0, Raws(ns)));
    NodesLaid(buf, 0, ns, BLANK);
  }
}
