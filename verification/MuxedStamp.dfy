/**
 Stamping a whole laid-out file: its boxes are long enough for what they declare, so stamping
 is sound on it, and the duration written is the length of its fragments.
 */
module MuxedStamp {
  import opened Prelude
  import opened Bytes
  import opened BoxWalk
  import opened Fragmented
  import opened NonInterference
  import opened FragmentTime
  import opened Layout
  import opened Muxed
  import Stamp

  // ---- Laid-out boxes are long enough

  lemma HeaderBoxFits(buf: Buffer, h: BoxHeader, b: HeaderBox)
    requires Laid(buf, h.Body(), b.Payload()) && b.Valid() && h.End() == h.Body() + |b.Payload()|
    ensures HeaderFits(buf, h)
  {
    ReadVersioned(buf, h.Body(), b.version, b.flags,
                  ToBe(b.creation, b.Width()) + (ToBe(b.modification, b.Width())
                                                 + (ToBe(b.timescale, 4) + (ToBe(b.duration, b.Width()) + b.rest))));
  }

  lemma TfhdBoxFits(buf: Buffer, h: BoxHeader, b: TfhdBox)
    requires Laid(buf, h.Body(), b.Payload()) && b.Valid() && h.End() == h.Body() + |b.Payload()|
    ensures TfhdFits(buf, h)
  {
    FlagsOf(b.flags);
    ReadVersioned(buf, h.Body(), b.version, Word(b.flags),
                  ToBe(b.track, 4) + (Optional(On(b.flags, 0), b.baseOffset, 8)
                                      + (Optional(On(b.flags, 1), b.description, 4)
                                         + (Optional(On(b.flags, 3), b.duration, 4) + b.rest))));
  }

  lemma TfdtBoxFits(buf: Buffer, h: BoxHeader, b: TfdtBox)
    requires Laid(buf, h.Body(), b.Payload()) && b.Valid() && h.End() == h.Body() + |b.Payload()|
    ensures TfdtFits(buf, h)
  {
    ReadVersioned(buf, h.Body(), b.version, b.flags, ToBe(b.time, b.Width()) + b.rest);
  }

  lemma TrunBoxFits(buf: Buffer, h: BoxHeader, b: TrunBox)
    requires Laid(buf, h.Body(), b.Payload()) && b.Valid() && h.End() == h.Body() + |b.Payload()|
    ensures TrunFits(buf, h)
  {
    hide ToBe, SamplesBytes, Be;
    var p, n, word := h.Body(), |b.samples|, Word(b.flags);
    var stride := Stride(word, b.version);
    TrunParts(buf, h, b);
    SamplesLength(b.samples, b.flags);
    FlagsOf(b.flags);
    assert SamplesAt(p, word) + n * StandardStride(b.flags) <= h.End();
    if On(b.flags, 8) {
      SafeStride(b.version, b.flags, n);
      forall i | 0 <= i < n ensures SampleAt(SamplesAt(p, word), stride, i) + 4 <= h.End() {
        RecordInside(i, n, stride, StandardStride(b.flags));
      }
    }
  }

  lemma RecordInside(i: nat, n: nat, stride: nat, standard: nat)
    requires i < n && standard >= 4 && (n <= 1 || stride == standard)
    ensures i * stride + 4 <= n * standard
  {
    if n <= 1 {
      assert i == 0 && n == 1;
    } else {
      MulMonotone(i + 1, n, standard, standard);
      assert (i + 1) * standard == i * standard + standard;
    }
  }

  /** A box the scanner reads fields from holds them. */
  ghost predicate LeafFits(buf: Buffer, h: BoxHeader) {
    && (h.kind == MVHD || h.kind == MDHD ==> HeaderFits(buf, h))
    && (h.kind == TREX ==> TrexFits(h))
    && (h.kind == TFHD ==> TfhdFits(buf, h))
    && (h.kind == TFDT ==> TfdtFits(buf, h))
    && (h.kind == TRUN ==> TrunFits(buf, h))
  }

  /** So do all boxes inside it, down to a depth. */
  ghost predicate TreeFits(buf: Buffer, h: BoxHeader, depth: nat)
    decreases depth
  {
    && LeafFits(buf, h) && h.End() <= U64_MAX
    && (depth > 0 && IsHolder(h.kind) ==>
          forall c :: c in Children(buf, h.Body(), h.End()) ==> TreeFits(buf, c, depth - 1))
  }

  ghost predicate TreesFit(buf: Buffer, hs: seq<BoxHeader>, depth: nat) {
    forall h :: h in hs ==> TreeFits(buf, h, depth)
  }

  lemma HeadFits(buf: Buffer, p: nat, n: Node)
    requires n.Head? && NodeValid(n) && LaidBox(buf, p, Raw(n))
    ensures LeafFits(buf, HeaderAt(p, Raw(n)))
  {
    HeaderBoxFits(buf, HeaderAt(p, Raw(n)), n.header);
  }

  lemma FragmentHeadFits(buf: Buffer, p: nat, n: Node)
    requires n.FragmentHead? && NodeValid(n) && LaidBox(buf, p, Raw(n))
    ensures LeafFits(buf, HeaderAt(p, Raw(n)))
  {
    TfhdBoxFits(buf, HeaderAt(p, Raw(n)), n.tfhd);
  }

  lemma DecodeTimeFits(buf: Buffer, p: nat, n: Node)
    requires n.DecodeTime? && NodeValid(n) && LaidBox(buf, p, Raw(n))
    ensures LeafFits(buf, HeaderAt(p, Raw(n)))
  {
    TfdtBoxFits(buf, HeaderAt(p, Raw(n)), n.tfdt);
  }

  lemma RunFits(buf: Buffer, p: nat, n: Node)
    requires n.Run? && NodeValid(n) && LaidBox(buf, p, Raw(n))
    ensures LeafFits(buf, HeaderAt(p, Raw(n)))
  {
    TrunBoxFits(buf, HeaderAt(p, Raw(n)), n.run);
  }

  lemma ExtendsFits(buf: Buffer, p: nat, n: Node)
    requires n.Extends?
    ensures LeafFits(buf, HeaderAt(p, Raw(n)))
  {
  }

  lemma LeafLaidFits(buf: Buffer, p: nat, n: Node)
    requires NodeValid(n) && LaidBox(buf, p, Raw(n))
    ensures LeafFits(buf, HeaderAt(p, Raw(n))) && HeaderAt(p, Raw(n)).End() <= |buf|
  {
    BoxInside(buf, p, Raw(n));
    match n
    case Head(_, _) => HeadFits(buf, p, n);
    case Extends(_) => ExtendsFits(buf, p, n);
    case FragmentHead(_) => FragmentHeadFits(buf, p, n);
    case DecodeTime(_) => DecodeTimeFits(buf, p, n);
    case Run(_) => RunFits(buf, p, n);
    case Holder(_, _) =>
    case Else(_) =>
  }

  lemma {:induction false} NodeFits(buf: Buffer, p: nat, n: Node, depth: nat)
    requires NodeValid(n) && LaidBox(buf, p, Raw(n))
    ensures TreeFits(buf, HeaderAt(p, Raw(n)), depth)
    decreases n
  {
    hide LaidBox, LaidAll, LeafFits, HeadersAt, Children, Raws;
    LeafLaidFits(buf, p, n);
    if depth > 0 && n.Holder? {
      HolderLaid(buf, p, n);
      NodesFit(buf, p + 8, n.children, depth - 1);
    }
  }

  lemma {:induction false} NodesFit(buf: Buffer, p: nat, ns: seq<Node>, depth: nat)
    requires NodesValid(ns) && LaidAll(buf, p, Raws(ns))
    ensures TreesFit(buf, HeadersAt(p, Raws(ns)), depth)
    decreases ns
  {
    hide LaidBox, LaidAll, HeadersAt, Raws, TreeFits, NodeValid;
    if ns == [] {
      NoNodes(p);
    } else {
      FirstNode(buf, p, ns);
      NodeFits(buf, p, ns[0], depth);
      NodesFit(buf, p + Raw(ns[0]).Size(), ns[1..], depth);
    }
  }

  lemma MdiaOfTree(buf: Buffer, m: BoxHeader)
    requires m.kind == MDIA && TreeFits(buf, m, 1)
    ensures m.End() <= U64_MAX && MdiaFits(buf, m)
  {
    forall g | g in Children(buf, m.Body(), m.End()) && g.kind == MDHD ensures HeaderFits(buf, g) {
      assert TreeFits(buf, g, 0);
    }
  }

  lemma MoovChildOfTree(buf: Buffer, c: BoxHeader)
    requires TreeFits(buf, c, 2)
    ensures c.End() <= U64_MAX && MoovChildFits(buf, c)
  {
    hide HeaderFits, MdiaFits;
    if c.kind == TRAK {
      ChildrenInside(buf, c.Body(), c.End());
      forall m | m in Children(buf, c.Body(), c.End()) && m.kind == MDIA ensures MdiaFits(buf, m) {
        assert TreeFits(buf, m, 1);
        MdiaOfTree(buf, m);
      }
    } else if c.kind == MVEX {
      forall g | g in Children(buf, c.Body(), c.End()) && g.kind == TREX ensures TrexFits(g) {
        assert TreeFits(buf, g, 1);
      }
    }
  }

  lemma TrafOfTree(buf: Buffer, t: BoxHeader)
    requires t.kind == TRAF && TreeFits(buf, t, 2)
    ensures t.End() <= U64_MAX && TrafFits(buf, t)
  {
    hide TfhdFits, TfdtFits, TrunFits;
    forall c | c in Children(buf, t.Body(), t.End())
      ensures (c.kind == TFHD ==> TfhdFits(buf, c)) && (c.kind == TFDT ==> TfdtFits(buf, c))
              && (c.kind == TRUN ==> TrunFits(buf, c))
    {
      assert TreeFits(buf, c, 1);
    }
  }

  lemma TopOfTree(buf: Buffer, b: BoxHeader)
    requires TreeFits(buf, b, 3)
    ensures b.End() <= U64_MAX && TopFits(buf, b)
  {
    hide MoovChildFits, TrafFits, LeafFits;
    ChildrenInside(buf, b.Body(), b.End());
    if b.kind == MOOV || b.kind == MOOF {
      forall c | c in Children(buf, b.Body(), b.End())
        ensures c.End() <= U64_MAX && (b.kind == MOOV ==> MoovChildFits(buf, c))
                && (c.kind == TRAF ==> TrafFits(buf, c))
      {
        assert TreeFits(buf, c, 2);
        MoovChildOfTree(buf, c);
        if c.kind == TRAF {
          TrafOfTree(buf, c);
        }
      }
    }
  }

  /** A file written as the standard says is one on which stamping is sound. */
  lemma MuxedWellSized(ns: seq<Node>, buf: Buffer)
    requires NodesValid(ns) && buf == FileBytes(ns)
    ensures WellSized(buf)
  {
    hide TreeFits, TopFits, LaidAll, Raws, HeadersAt, Top;
    FileChildren(ns, buf);
    NodesFit(buf, 0, ns, 3);
    forall b | b in Top(buf) ensures b.End() <= U64_MAX && TopFits(buf, b) {
      TopOfTree(buf, b);
    }
  }

  // ---- The duration of a file

  /** The fragments that resolve, each under the default known when it is reached. */
  function SpansOf(ns: seq<Node>, c: Clock): seq<Span> {
    if ns == [] then []
    else
      var ticks := if ns[0].Holder? && ns[0].kind == MOOF then Lasts(AllRuns(ns[0].children, c.trexDefault)) else None;
      (if ticks.Some? then [Span(StartsAt(ns[0].children), ticks.value)] else []) + SpansOf(ns[1..], MeanOne(ns[0], c))
  }

  lemma SpanLaid(buf: Buffer, p: nat, n: Node, trexDefault: Option<nat>)
    requires NodeValid(n) && LaidBox(buf, p, Raw(n)) && AtMost32(trexDefault)
    ensures var h := HeaderAt(p, Raw(n));
            && h.End() <= U64_MAX && (h.kind == MOOF <==> n.Holder? && n.kind == MOOF)
            && (h.kind == MOOF ==> && FragmentTicks(buf, h, trexDefault) == Lasts(AllRuns(n.children, trexDefault))
                                   && BaseDecodeTime(buf, h) == StartsAt(n.children))
  {
    hide LaidBox, Raws, FragmentTicks, BaseDecodeTime, Lasts, AllRuns, StartsAt;
    BoxInside(buf, p, Raw(n));
    if n.Holder? && n.kind == MOOF {
      FragmentLaid(buf, p, n, trexDefault);
    }
  }

  lemma {:induction false} SpansLaid(buf: Buffer, p: nat, ns: seq<Node>, st: ScanState)
    requires NodesValid(ns) && LaidAll(buf, p, Raws(ns)) && AtMost32(st.trexDefault)
    requires Inside(HeadersAt(p, Raws(ns)), U64_MAX)
    ensures Spans(buf, HeadersAt(p, Raws(ns)), st) == SpansOf(ns, ClockOf(st))
    decreases |ns|
  {
    hide LaidBox, LaidAll, HeadersAt, Raws, TopStep, MeanOne, Inside, NodeValid, FragmentTicks, BaseDecodeTime, Lasts,
         AllRuns, StartsAt;
    if ns == [] {
      NoNodes(p);
    } else {
      FirstNode(buf, p, ns);
      var n, h, q := ns[0], HeaderAt(p, Raw(ns[0])), p + Raw(ns[0]).Size();
      InsideTail(h, HeadersAt(q, Raws(ns[1..])), U64_MAX);
      SpanLaid(buf, p, n, st.trexDefault);
      TopNodeLaid(buf, p, n, st);
      MeanSmall(n, ClockOf(st));
      SpansLaid(buf, q, ns[1..], TopStep(buf, h, st));
    }
  }

  lemma FileSpans(ns: seq<Node>, buf: Buffer)
    requires NodesValid(ns) && buf == FileBytes(ns)
    ensures Spans(buf, Top(buf), BLANK) == SpansOf(ns, ClockOf(BLANK))
  {
    hide LaidAll, HeadersAt, Raws, Spans, SpansOf, Inside, FileBytes, Top, Scan;
    FileChildren(ns, buf);
    ScanIsFold(buf, HeadersAt(0, Raws(ns)));
    SpansLaid(buf, 0, ns, BLANK);
  }

  // ---- The headers that are found

  predicate IsOf(n: Node, kind: seq<byte>) { n.Holder? && n.kind == kind }

  /** A movie header lies directly in a movie box. */
  ghost predicate HasMovieHeader(ns: seq<Node>) {
    exists t, c :: t in ns && IsOf(t, MOOV) && c in t.children && c.Head? && !c.media
  }

  /** A media header lies in a media box of a track of a movie box. */
  ghost predicate HasMediaHeader(ns: seq<Node>) {
    exists t, k :: t in ns && IsOf(t, MOOV) && k in t.children && IsOf(k, TRAK) && TrakHasHeader(k.children)
  }

  ghost predicate TrakHasHeader(ns: seq<Node>) {
    exists m, g :: m in ns && IsOf(m, MDIA) && g in m.children && g.Head? && g.media
  }

  lemma {:induction false} MdiaFinds(ns: seq<Node>, c: Clock)
    ensures MdiaMean(ns, c).mdhd == (c.mdhd || exists g :: g in ns && g.Head? && g.media)
    ensures MdiaMean(ns, c).mvhd == c.mvhd
  {
    if ns != [] {
      MdiaFinds(ns[1..], if ns[0].Head? && ns[0].media then HeadMean(ns[0], c) else c);
      assert ns == [ns[0]] + ns[1..];
    }
  }

  lemma {:induction false} TrakFinds(ns: seq<Node>, c: Clock)
    ensures TrakMean(ns, c).mdhd == (c.mdhd || TrakHasHeader(ns)) && TrakMean(ns, c).mvhd == c.mvhd
  {
    if ns != [] {
      var next := if IsOf(ns[0], MDIA) then MdiaMean(ns[0].children, c) else c;
      if IsOf(ns[0], MDIA) {
        MdiaFinds(ns[0].children, c);
      }
      TrakFinds(ns[1..], next);
      assert ns == [ns[0]] + ns[1..];
      if g :| IsOf(ns[0], MDIA) && g in ns[0].children && g.Head? && g.media {
        assert ns[0] in ns;
      }
    }
  }

  lemma {:induction false} MvexFinds(ns: seq<Node>, c: Clock)
    ensures MvexMean(ns, c).mdhd == c.mdhd && MvexMean(ns, c).mvhd == c.mvhd
  {
    if ns != [] {
      MvexFinds(ns[1..], if ns[0].Extends? then c.(trexDefault := Some(ns[0].trex.duration)) else c);
    }
  }

  lemma MoovChildFinds(n: Node, c: Clock)
    ensures MoovChildMean(n, c).mvhd == (c.mvhd || (n.Head? && !n.media))
    ensures MoovChildMean(n, c).mdhd == (c.mdhd || (IsOf(n, TRAK) && TrakHasHeader(n.children)))
  {
    hide TrakMean, MvexMean, TrakHasHeader;
    if IsOf(n, TRAK) {
      TrakFinds(n.children, c);
    } else if IsOf(n, MVEX) {
      MvexFinds(n.children, c);
    }
  }

  lemma {:induction false} MoovFinds(ns: seq<Node>, c: Clock)
    ensures MoovMean(ns, c).mvhd == (c.mvhd || exists x :: x in ns && x.Head? && !x.media)
    ensures MoovMean(ns, c).mdhd == (c.mdhd || exists k :: k in ns && IsOf(k, TRAK) && TrakHasHeader(k.children))
  {
    hide MoovChildMean, TrakHasHeader;
    if ns != [] {
      MoovChildFinds(ns[0], c);
      MoovFinds(ns[1..], MoovChildMean(ns[0], c));
      assert ns == [ns[0]] + ns[1..];
    }
  }

  lemma MeanOneFinds(n: Node, c: Clock)
    ensures MeanOne(n, c).mvhd == (c.mvhd || (IsOf(n, MOOV) && exists x :: x in n.children && x.Head? && !x.media))
    ensures MeanOne(n, c).mdhd
         == (c.mdhd || (IsOf(n, MOOV) && exists k :: k in n.children && IsOf(k, TRAK) && TrakHasHeader(k.children)))
  {
    hide MoovMean, TrakHasHeader, Lasts, AllRuns, StartsAt;
    if IsOf(n, MOOV) {
      MoovFinds(n.children, c);
    }
  }

  lemma {:induction false} MeanFinds(ns: seq<Node>, c: Clock)
    ensures Mean(ns, c).mvhd == (c.mvhd || HasMovieHeader(ns)) && Mean(ns, c).mdhd == (c.mdhd || HasMediaHeader(ns))
  {
    hide MeanOne, TrakHasHeader;
    if ns != [] {
      MeanOneFinds(ns[0], c);
      MeanFinds(ns[1..], MeanOne(ns[0], c));
      assert ns == [ns[0]] + ns[1..];
    }
  }

  /**
   From trees of boxes to bytes and back: stamping the bytes of a file returns the length of its
   fragments over the media timescale, leaves that length in the durations of the movie and media
   headers it remembers, changes no other byte, and keeps the scan.
   */
  lemma MuxedStamp(ns: seq<Node>, buf: Buffer, length: nat)
    requires NodesValid(ns) && buf == FileBytes(ns) && IsLength(SpansOf(ns, ClockOf(BLANK)), length)
    ensures var timescale := Mean(ns, ClockOf(BLANK)).timescale;
            var (out, r) := Stamp.Stamped(buf);
            && r == (if timescale > 0 && length > 0 then Some((length, timescale)) else None)
            && (r.Some? ==> forall f :: Stamp.Remembers(Scan(buf), f) ==>
                  ReadBe(out, f.offset, f.Width()) == Some(length % (if f.wide then U64_MAX + 1 else U32_MAX + 1)))
            && |out| == |buf|
            && (forall p: nat :: Diff(buf, out, p) ==> exists f :: Stamp.Remembers(Scan(buf), f) && Stamp.InField(f, p))
            && Scan(out) == Scan(buf) && Stamp.Stamped(out) == (out, r)
    ensures Scan(buf).mvhd.Some? == HasMovieHeader(ns) && Scan(buf).mdhd.Some? == HasMediaHeader(ns)
  {
    hide WellSized, Scan, Mean, Spans, SpansOf, IsLength, Stamp.Stamped, FileBytes, NodesValid;
    MuxedWellSized(ns, buf);
    Stamp.StampSound(buf);
    MuxedFileScans(ns, buf);
    FileSpans(ns, buf);
    DurationIsLength(buf, length);
    MeanFinds(ns, ClockOf(BLANK));
  }

  /** Without gaps, and below 2^64 ticks, that length is the sum of all samples of the file. */
  lemma GaplessStamp(ns: seq<Node>, buf: Buffer)
    requires NodesValid(ns) && buf == FileBytes(ns)
    requires var spans := SpansOf(ns, ClockOf(BLANK)); Gapless(spans) && SpanSum(spans) < 0x1_0000_0000_0000_0000
    ensures var sum, timescale := SpanSum(SpansOf(ns, ClockOf(BLANK))), Mean(ns, ClockOf(BLANK)).timescale;
            Stamp.Stamped(buf).1 == if timescale > 0 && sum > 0 then Some((sum, timescale)) else None
  {
    hide WellSized, Scan, Mean, SpansOf, IsLength, Gapless, SpanSum, Stamp.Stamped, FileBytes, NodesValid;
    GaplessLength(SpansOf(ns, ClockOf(BLANK)));
    MuxedStamp(ns, buf, SpanSum(SpansOf(ns, ClockOf(BLANK))));
  }

  // ---- A file whose last header is cut short

  /** A header box up to and with its timescale. */
  function CutPayload(b: HeaderBox): seq<byte> {
    Versioned(b.version, b.flags)
    + (ToBe(b.creation, b.Width()) + (ToBe(b.modification, b.Width()) + ToBe(b.timescale, 4)))
  }

  function CutMdhd(b: HeaderBox): RawBox { RawBox(MDHD, CutPayload(b)) }

  function CutMdia(b: HeaderBox): RawBox { RawBox(MDIA, WireAll([CutMdhd(b)])) }

  function CutTrak(b: HeaderBox): RawBox { RawBox(TRAK, WireAll([CutMdia(b)])) }

  /** A movie box that ends with the cut media header of its one track. */
  function CutMovie(mvhd: HeaderBox, mdhd: HeaderBox): RawBox {
    RawBox(MOOV, WireAll([RawBox(MVHD, mvhd.Payload()), CutTrak(mdhd)]))
  }

  ghost predicate CutSized(mvhd: HeaderBox, mdhd: HeaderBox) {
    && RawBox(MVHD, mvhd.Payload()).Sized() && CutMdhd(mdhd).Sized() && CutMdia(mdhd).Sized() && CutTrak(mdhd).Sized()
    && CutMovie(mvhd, mdhd).Sized()
  }

  /** The scanner takes the timescale of a cut header, and the field it remembers lies past the box. */
  lemma CutReadBack(buf: Buffer, h: BoxHeader, b: HeaderBox, st: ScanState)
    requires Laid(buf, h.Body(), CutPayload(b)) && b.Valid()
    ensures FullHeader(buf, h, st, true) == st.(timescale := b.timescale,
              mdhd := Some(DurationField(h.Body() + |CutPayload(b)|, b.version == 1)))
  {
    var p, w, scale := h.Body(), b.Width(), ToBe(b.timescale, 4);
    ReadVersioned(buf, p, b.version, b.flags, ToBe(b.creation, w) + (ToBe(b.modification, w) + scale));
    LaidBoth(buf, p + 4, ToBe(b.creation, w), ToBe(b.modification, w) + scale);
    LaidBoth(buf, p + 4 + w, ToBe(b.modification, w), scale);
    ReadU32(buf, p + 4 + 2 * w, b.timescale);
  }

  lemma TwoLaid(buf: Buffer, p: nat, a: RawBox, b: RawBox)
    requires LaidAll(buf, p, [a, b])
    ensures LaidBox(buf, p, a) && LaidBox(buf, p + a.Size(), b)
    ensures HeadersAt(p, [a, b]) == [HeaderAt(p, a), HeaderAt(p + a.Size(), b)]
  {
    assert [a, b][1..] == [b] && [b][1..] == [];
    assert HeadersAt(p + a.Size(), [b]) == [HeaderAt(p + a.Size(), b)];
  }

  lemma SoleChild(buf: Buffer, p: nat, b: RawBox, child: RawBox)
    requires LaidBox(buf, p, b) && b.payload == WireAll([child]) && child.Sized()
    ensures p + b.Size() <= |buf| && Children(buf, p + 8, p + b.Size()) == [HeaderAt(p + 8, child)]
    ensures LaidBox(buf, p + 8, child)
  {
    NodeLaid(buf, p, b, [child]);
    assert [child][1..] == [];
  }

  lemma FoldOne(buf: Buffer, h: BoxHeader, st: ScanState)
    ensures h.kind == MDHD ==> MdiaFold(buf, [h], st) == FullHeader(buf, h, st, true)
    ensures Inside([h], U64_MAX) && h.End() <= U64_MAX ==> TrakFold(buf, [h], st) == TrakStep(buf, h, st)
  {
    assert [h][1..] == [];
  }

  lemma TrakOfChildren(buf: Buffer, k: BoxHeader, m: BoxHeader, g: BoxHeader, st: ScanState)
    requires k.End() <= U64_MAX && Children(buf, k.Body(), k.End()) == [m]
    requires m.kind == MDIA && m.End() <= U64_MAX && Children(buf, m.Body(), m.End()) == [g] && g.kind == MDHD
    ensures Mdia(buf, k, st) == FullHeader(buf, g, st, true)
  {
    hide FullHeader;
    ChildrenInside(buf, k.Body(), k.End());
    FoldOne(buf, m, st);
    FoldOne(buf, g, st);
  }

  lemma CutTrakStep(buf: Buffer, p: nat, mdhd: HeaderBox, st: ScanState)
    requires LaidBox(buf, p, CutTrak(mdhd)) && CutMdia(mdhd).Sized() && CutMdhd(mdhd).Sized() && mdhd.Valid()
    ensures p + CutTrak(mdhd).Size() <= |buf|
    ensures MoovStep(buf, HeaderAt(p, CutTrak(mdhd)), st) == st.(timescale := mdhd.timescale,
              mdhd := Some(DurationField(p + CutTrak(mdhd).Size(), mdhd.version == 1)))
  {
    hide WireAll, FullHeader, Mdia, Children, CutPayload, HeaderBox.Valid;
    SoleChild(buf, p, CutTrak(mdhd), CutMdia(mdhd));
    SoleChild(buf, p + 8, CutMdia(mdhd), CutMdhd(mdhd));
    var g := HeaderAt(p + 16, CutMdhd(mdhd));
    TrakOfChildren(buf, HeaderAt(p, CutTrak(mdhd)), HeaderAt(p + 8, CutMdia(mdhd)), g, st);
    CutReadBack(buf, g, mdhd, st);
    WireOfOne(CutMdia(mdhd));
    WireOfOne(CutMdhd(mdhd));
  }

  lemma WireOfOne(b: RawBox)
    requires b.Sized()
    ensures |WireAll([b])| == b.Size()
  {
    assert [b][1..] == [];
  }

  lemma MvhdFitsField(buf: Buffer, p: nat, mvhd: HeaderBox, st: ScanState)
    requires LaidBox(buf, p, RawBox(MVHD, mvhd.Payload())) && mvhd.Valid() && st.mdhd.None?
    ensures p + 8 + |mvhd.Payload()| <= |buf|
    ensures var t := MoovStep(buf, HeaderAt(p, RawBox(MVHD, mvhd.Payload())), st);
            && t.mvhd.Some? && Stamp.Fits(buf, t.mvhd.value)
            && t == st.(timescale := t.timescale, mvhd := t.mvhd)
  {
    HeaderReadBack(buf, HeaderAt(p, RawBox(MVHD, mvhd.Payload())), mvhd, st, false);
  }

  /** A cut movie box at the end of a file leaves one field that fits and one that does not. */
  lemma CutMovieStep(buf: Buffer, p: nat, mvhd: HeaderBox, mdhd: HeaderBox, st: ScanState)
    requires LaidBox(buf, p, CutMovie(mvhd, mdhd)) && CutSized(mvhd, mdhd) && mvhd.Valid() && mdhd.Valid()
    requires p + CutMovie(mvhd, mdhd).Size() == |buf| && st.mdhd.None?
    ensures var t := TopStep(buf, HeaderAt(p, CutMovie(mvhd, mdhd)), st);
            && t.mvhd.Some? && Stamp.Fits(buf, t.mvhd.value) && t.mdhd.Some? && !Stamp.Fits(buf, t.mdhd.value)
            && t == st.(timescale := mdhd.timescale, mvhd := t.mvhd, mdhd := t.mdhd)
  {
    hide WireAll, MoovStep, LaidBox, LaidAll, Children, HeaderBox.Payload, HeaderBox.Valid, CutTrak;
    var a, b := RawBox(MVHD, mvhd.Payload()), CutTrak(mdhd);
    NodeLaid(buf, p, CutMovie(mvhd, mdhd), [a, b]);
    TwoLaid(buf, p + 8, a, b);
    PayloadLaid(buf, p, CutMovie(mvhd, mdhd), [a, b]);
    TotalOfTwo(a, b);
    var x, y := HeaderAt(p + 8, a), HeaderAt(p + 8 + a.Size(), b);
    MvhdFitsField(buf, p + 8, mvhd, st);
    CutTrakStep(buf, p + 8 + a.Size(), mdhd, MoovStep(buf, x, st));
    FoldTwo(buf, HeaderAt(p, CutMovie(mvhd, mdhd)), x, y, st);
  }

  lemma TotalOfTwo(a: RawBox, b: RawBox)
    ensures TotalSize([a, b]) == a.Size() + b.Size()
  {
    assert [a, b][1..] == [b] && [b][1..] == [];
    assert TotalSize([b]) == b.Size();
  }

  lemma FoldTwo(buf: Buffer, h: BoxHeader, a: BoxHeader, b: BoxHeader, st: ScanState)
    requires h.kind == MOOV && h.End() <= U64_MAX && Children(buf, h.Body(), h.End()) == [a, b]
    ensures a.End() <= U64_MAX && b.End() <= U64_MAX
    ensures TopStep(buf, h, st) == MoovStep(buf, b, MoovStep(buf, a, st))
  {
    hide MoovStep, Children;
    ChildrenInside(buf, h.Body(), h.End());
    assert a in [a, b] && b in [a, b];
    assert [a, b][1..] == [b] && [b][1..] == [];
    assert MoovFold(buf, [a, b], st) == MoovFold(buf, [b], MoovStep(buf, a, st));
  }

  lemma FragmentStep(buf: Buffer, p: nat, n: Node)
    requires IsOf(n, MOOF) && NodeValid(n) && LaidBox(buf, p, Raw(n))
    requires var ticks := Lasts(AllRuns(n.children, None)); ticks.Some? && ticks.value > 0
    ensures HeaderAt(p, Raw(n)).End() <= U64_MAX
    ensures var st := TopStep(buf, HeaderAt(p, Raw(n)), BLANK);
            st.fragments == 1 && st.mdhd.None? && st.Ticks() > 0
  {
    hide LaidBox, TopStep, Lasts, AllRuns, StartsAt;
    TopNodeLaid(buf, p, n, BLANK);
  }

  /**
   A fragment that lasts some time, followed by a movie box whose media header ends with its
   timescale: a stamp of such a file writes the movie header and then fails.
   */
  lemma CutFileHalfStamped(n: Node, mvhd: HeaderBox, mdhd: HeaderBox, buf: Buffer)
    requires IsOf(n, MOOF) && NodeValid(n) && CutSized(mvhd, mdhd) && mvhd.Valid() && mdhd.Valid() && mdhd.timescale > 0
    requires var ticks := Lasts(AllRuns(n.children, None)); ticks.Some? && ticks.value > 0
    requires buf == WireAll([Raw(n), CutMovie(mvhd, mdhd)])
    ensures Stamp.HalfStamped(buf)
  {
    hide WireAll, LaidBox, LaidAll, Children, Lasts, AllRuns, CutMovie, TopStep, HeaderBox.Valid;
    var a, b := Raw(n), CutMovie(mvhd, mdhd);
    WholeIsLaid(buf);
    WiresAreLaid(buf, 0, [a, b]);
    TotalOfTwo(a, b);
    ChildrenLaid(buf, 0, [a, b], |buf|);
    TwoLaid(buf, 0, a, b);
    FragmentStep(buf, 0, n);
    var st := TopStep(buf, HeaderAt(0, a), BLANK);
    CutMovieStep(buf, a.Size(), mvhd, mdhd, st);
    ScanOfTwo(buf, HeaderAt(0, a), HeaderAt(a.Size(), b));
  }

  lemma ScanOfTwo(buf: Buffer, a: BoxHeader, b: BoxHeader)
    requires Children(buf, 0, |buf|) == [a, b]
    ensures a.End() <= U64_MAX && b.End() <= U64_MAX
    ensures Scan(buf) == TopStep(buf, b, TopStep(buf, a, BLANK))
  {
    hide TopStep, Children;
    ChildrenInside(buf, 0, |buf|);
    assert a in [a, b] && b in [a, b];
    assert [a, b][1..] == [b] && [b][1..] == [];
    assert TopFold(buf, [a, b], BLANK) == TopFold(buf, [b], TopStep(buf, a, BLANK));
  }

  // One sample lasting the track fragment's default of 1000 ticks, and headers of that timescale.
  const ONE_RUN: TrunBox := TrunBox(0, [], 0, 0, [Sample(0, 0, 0, 0)], [])
  const DEFAULT_1000: TfhdBox := TfhdBox(0, [false, false, false, true], 1, 0, 0, 1000, [])
  const ONE_SAMPLE: Node := Holder(MOOF, [Holder(TRAF, [FragmentHead(DEFAULT_1000), Run(ONE_RUN)])])
  const ONE_HEADER: HeaderBox := HeaderBox(0, 0, 0, 0, 1000, 0, [])

  lemma TotalOne(n: nat)
    ensures Total([Some(n)]) == n
  {
    assert [Some(n)][1..] == [];
  }

  lemma OneSampleTicks()
    ensures Lasts(AllRuns(ONE_SAMPLE.children, None)) == Some(1000)
  {
    hide ToBe;
    var traf := ONE_SAMPLE.children[0];
    assert ONE_SAMPLE.children[1..] == [] && traf.children[1..] == [Run(ONE_RUN)] && [Run(ONE_RUN)][1..] == [];
    assert OwnDefault(traf.children) == Some(1000);
    assert RunsOf([Run(ONE_RUN)], Some(1000)) == [Some(1 * 1000)];
    assert RunsOf(traf.children, Some(1000)) == [Some(1000)];
    assert AllRuns(ONE_SAMPLE.children, None) == [Some(1000)];
    TotalOne(1000);
  }

  lemma {:induction false} WireLength(boxes: seq<RawBox>)
    requires AllSized(boxes)
    ensures |WireAll(boxes)| == TotalSize(boxes)
  {
    if boxes != [] {
      WireLength(boxes[1..]);
    }
  }

  lemma TwoSized(a: RawBox, b: RawBox)
    requires |a.kind| == |b.kind| == 4 && |a.payload| <= 1000 && |b.payload| <= 1000
    ensures AllSized([a, b]) && |WireAll([a, b])| == 16 + |a.payload| + |b.payload|
  {
    WireLength([a, b]);
    TotalOfTwo(a, b);
  }

  lemma SmallPayloads()
    ensures |ONE_HEADER.Payload()| == 20 && |CutPayload(ONE_HEADER)| == 16
    ensures |DEFAULT_1000.Payload()| <= 100 && |ONE_RUN.Payload()| <= 100
  {
    hide ToBe;
    RecordLength(ONE_RUN.samples[0], []);
    assert ONE_RUN.samples[1..] == [];
    assert |SamplesBytes(ONE_RUN.samples, [])| == |SampleBytes(ONE_RUN.samples[0], [])|;
  }

  lemma RawsOfTwo(a: Node, b: Node)
    ensures Raws([a, b]) == [Raw(a), Raw(b)]
  {
    hide Raw;
    assert [a, b][1..] == [b];
    RawsOfOne(b);
  }

  lemma RawsOfOne(a: Node)
    ensures Raws([a]) == [Raw(a)]
  {
    hide Raw;
    assert [a][1..] == [];
  }

  lemma OneValid(a: Node)
    requires NodeValid(a)
    ensures NodesValid([a])
  {
    hide NodeValid;
    assert [a][1..] == [];
  }

  lemma TwoValid(a: Node, b: Node)
    requires NodeValid(a) && NodeValid(b)
    ensures NodesValid([a, b])
  {
    hide NodeValid;
    OneValid(b);
    assert [a, b][1..] == [b];
  }

  lemma LeavesValid()
    ensures NodeValid(FragmentHead(DEFAULT_1000)) && NodeValid(Run(ONE_RUN))
    ensures |Raw(FragmentHead(DEFAULT_1000)).payload| <= 100 && |Raw(Run(ONE_RUN)).payload| <= 100
  {
    hide ToBe, WireAll, TfhdBox.Payload, TrunBox.Payload;
    SmallPayloads();
  }

  lemma HolderValid(kind: seq<byte>, children: seq<Node>)
    requires NodesValid(children) && !IsLeaf(kind) && |kind| == 4 && |WireAll(Raws(children))| <= 1000
    ensures NodeValid(Holder(kind, children))
    ensures |Raw(Holder(kind, children)).payload| == |WireAll(Raws(children))|
  {
    hide WireAll, Raws;
  }

  lemma OneSampleValid()
    ensures NodeValid(ONE_SAMPLE) && |Raw(ONE_SAMPLE).payload| <= 1000
  {
    hide WireAll, Raws, Raw, NodeValid, NodesValid;
    var head, run := FragmentHead(DEFAULT_1000), Run(ONE_RUN);
    var traf := Holder(TRAF, [head, run]);
    LeavesValid();
    TwoValid(head, run);
    RawsOfTwo(head, run);
    LeafSizes();
    TwoSized(Raw(head), Raw(run));
    HolderValid(TRAF, [head, run]);
    OneValid(traf);
    RawsOfOne(traf);
    TrafSize(traf);
    HolderValid(MOOF, [traf]);
  }

  lemma LeafSizes()
    ensures |Raw(FragmentHead(DEFAULT_1000)).kind| == 4 && |Raw(Run(ONE_RUN)).kind| == 4
  {
    hide TfhdBox.Payload, TrunBox.Payload;
  }

  lemma TrafSize(traf: Node)
    requires traf.Holder? && NodeValid(traf) && |Raw(traf).payload| <= 300
    ensures |WireAll([Raw(traf)])| <= 308
  {
    WireOfOne(Raw(traf));
  }

  lemma OneHeaderSized()
    ensures var raw := CutMovie(ONE_HEADER, ONE_HEADER); |raw.kind| == 4 && |raw.payload| <= 1000
    ensures CutSized(ONE_HEADER, ONE_HEADER) && ONE_HEADER.Valid()
  {
    hide WireAll, AllSized, CutPayload, HeaderBox.Payload;
    SmallPayloads();
    WireOfOne(CutMdhd(ONE_HEADER));
    WireOfOne(CutMdia(ONE_HEADER));
    TwoSized(RawBox(MVHD, ONE_HEADER.Payload()), CutTrak(ONE_HEADER));
    Pow256Values();
  }

  /** Such a file: one fragment with one sample, then the cut movie box. */
  lemma HalfStampedFile() returns (buf: Buffer)
    ensures Stamp.HalfStamped(buf)
  {
    hide WireAll, Stamp.HalfStamped, CutMovie, CutSized, Raw, NodeValid, HeaderBox.Valid, Lasts, AllRuns;
    OneSampleTicks();
    OneSampleValid();
    OneSampleKind();
    OneHeaderSized();
    TwoSized(Raw(ONE_SAMPLE), CutMovie(ONE_HEADER, ONE_HEADER));
    buf := WireAll([Raw(ONE_SAMPLE), CutMovie(ONE_HEADER, ONE_HEADER)]);
    CutFileHalfStamped(ONE_SAMPLE, ONE_HEADER, ONE_HEADER, buf);
  }

  lemma OneSampleKind()
    ensures |Raw(ONE_SAMPLE).kind| == 4
  {
  }
}
