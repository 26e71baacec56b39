/**
 `stamp_fragmented_duration` of crates/media/src/fragmented.rs: the scanned ticks are written
 into the duration fields of the very buffer that was scanned.
 */
module Stamp {
  import opened Prelude
  import opened Bytes
  import opened BoxWalk
  import opened Fragmented
  import opened NonInterference
  import opened FragmentScanner

  // ---- Where the remembered fields lie

  ghost predicate MvhdAt(buf: Buffer, t: BoxHeader, c: BoxHeader) {
    && t in Top(buf) && t.kind == MOOV && t.End() <= U64_MAX
    && c in Children(buf, t.Body(), t.End()) && c.kind == MVHD
  }

  ghost predicate MdhdAt(buf: Buffer, t: BoxHeader, k: BoxHeader, m: BoxHeader, g: BoxHeader) {
    && t in Top(buf) && t.kind == MOOV && t.End() <= U64_MAX
    && k in Children(buf, t.Body(), t.End()) && k.kind == TRAK && k.End() <= U64_MAX
    && m in Children(buf, k.Body(), k.End()) && m.kind == MDIA && m.End() <= U64_MAX
    && g in Children(buf, m.Body(), m.End()) && g.kind == MDHD
  }

  ghost predicate FieldOf(buf: Buffer, h: BoxHeader, field: DurationField) {
    h.Body() < |buf| && field == DurationOf(buf, h)
  }

  /** Every field the scan remembers is the duration of a header box of the file. */
  ghost predicate Located(buf: Buffer, st: ScanState) {
    && (st.mvhd.Some? ==> exists t, c :: MvhdAt(buf, t, c) && FieldOf(buf, c, st.mvhd.value))
    && (st.mdhd.Some? ==> exists t, k, m, g :: MdhdAt(buf, t, k, m, g) && FieldOf(buf, g, st.mdhd.value))
  }

  lemma {:induction false} MdiaFoldLocated(buf: Buffer, t: BoxHeader, k: BoxHeader, m: BoxHeader,
        boxes: seq<BoxHeader>, st: ScanState)
    requires Located(buf, st)
    requires forall g :: g in boxes && g.kind == MDHD ==> MdhdAt(buf, t, k, m, g)
    ensures Located(buf, MdiaFold(buf, boxes, st))
  {
    if boxes != [] {
      var next := if boxes[0].kind == MDHD then FullHeader(buf, boxes[0], st, true) else st;
      if boxes[0].kind == MDHD && next != st {
        assert MdhdAt(buf, t, k, m, boxes[0]) && FieldOf(buf, boxes[0], next.mdhd.value);
      }
      MdiaFoldLocated(buf, t, k, m, boxes[1..], next);
    }
  }

  lemma {:induction false} TrakFoldLocated(buf: Buffer, t: BoxHeader, k: BoxHeader, boxes: seq<BoxHeader>,
        st: ScanState)
    requires Located(buf, st) && Inside(boxes, U64_MAX)
    requires t in Top(buf) && t.kind == MOOV && t.End() <= U64_MAX
    requires k in Children(buf, t.Body(), t.End()) && k.kind == TRAK && k.End() <= U64_MAX
    requires forall m :: m in boxes ==> m in Children(buf, k.Body(), k.End())
    ensures Located(buf, TrakFold(buf, boxes, st))
  {
    if boxes != [] {
      var m := boxes[0];
      if m.kind == MDIA {
        MdiaFoldLocated(buf, t, k, m, Children(buf, m.Body(), m.End()), st);
      }
      TrakFoldLocated(buf, t, k, boxes[1..], TrakStep(buf, m, st));
    }
  }

  lemma {:induction false} MvexFoldLocated(buf: Buffer, boxes: seq<BoxHeader>, st: ScanState)
    ensures MvexFold(buf, boxes, st).mvhd == st.mvhd && MvexFold(buf, boxes, st).mdhd == st.mdhd
  {
    if boxes != [] {
      MvexFoldLocated(buf, boxes[1..],
                      if boxes[0].kind == TREX then st.(trexDefault := U32At(buf, boxes[0].Body() + 12)) else st);
    }
  }

  lemma MoovStepLocated(buf: Buffer, t: BoxHeader, c: BoxHeader, st: ScanState)
    requires Located(buf, st) && t in Top(buf) && t.kind == MOOV && t.End() <= U64_MAX
    requires c in Children(buf, t.Body(), t.End()) && c.End() <= U64_MAX
    ensures Located(buf, MoovStep(buf, c, st))
  {
    if c.kind == MVHD {
      var next := FullHeader(buf, c, st, false);
      if next != st {
        assert MvhdAt(buf, t, c) && FieldOf(buf, c, next.mvhd.value);
      }
    } else if c.kind == TRAK {
      ChildrenInside(buf, c.Body(), c.End());
      TrakFoldLocated(buf, t, c, Children(buf, c.Body(), c.End()), st);
    } else if c.kind == MVEX {
      MvexFoldLocated(buf, Children(buf, c.Body(), c.End()), st);
    }
  }

  lemma {:induction false} MoovFoldLocated(buf: Buffer, t: BoxHeader, boxes: seq<BoxHeader>, st: ScanState)
    requires Located(buf, st) && Inside(boxes, U64_MAX) && t in Top(buf) && t.kind == MOOV && t.End() <= U64_MAX
    requires forall c :: c in boxes ==> c in Children(buf, t.Body(), t.End())
    ensures Located(buf, MoovFold(buf, boxes, st))
  {
    if boxes != [] {
      MoovStepLocated(buf, t, boxes[0], st);
      MoovFoldLocated(buf, t, boxes[1..], MoovStep(buf, boxes[0], st));
    }
  }

  lemma OnlyMoovSetsFields(buf: Buffer, t: BoxHeader, st: ScanState)
    requires t.End() <= U64_MAX && t.kind != MOOV
    ensures TopStep(buf, t, st).mvhd == st.mvhd && TopStep(buf, t, st).mdhd == st.mdhd
  {
  }

  lemma TopStepLocated(buf: Buffer, t: BoxHeader, st: ScanState, next: ScanState)
    requires Located(buf, st) && t in Top(buf) && t.End() <= U64_MAX && next == TopStep(buf, t, st)
    ensures Located(buf, next)
  {
    if t.kind == MOOV {
      ChildrenInside(buf, t.Body(), t.End());
      MoovFoldLocated(buf, t, Children(buf, t.Body(), t.End()), st);
    } else {
      OnlyMoovSetsFields(buf, t, st);
    }
  }

  lemma {:induction false} TopFoldLocated(buf: Buffer, boxes: seq<BoxHeader>, st: ScanState)
    requires Located(buf, st) && Inside(boxes, U64_MAX)
    requires forall t :: t in boxes ==> t in Top(buf)
    ensures Located(buf, TopFold(buf, boxes, st))
  {
    if boxes != [] {
      TopStepLocated(buf, boxes[0], st, TopStep(buf, boxes[0], st));
      TopFoldLocated(buf, boxes[1..], TopStep(buf, boxes[0], st));
    }
  }

  lemma ScanLocated(buf: Buffer)
    ensures Located(buf, Scan(buf))
  {
    TopFoldLocated(buf, Top(buf), BLANK);
  }

  // ---- The fields are quiet

  ghost predicate InField(field: DurationField, p: nat) {
    field.offset <= p < field.offset + field.Width()
  }

  /** A byte in the payload of one box of a walk is outside every other box and every header. */
  lemma PayloadQuiet(buf: Buffer, start: nat, end: u64, h: BoxHeader, p: nat)
    requires var boxes := Children(buf, start, end); h in boxes && h.Body() <= p < h.End()
    ensures RangeQuiet(Children(buf, start, end), start, end, p)
    ensures forall x :: x in Children(buf, start, end) && x != h ==> Outside(x, p)
    ensures start <= p < end
  {
    hide Children;
    var boxes := Children(buf, start, end);
    ChildrenTiled(buf, start, end);
    ChildrenShape(buf, start, end);
    var i :| 0 <= i < |boxes| && boxes[i] == h;
    TiledAlone(boxes, start, end, i, p);
    assert i < |boxes| - 1 ==> boxes[i].End() <= boxes[|boxes| - 1].start;
  }

  lemma TiledAlone(boxes: seq<BoxHeader>, start: nat, end: nat, i: nat, p: nat)
    requires Tiled(boxes, start, end) && i < |boxes| && boxes[i].start <= p < boxes[i].End()
    ensures forall x :: x in boxes && x != boxes[i] ==> Outside(x, p)
  {
    forall x | x in boxes && x != boxes[i] ensures Outside(x, p) {
      var j :| 0 <= j < |boxes| && boxes[j] == x;
      assert i < j || j < i;
    }
  }

  lemma OutsideBody(buf: Buffer, h: BoxHeader, p: nat)
    requires h.start <= h.Body() <= h.End() <= U64_MAX && Outside(h, p)
    ensures BodyQuiet(buf, h, p)
    ensures forall c :: c in Children(buf, h.Body(), h.End()) ==> Outside(c, p)
  {
    ChildrenShape(buf, h.Body(), h.End());
  }

  lemma OutsideMdia(buf: Buffer, m: BoxHeader, p: nat)
    requires m.start <= m.Body() <= m.End() <= U64_MAX && MdiaFits(buf, m) && Outside(m, p)
    ensures MdiaQuiet(buf, m, p)
  {
    OutsideBody(buf, m, p);
  }

  lemma OutsideTrak(buf: Buffer, k: BoxHeader, p: nat)
    requires k.start <= k.Body() <= k.End() <= U64_MAX && TrakFits(buf, k) && Outside(k, p)
    ensures TrakQuiet(buf, k, p)
  {
    OutsideBody(buf, k, p);
    ChildrenShape(buf, k.Body(), k.End());
    forall m | m in Children(buf, k.Body(), k.End()) && m.kind == MDIA ensures MdiaQuiet(buf, m, p) {
      OutsideMdia(buf, m, p);
    }
  }

  lemma OutsideMoovChild(buf: Buffer, c: BoxHeader, p: nat)
    requires c.start <= c.Body() <= c.End() <= U64_MAX && MoovChildFits(buf, c) && Outside(c, p)
    ensures MoovChildQuiet(buf, c, p)
  {
    if c.kind == TRAK {
      OutsideTrak(buf, c, p);
    } else if c.kind == MVEX {
      OutsideBody(buf, c, p);
    }
  }

  lemma OutsideTop(buf: Buffer, t: BoxHeader, p: nat)
    requires t.start <= t.Body() <= t.End() <= U64_MAX && TopFits(buf, t) && Outside(t, p)
    ensures TopQuiet(buf, t, p)
  {
    if t.kind == MOOV {
      OutsideBody(buf, t, p);
      ChildrenShape(buf, t.Body(), t.End());
      forall c | c in Children(buf, t.Body(), t.End()) ensures MoovChildQuiet(buf, c, p) {
        OutsideMoovChild(buf, c, p);
      }
    }
  }

  /** A byte quiet for one child of a moov box, and in that child's payload, is quiet for the file. */
  lemma MoovChildByteQuiet(buf: Buffer, t: BoxHeader, c: BoxHeader, p: nat)
    requires WellSized(buf) && t in Top(buf) && t.kind == MOOV && t.End() <= U64_MAX
    requires c in Children(buf, t.Body(), t.End()) && c.End() <= U64_MAX && c.Body() <= p < c.End()
    requires MoovChildFits(buf, c) && MoovChildQuiet(buf, c, p)
    ensures Quiet(buf, p)
  {
    PayloadQuiet(buf, t.Body(), t.End(), c, p);
    ChildrenShape(buf, t.Body(), t.End());
    assert TopFits(buf, t);
    forall x | x in Children(buf, t.Body(), t.End())
      ensures x.End() <= U64_MAX && MoovChildFits(buf, x) && MoovChildQuiet(buf, x, p)
    {
      if x != c {
        OutsideMoovChild(buf, x, p);
      }
    }
    PayloadQuiet(buf, 0, |buf|, t, p);
    ChildrenShape(buf, 0, |buf|);
    forall x | x in Top(buf) ensures TopQuiet(buf, x, p) {
      if x != t {
        OutsideTop(buf, x, p);
      }
    }
  }

  lemma MvhdFieldQuiet(buf: Buffer, t: BoxHeader, c: BoxHeader, p: nat)
    requires WellSized(buf) && MvhdAt(buf, t, c) && c.Body() < |buf| && InField(DurationOf(buf, c), p)
    ensures Quiet(buf, p) && c.Body() <= p < c.End()
  {
    ChildrenShape(buf, t.Body(), t.End());
    assert TopFits(buf, t) && MoovChildFits(buf, c);
    MoovChildByteQuiet(buf, t, c, p);
  }

  lemma MdhdByteQuietInMdia(buf: Buffer, m: BoxHeader, g: BoxHeader, p: nat)
    requires m.End() <= U64_MAX && MdiaFits(buf, m)
    requires g in Children(buf, m.Body(), m.End()) && g.kind == MDHD && InField(DurationOf(buf, g), p)
    ensures MdiaQuiet(buf, m, p) && m.Body() <= p < m.End() && g.Body() <= p < g.End()
  {
    assert HeaderFits(buf, g);
    PayloadQuiet(buf, m.Body(), m.End(), g, p);
  }

  lemma MdiaByteQuietInTrak(buf: Buffer, k: BoxHeader, m: BoxHeader, p: nat)
    requires k.End() <= U64_MAX && TrakFits(buf, k)
    requires m in Children(buf, k.Body(), k.End()) && m.kind == MDIA && m.Body() <= p < m.End()
    requires m.End() <= U64_MAX && MdiaFits(buf, m) && MdiaQuiet(buf, m, p)
    ensures TrakQuiet(buf, k, p) && k.Body() <= p < k.End()
  {
    PayloadQuiet(buf, k.Body(), k.End(), m, p);
    ChildrenShape(buf, k.Body(), k.End());
    forall x | x in Children(buf, k.Body(), k.End()) && x.kind == MDIA ensures MdiaQuiet(buf, x, p) {
      if x != m {
        OutsideMdia(buf, x, p);
      }
    }
  }

  lemma MdhdFieldQuiet(buf: Buffer, t: BoxHeader, k: BoxHeader, m: BoxHeader, g: BoxHeader, p: nat)
    requires WellSized(buf) && MdhdAt(buf, t, k, m, g) && g.Body() < |buf| && InField(DurationOf(buf, g), p)
    ensures Quiet(buf, p) && k.Body() <= p < k.End() && g.Body() <= p < g.End()
  {
    ChildrenShape(buf, t.Body(), t.End());
    ChildrenShape(buf, k.Body(), k.End());
    assert TopFits(buf, t) && MoovChildFits(buf, k) && MdiaFits(buf, m);
    MdhdByteQuietInMdia(buf, m, g, p);
    MdiaByteQuietInTrak(buf, k, m, p);
    MoovChildByteQuiet(buf, t, k, p);
  }

  lemma MvhdFits(buf: Buffer, t: BoxHeader, c: BoxHeader)
    requires WellSized(buf) && MvhdAt(buf, t, c)
    ensures HeaderFits(buf, c)
  {
    ChildrenShape(buf, t.Body(), t.End());
    assert TopFits(buf, t) && MoovChildFits(buf, c);
  }

  lemma MdhdFits(buf: Buffer, t: BoxHeader, k: BoxHeader, m: BoxHeader, g: BoxHeader)
    requires WellSized(buf) && MdhdAt(buf, t, k, m, g)
    ensures HeaderFits(buf, g)
  {
    ChildrenShape(buf, t.Body(), t.End());
    ChildrenShape(buf, k.Body(), k.End());
    assert TopFits(buf, t) && MoovChildFits(buf, k) && MdiaFits(buf, m);
  }

  /** No byte is in both a movie header's duration and a media header's. */
  lemma HeadersApart(buf: Buffer, t: BoxHeader, c: BoxHeader, u: BoxHeader, k: BoxHeader, m: BoxHeader,
        g: BoxHeader, p: nat)
    requires WellSized(buf) && MvhdAt(buf, t, c) && MdhdAt(buf, u, k, m, g)
    requires c.Body() < |buf| && g.Body() < |buf|
    ensures !(InField(DurationOf(buf, c), p) && InField(DurationOf(buf, g), p))
  {
    if InField(DurationOf(buf, c), p) && InField(DurationOf(buf, g), p) {
      MvhdFieldQuiet(buf, t, c, p);
      MdhdFieldQuiet(buf, u, k, m, g, p);
      SamePayload(buf, t, c, u, k, p);
      assert false;
    }
  }

  /** A byte in the payloads of two moov children is in one child. */
  lemma SamePayload(buf: Buffer, t: BoxHeader, c: BoxHeader, u: BoxHeader, k: BoxHeader, p: nat)
    requires t in Top(buf) && t.End() <= U64_MAX && c in Children(buf, t.Body(), t.End()) && c.Body() <= p < c.End()
    requires u in Top(buf) && u.End() <= U64_MAX && k in Children(buf, u.Body(), u.End()) && k.Body() <= p < k.End()
    ensures c == k
  {
    PayloadQuiet(buf, t.Body(), t.End(), c, p);
    PayloadQuiet(buf, u.Body(), u.End(), k, p);
    PayloadQuiet(buf, 0, |buf|, t, p);
    ChildrenShape(buf, 0, |buf|);
    assert !Outside(u, p);
    ChildrenShape(buf, t.Body(), t.End());
    assert !Outside(k, p);
  }

  // ---- Stamping

  /** The eight-byte big-endian ticks with all but the field's width zeroed. */
  function Encode(field: DurationField, ticks: nat): (out: seq<byte>)
    ensures |out| == 8
  {
    seq(8 - field.Width(), _ => 0) + ToBe(ticks, 8)[8 - field.Width()..]
  }

  function FieldBytes(field: DurationField, ticks: nat): seq<byte> {
    Encode(field, ticks)[8 - field.Width()..]
  }

  lemma {:induction false} ToBeTail(n: nat, width: nat, wide: nat)
    requires width <= wide
    ensures ToBe(n, wide)[wide - width..] == ToBe(n, width)
  {
    if width > 0 {
      ToBeTail(n / 256, width - 1, wide - 1);
    }
  }

  /** A field holds the ticks modulo 2^32 or 2^64. */
  lemma FieldBytesHold(field: DurationField, ticks: nat)
    ensures |FieldBytes(field, ticks)| == field.Width()
    ensures Be(FieldBytes(field, ticks)) == ticks % (if field.wide then U64_MAX + 1 else U32_MAX + 1)
  {
    ToBeTail(ticks, field.Width(), 8);
    assert FieldBytes(field, ticks) == ToBe(ticks, field.Width());
    BeOfToBe(ticks, field.Width());
    Pow256Values();
  }

  /** The fields written in turn, up to the first that does not fit. */
  function StampFields(buf: Buffer, fields: seq<DurationField>, ticks: nat): (r: (Buffer, bool))
    ensures |r.0| == |buf|
    decreases |fields|
  {
    if fields == [] then (buf, true)
    else if fields[0].offset + fields[0].Width() > |buf| then (buf, false)
    else StampFields(Overwrite(buf, fields[0].offset, FieldBytes(fields[0], ticks)), fields[1..], ticks)
  }

  function Fields(st: ScanState): seq<DurationField> {
    (if st.mvhd.Some? then [st.mvhd.value] else []) + (if st.mdhd.Some? then [st.mdhd.value] else [])
  }

  /** The buffer a call leaves and the duration it returns. */
  function Stamped(buf: Buffer): (r: (Buffer, Option<(nat, nat)>))
    ensures |r.0| == |buf|
  {
    var st := Scan(buf);
    var duration := st.Duration();
    if duration.None? then (buf, None)
    else
      var done := StampFields(buf, Fields(st), st.Ticks());
      (done.0, if done.1 then duration else None)
  }

  predicate Fits(buf: Buffer, field: DurationField) {
    field.offset + field.Width() <= |buf|
  }

  /** A duration is known and the movie header's field fits, but the media header's does not. */
  predicate HalfStamped(buf: Buffer) {
    var st := Scan(buf);
    st.Duration().Some? && st.mvhd.Some? && st.mdhd.Some? && Fits(buf, st.mvhd.value) && !Fits(buf, st.mdhd.value)
  }

  lemma {:induction false} StampFieldsFails(buf: Buffer, fields: seq<DurationField>, ticks: nat)
    ensures StampFields(buf, fields, ticks).1 <==> forall i :: 0 <= i < |fields| ==> Fits(buf, fields[i])
    decreases |fields|
  {
    if fields != [] && Fits(buf, fields[0]) {
      var next := Overwrite(buf, fields[0].offset, FieldBytes(fields[0], ticks));
      StampFieldsFails(next, fields[1..], ticks);
      assert forall i :: 0 < i < |fields| ==> fields[i] == fields[1..][i - 1];
    }
  }

  /**
   A stamp fails exactly when there is no duration or a field does not fit, and a stamp that
   fails leaves the file as it was, unless it is half done: then it has written the movie
   header's field and nothing else.
   */
  lemma StampFailsExactly(buf: Buffer)
    ensures var st := Scan(buf);
            Stamped(buf).1.None? <==>
            st.Duration().None? || (st.mvhd.Some? && !Fits(buf, st.mvhd.value))
            || (st.mdhd.Some? && !Fits(buf, st.mdhd.value))
    ensures Stamped(buf).1.None? && !HalfStamped(buf) ==> Stamped(buf).0 == buf
    ensures HalfStamped(buf) ==>
              var field := Scan(buf).mvhd.value;
              Stamped(buf).0 == Overwrite(buf, field.offset, FieldBytes(field, Scan(buf).Ticks()))
  {
    hide Scan, FieldBytes, Overwrite;
    var st := Scan(buf);
    StampFieldsFails(buf, Fields(st), st.Ticks());
    if HalfStamped(buf) {
      assert Fields(st)[1..] == [st.mdhd.value];
    } else if st.mvhd.Some? && st.mdhd.Some? {
      assert Fields(st) == [st.mvhd.value, st.mdhd.value];
    } else {
      assert st.mvhd.Some? ==> Fields(st) == [st.mvhd.value];
      assert st.mdhd.Some? ==> Fields(st) == [st.mdhd.value];
    }
  }

  /** The field lies in the file and all its bytes are quiet. */
  ghost predicate QuietField(buf: Buffer, field: DurationField)
    requires WellSized(buf)
  {
    && field.offset + field.Width() <= |buf|
    && forall p: nat :: InField(field, p) ==> Quiet(buf, p)
  }

  lemma MvhdQuietField(buf: Buffer, st: ScanState)
    requires WellSized(buf) && Located(buf, st) && st.mvhd.Some?
    ensures QuietField(buf, st.mvhd.value)
  {
    var t, c :| MvhdAt(buf, t, c) && FieldOf(buf, c, st.mvhd.value);
    MvhdFits(buf, t, c);
    forall p: nat | InField(st.mvhd.value, p) ensures Quiet(buf, p) {
      MvhdFieldQuiet(buf, t, c, p);
    }
  }

  lemma MdhdQuietField(buf: Buffer, st: ScanState)
    requires WellSized(buf) && Located(buf, st) && st.mdhd.Some?
    ensures QuietField(buf, st.mdhd.value)
  {
    var u, k, m, g :| MdhdAt(buf, u, k, m, g) && FieldOf(buf, g, st.mdhd.value);
    MdhdFits(buf, u, k, m, g);
    forall p: nat | InField(st.mdhd.value, p) ensures Quiet(buf, p) {
      MdhdFieldQuiet(buf, u, k, m, g, p);
    }
  }

  ghost predicate Apart(f: DurationField, g: DurationField) {
    forall p: nat :: !(InField(f, p) && InField(g, p))
  }

  lemma FieldsApart(buf: Buffer, st: ScanState)
    requires WellSized(buf) && Located(buf, st) && st.mvhd.Some? && st.mdhd.Some?
    ensures Apart(st.mvhd.value, st.mdhd.value)
  {
    var t, c :| MvhdAt(buf, t, c) && FieldOf(buf, c, st.mvhd.value);
    var u, k, m, g :| MdhdAt(buf, u, k, m, g) && FieldOf(buf, g, st.mdhd.value);
    forall p: nat ensures !(InField(st.mvhd.value, p) && InField(st.mdhd.value, p)) {
      HeadersApart(buf, t, c, u, k, m, g, p);
    }
  }

  ghost predicate Holds(buf: Buffer, field: DurationField, ticks: nat) {
    && field.offset + field.Width() <= |buf|
    && buf[field.offset..field.offset + field.Width()] == FieldBytes(field, ticks)
  }

  /** Fields that fit and do not overlap are all written, and nothing else is. */
  lemma {:induction false} StampFieldsWrite(buf: Buffer, fields: seq<DurationField>, ticks: nat)
    requires forall f :: f in fields ==> f.offset + f.Width() <= |buf|
    requires forall i, j :: 0 <= i < j < |fields| ==> Apart(fields[i], fields[j])
    ensures var r := StampFields(buf, fields, ticks);
            && r.1
            && (forall f :: f in fields ==> Holds(r.0, f, ticks))
            && (forall p: nat :: Diff(buf, r.0, p) ==> exists f :: f in fields && InField(f, p))
    decreases |fields|
  {
    hide FieldBytes, Apart;
    if fields != [] {
      var f, rest := fields[0], fields[1..];
      FieldBytesHold(f, ticks);
      var next := Overwrite(buf, f.offset, FieldBytes(f, ticks));
      StampFieldsWrite(next, rest, ticks);
      var r := StampFields(next, rest, ticks).0;
      assert forall x :: x in rest ==> x in fields;
      forall x | x in rest ensures Apart(f, x) {
        var j :| 0 <= j < |rest| && rest[j] == x;
        assert fields[j + 1] == x;
      }
      KeptByOthers(next, r, f, rest, ticks);
      forall p: nat | Diff(buf, r, p) ensures exists x :: x in fields && InField(x, p) {
        if !Diff(next, r, p) {
          assert f in fields && InField(f, p);
        }
      }
    }
  }

  /** Changes inside fields apart from `f` leave what `f` holds. */
  lemma KeptByOthers(next: Buffer, r: Buffer, f: DurationField, rest: seq<DurationField>, ticks: nat)
    requires |r| == |next| && Holds(next, f, ticks) && forall x :: x in rest ==> Apart(f, x)
    requires forall p: nat :: Diff(next, r, p) ==> exists x :: x in rest && InField(x, p)
    ensures Holds(r, f, ticks)
  {
    hide FieldBytes;
    forall i: nat | f.offset <= i < f.offset + f.Width() ensures r[i] == next[i] {
      assert InField(f, i);
      assert !Diff(next, r, i);
    }
    assert r[f.offset..f.offset + f.Width()] == next[f.offset..f.offset + f.Width()];
  }

  /** Writing what the fields already hold changes nothing. */
  lemma {:induction false} RestampKeeps(buf: Buffer, fields: seq<DurationField>, ticks: nat)
    requires forall f :: f in fields ==> Holds(buf, f, ticks)
    ensures StampFields(buf, fields, ticks) == (buf, true)
  {
    if fields != [] {
      var f := fields[0];
      assert Holds(buf, f, ticks);
      FieldBytesHold(f, ticks);
      assert Overwrite(buf, f.offset, FieldBytes(f, ticks)) == buf;
      RestampKeeps(buf, fields[1..], ticks);
    }
  }

  /** The field is the duration of the movie header or of the media header that was found last. */
  predicate Remembers(st: ScanState, f: DurationField) {
    st.mvhd == Some(f) || st.mdhd == Some(f)
  }

  lemma FieldsRemembered(st: ScanState, f: DurationField)
    ensures f in Fields(st) <==> Remembers(st, f)
  {
  }

  /**
   Stamping a well-sized file never fails halfway. It changes only the bytes of the two
   duration fields, each field then holds the ticks modulo its width, a rescan finds exactly
   what the first scan found, and a second stamp changes no byte.
   */
  lemma StampSound(buf: Buffer)
    requires WellSized(buf)
    ensures var (out, r) := Stamped(buf);
            var st := Scan(buf);
            && r == st.Duration()
            && |out| == |buf|
            && (forall p: nat :: Diff(buf, out, p) ==> exists f :: Remembers(st, f) && InField(f, p))
            && (r.Some? ==> forall f :: Remembers(st, f) ==>
                  ReadBe(out, f.offset, f.Width()) == Some(st.Ticks() % (if f.wide then U64_MAX + 1 else U32_MAX + 1)))
            && Scan(out) == st
            && Stamped(out) == (out, r)
  {
    hide Fields, Scan;
    var st := Scan(buf);
    if st.Duration().Some? {
      forall f ensures f in Fields(st) <==> Remembers(st, f) {
        FieldsRemembered(st, f);
      }
      ScanLocated(buf);
      StampLocated(buf, st);
      var out := Stamped(buf).0;
      StampIsQuiet(buf, out, st);
      RestampKeeps(out, Fields(st), st.Ticks());
      FieldsReadBack(out, Fields(st), st.Ticks());
    }
  }

  lemma FieldsReadBack(buf: Buffer, fields: seq<DurationField>, ticks: nat)
    requires forall f :: f in fields ==> Holds(buf, f, ticks)
    ensures forall f :: f in fields ==>
              ReadBe(buf, f.offset, f.Width()) == Some(ticks % (if f.wide then U64_MAX + 1 else U32_MAX + 1))
  {
    forall f | f in fields
      ensures ReadBe(buf, f.offset, f.Width()) == Some(ticks % (if f.wide then U64_MAX + 1 else U32_MAX + 1))
    {
      assert Holds(buf, f, ticks);
      FieldBytesHold(f, ticks);
    }
  }

  lemma QuietFields(buf: Buffer, st: ScanState, f: DurationField)
    requires WellSized(buf) && Located(buf, st) && f in Fields(st)
    ensures QuietField(buf, f)
  {
    if st.mvhd.Some? && f == st.mvhd.value {
      MvhdQuietField(buf, st);
    } else {
      MdhdQuietField(buf, st);
    }
  }

  lemma StampLocated(buf: Buffer, st: ScanState)
    requires WellSized(buf) && Located(buf, st)
    ensures var r := StampFields(buf, Fields(st), st.Ticks());
            && r.1
            && (forall f :: f in Fields(st) ==> Holds(r.0, f, st.Ticks()))
            && (forall p: nat :: Diff(buf, r.0, p) ==> exists f :: f in Fields(st) && InField(f, p))
  {
    FieldsWritable(buf, st);
    StampFieldsWrite(buf, Fields(st), st.Ticks());
  }

  lemma FieldsWritable(buf: Buffer, st: ScanState)
    requires WellSized(buf) && Located(buf, st)
    ensures var fields := Fields(st);
            && (forall f :: f in fields ==> f.offset + f.Width() <= |buf|)
            && (forall i, j :: 0 <= i < j < |fields| ==> Apart(fields[i], fields[j]))
  {
    hide WellSized, Located, Apart;
    forall f | f in Fields(st) ensures f.offset + f.Width() <= |buf| {
      QuietFields(buf, st, f);
    }
    if st.mvhd.Some? && st.mdhd.Some? {
      FieldsApart(buf, st);
    }
  }

  lemma StampIsQuiet(buf: Buffer, out: Buffer, st: ScanState)
    requires WellSized(buf) && Located(buf, st) && |out| == |buf|
    requires forall p: nat :: Diff(buf, out, p) ==> exists f :: f in Fields(st) && InField(f, p)
    ensures Top(out) == Top(buf) && Scan(out) == Scan(buf)
  {
    forall p: nat | Diff(buf, out, p) ensures Quiet(buf, p) {
      var f :| f in Fields(st) && InField(f, p);
      QuietFields(buf, st, f);
    }
    QuietEditsKeepScan(buf, out);
  }

  /** `copy_from_slice` at `at`. */
  method WriteField(fmp4: array<byte>, at: nat, bytes: seq<byte>)
    requires at + |bytes| <= fmp4.Length <= ISIZE_MAX
    modifies fmp4
    ensures fmp4[..] == Overwrite(old(fmp4[..]), at, bytes)
  {
    forall j | 0 <= j < |bytes| {
      fmp4[at + j] := bytes[j];
    }
  }

  /** The call itself, writing into the caller's slice. */
  method StampFragmentedDuration(fmp4: array<byte>) returns (r: Option<(nat, nat)>)
    requires fmp4.Length <= ISIZE_MAX
    modifies fmp4
    ensures (fmp4[..], r) == Stamped(old(fmp4[..]))
  {
    var scan := ScanFile(fmp4[..]);
    var st := scan.State();
    var duration := st.Duration();
    if duration.None? {
      return None;
    }
    var fields, ticks := Fields(st), st.Ticks();
    for i := 0 to |fields|
      invariant StampFields(old(fmp4[..]), fields, ticks) == StampFields(fmp4[..], fields[i..], ticks)
    {
      var field := fields[i];
      var width := field.Width();
      var at := field.offset;
      if at + width > fmp4.Length {
        return None;
      }
      WriteField(fmp4, at, FieldBytes(field, ticks));
    }
    return duration;
  }
}
