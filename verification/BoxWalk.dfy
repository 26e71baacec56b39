/**
 The box walkers of crates/media/src/fragmented.rs and crates/media/src/remux.rs.
 `Children` is lenient: it keeps what it has read when a header fails.
 `StrictBoxes` refuses a range its boxes do not cover.
 Both read the box layout of ISO/IEC 14496-12 section 4.2.
 */
module BoxWalk {
  import opened Prelude
  import opened Bytes

  datatype BoxHeader = BoxHeader(start: nat, size: nat, header: nat, kind: seq<byte>) {
    function Body(): nat { start + header }

    function End(): nat { start + size }
  }

  datatype BoxError =
    | TruncatedHeader
    | TruncatedLarge
    | SizeOverflow
    | InvalidBounds
    | Io
    | Uncovered
    | TruncatedEntry
    | UnsupportedVersion

  // ---- The lenient walker of fragmented.rs

  /** The box at `offset`, which must end by `limit`; any failed read or check gives nothing. */
  function ReadHeader(buf: Buffer, offset: nat, limit: u64): (r: Option<BoxHeader>)
    ensures r.Some? ==>
              && r.value.start == offset
              && 8 <= r.value.header <= r.value.size
              && r.value.End() <= limit
              && r.value.Body() <= |buf|
  {
    if offset + 8 > U64_MAX || offset + 8 > limit || offset + 8 > |buf| then
      None
    else
      var size32 := Be(buf[offset..offset + 4]);
      var kind := buf[offset + 4..offset + 8];
      if size32 == 1 then
        if offset + 16 > |buf| then None
        else Bounded(offset, Be(buf[offset + 8..offset + 16]), 16, kind, limit)
      else
        Bounded(offset, if size32 == 0 then limit - offset else size32, 8, kind, limit)
  }

  function Bounded(offset: nat, size: nat, header: nat, kind: seq<byte>, limit: u64): Option<BoxHeader> {
    if size < header || offset + size > U64_MAX || offset + size > limit then None
    else Some(BoxHeader(offset, size, header, kind))
  }

  /** Boxes in order inside lo..hi, none overlapping the next. */
  ghost predicate Tiled(boxes: seq<BoxHeader>, lo: nat, hi: nat) {
    && (forall i :: 0 <= i < |boxes| ==> lo <= boxes[i].start && boxes[i].Body() <= boxes[i].End() <= hi)
    && (forall i, j :: 0 <= i < j < |boxes| ==> boxes[i].End() <= boxes[j].start)
  }

  /** Every box the lenient walk reads between `offset` and `limit`. */
  function Children(buf: Buffer, offset: nat, limit: u64): seq<BoxHeader>
    decreases if offset <= limit then limit - offset else 0
  {
    match ReadHeader(buf, offset, limit)
    case None => []
    case Some(h) => [h] + Children(buf, h.End(), limit)
  }

  lemma {:induction false} ChildrenTiled(buf: Buffer, offset: nat, limit: u64)
    ensures Tiled(Children(buf, offset, limit), offset, limit)
    decreases if offset <= limit then limit - offset else 0
  {
    var first := ReadHeader(buf, offset, limit);
    if first.Some? {
      ChildrenTiled(buf, first.value.End(), limit);
    }
  }

  /** The offset at which the lenient walk stops. */
  function WalkEnd(boxes: seq<BoxHeader>, start: nat): nat {
    if boxes == [] then start else boxes[|boxes| - 1].End()
  }

  /** `children` of fragmented.rs: the loop that advances `offset` and pushes to `found`. */
  method ReadChildren(buf: Buffer, start: nat, end: u64) returns (found: seq<BoxHeader>)
    ensures found == Children(buf, start, end)
  {
    found := [];
    var offset := start;
    var next := ReadHeader(buf, offset, end);
    while next.Some?
      invariant next == ReadHeader(buf, offset, end)
      invariant found + Children(buf, offset, end) == Children(buf, start, end)
      decreases if offset <= end then end - offset else 0, if next.Some? then 1 else 0
    {
      found := found + [next.value];
      offset := next.value.End();
      next := ReadHeader(buf, offset, end);
    }
  }

  // ---- The strict walker of remux.rs

  /** `read_box`: the same layout, read with its own order of checks. */
  function ReadBox(buf: Buffer, start: nat, parentEnd: u64): (r: Result<BoxHeader, BoxError>)
    ensures r.Ok? ==> start < r.value.End() <= parentEnd
  {
    if start >= parentEnd || parentEnd - start < 8 then Err(TruncatedHeader)
    else if start + 8 > |buf| then Err(Io)
    else
      var size32 := Be(buf[start..start + 4]);
      var kind := buf[start + 4..start + 8];
      if size32 == 1 && parentEnd - start < 16 then Err(TruncatedLarge)
      else if size32 == 1 && start + 16 > |buf| then Err(Io)
      else
        var header := if size32 == 1 then 16 else 8;
        var size :=
          if size32 == 0 then parentEnd - start
          else if size32 == 1 then Be(buf[start + 8..start + 16])
          else size32;
        if start + size > U64_MAX then Err(SizeOverflow)
        else if size < header || start + size > parentEnd then Err(InvalidBounds)
        else Ok(BoxHeader(start, size, header, kind))
  }

  /** What one strict walk has read, and the error that stopped it, if any. */
  datatype StrictRun = StrictRun(boxes: seq<BoxHeader>, failure: Option<BoxError>)

  function StrictWalk(buf: Buffer, offset: nat, end: u64): StrictRun
    decreases if offset <= end then end - offset else 0
  {
    if offset >= end then
      StrictRun([], if offset == end then None else Some(Uncovered))
    else
      match ReadBox(buf, offset, end)
      case Err(e) => StrictRun([], Some(e))
      case Ok(b) =>
        var rest := StrictWalk(buf, b.End(), end);
        StrictRun([b] + rest.boxes, rest.failure)
  }

  /** `child_boxes`, and `top_level_boxes` when the range is the whole file. */
  method StrictBoxes(buf: Buffer, start: nat, end: u64) returns (r: Result<seq<BoxHeader>, BoxError>)
    ensures var run := StrictWalk(buf, start, end);
            r == if run.failure.Some? then Err(run.failure.value) else Ok(run.boxes)
  {
    hide ReadBox;
    var boxes: seq<BoxHeader> := [];
    var offset := start;
    while offset < end
      invariant StrictWalk(buf, start, end).failure == StrictWalk(buf, offset, end).failure
      invariant StrictWalk(buf, start, end).boxes == boxes + StrictWalk(buf, offset, end).boxes
      decreases if offset <= end then end - offset else 0
    {
      var b := ReadBox(buf, offset, end);
      if b.Err? {
        return Err(b.error);
      }
      offset := b.value.End();
      boxes := boxes + [b.value];
    }
    if offset != end {
      return Err(Uncovered);
    }
    assert boxes + [] == boxes;
    return Ok(boxes);
  }

  // ---- Agreement

  /** The two readers accept the same boxes at every offset of every range. */
  lemma ReadersAgree(buf: Buffer, offset: nat, end: u64)
    ensures ReadHeader(buf, offset, end).Some? <==> ReadBox(buf, offset, end).Ok?
    ensures ReadBox(buf, offset, end).Ok? ==>
              ReadHeader(buf, offset, end) == Some(ReadBox(buf, offset, end).value)
  {
  }

  /**
   The strict walk reads exactly the boxes the lenient walk returns, whether or not it
   then fails, and it succeeds exactly when the lenient walk ends at the range's end.
   */
  lemma {:induction false} WalkersAgree(buf: Buffer, offset: nat, end: u64)
    ensures StrictWalk(buf, offset, end).boxes == Children(buf, offset, end)
    ensures StrictWalk(buf, offset, end).failure.None? <==>
              WalkEnd(Children(buf, offset, end), offset) == end
    decreases if offset <= end then end - offset else 0
  {
    ReadersAgree(buf, offset, end);
    if ReadBox(buf, offset, end).Ok? {
      var b := ReadBox(buf, offset, end).value;
      WalkersAgree(buf, b.End(), end);
    }
  }

  /** Boxes of one walk touch: each starts where the one before it ends. */
  lemma {:induction false} WalkIsContiguous(buf: Buffer, offset: nat, end: u64, i: nat)
    requires i < |Children(buf, offset, end)|
    ensures var boxes := Children(buf, offset, end);
            boxes[i].start == (if i == 0 then offset else boxes[i - 1].End())
    decreases i
  {
    var h := ReadHeader(buf, offset, end).value;
    if i > 0 {
      WalkIsContiguous(buf, h.End(), end, i - 1);
    }
  }

  /** Every box of a walk is one the reader accepts, and the walk goes on until it accepts none. */
  lemma {:induction false} WalkIsComplete(buf: Buffer, offset: nat, end: u64)
    ensures var boxes := Children(buf, offset, end);
            && (forall b :: b in boxes ==> ReadHeader(buf, b.start, end) == Some(b))
            && ReadHeader(buf, WalkEnd(boxes, offset), end).None?
    decreases if offset <= end then end - offset else 0
  {
    hide ReadHeader;
    var first := ReadHeader(buf, offset, end);
    if first.Some? {
      var rest := Children(buf, first.value.End(), end);
      WalkIsComplete(buf, first.value.End(), end);
      assert forall b :: b in [first.value] + rest ==> b == first.value || b in rest;
    }
  }

  // ---- The third walker: `contains_sinf` over a sample entry in memory

  const SINF: seq<byte> := [0x73, 0x69, 0x6E, 0x66]

  /** The sample entry version fixes where its child boxes start. */
  function EntryChildOffset(raw: Buffer): Option<nat>
    requires |raw| >= 28
  {
    match Be(raw[8..10])
    case 0 => Some(28)
    case 1 => Some(44)
    case 2 => Some(64)
    case _ => None
  }

  /** What the entry's reader says where the strict reader fails: it has no overflow check of its own. */
  function EntryError(e: BoxError): BoxError {
    match e
    case TruncatedHeader => TruncatedEntry
    case SizeOverflow => InvalidBounds
    case _ => e
  }

  /** The entry's own header reader, measured against the bytes that remain. */
  function ReadEntryChild(raw: Buffer, offset: nat): (r: Result<BoxHeader, BoxError>)
    requires offset < |raw|
    // It accepts what the other readers accept, and names the strict reader's error in its own words.
    ensures r.Ok? <==> ReadHeader(raw, offset, |raw|).Some?
    ensures r.Ok? ==> ReadHeader(raw, offset, |raw|) == Some(r.value)
    ensures r.Err? ==> ReadBox(raw, offset, |raw|).Err? && r.error == EntryError(ReadBox(raw, offset, |raw|).error)
  {
    var remaining := |raw| - offset;
    if remaining < 8 then Err(TruncatedEntry)
    else
      var size32 := Be(raw[offset..offset + 4]);
      var kind := raw[offset + 4..offset + 8];
      if size32 == 1 && remaining < 16 then Err(TruncatedLarge)
      else
        var header := if size32 == 1 then 16 else 8;
        var size :=
          if size32 == 1 then Be(raw[offset + 8..offset + 16])
          else if size32 == 0 then remaining
          else size32;
        if size < header || size > remaining then Err(InvalidBounds)
        else Ok(BoxHeader(offset, size, header, kind))
  }

  /** The strict walk of the entry fails, and the entry's reader names its error so. */
  predicate FailsAs(raw: Buffer, from: nat, e: BoxError) {
    var failure := StrictWalk(raw, from, |raw|).failure;
    failure.Some? && e == EntryError(failure.value)
  }

  predicate HasSinf(boxes: seq<BoxHeader>) {
    exists b :: b in boxes && b.kind == SINF
  }

  /**
   Past the version check, the answer is the one the lenient walk of the entry gives: yes
   when a box it reads is a `sinf`, no when there is none and nothing is left over, and
   otherwise the error of the strict walk, as the entry's reader names it.
   */
  method ContainsSinf(raw: Buffer) returns (r: Result<bool, BoxError>)
    ensures |raw| < 28 ==> r == Err(TruncatedEntry)
    ensures |raw| >= 28 && EntryChildOffset(raw).None? ==> r == Err(UnsupportedVersion)
    ensures |raw| >= 28 && EntryChildOffset(raw).Some? ==>
              var from := EntryChildOffset(raw).value;
              var boxes := Children(raw, from, |raw|);
              && (r == Ok(true) <==> HasSinf(boxes))
              && (r == Ok(false) <==> !HasSinf(boxes) && WalkEnd(boxes, from) >= |raw|)
              && (r.Err? ==> FailsAs(raw, from, r.error))
  {
    if |raw| < 28 {
      return Err(TruncatedEntry);
    }
    var childOffset := EntryChildOffset(raw);
    if childOffset.None? {
      return Err(UnsupportedVersion);
    }
    r := SinfAmong(raw, childOffset.value);
  }

  lemma WalkStep(buf: Buffer, offset: nat, end: u64)
    ensures var boxes, r := Children(buf, offset, end), ReadHeader(buf, offset, end);
            if r.None? then boxes == []
            else
              var rest := Children(buf, r.value.End(), end);
              && (HasSinf(boxes) <==> r.value.kind == SINF || HasSinf(rest))
              && WalkEnd(boxes, offset) == WalkEnd(rest, r.value.End())
  {
    var r := ReadHeader(buf, offset, end);
    if r.Some? {
      var rest := Children(buf, r.value.End(), end);
      assert r.value in [r.value] + rest;
      assert forall b :: b in rest ==> b in [r.value] + rest;
    }
  }

  method SinfAmong(raw: Buffer, from: nat) returns (r: Result<bool, BoxError>)
    ensures var boxes := Children(raw, from, |raw|);
            && (r == Ok(true) <==> HasSinf(boxes))
            && (r == Ok(false) <==> !HasSinf(boxes) && WalkEnd(boxes, from) >= |raw|)
            && (r.Err? ==> FailsAs(raw, from, r.error))
  {
    hide Be;
    var offset := from;
    while offset < |raw|
      invariant HasSinf(Children(raw, from, |raw|)) == HasSinf(Children(raw, offset, |raw|))
      invariant WalkEnd(Children(raw, from, |raw|), from) == WalkEnd(Children(raw, offset, |raw|), offset)
      invariant StrictWalk(raw, from, |raw|).failure == StrictWalk(raw, offset, |raw|).failure
      decreases |raw| - offset
    {
      WalkStep(raw, offset, |raw|);
      var child := ReadEntryChild(raw, offset);
      if child.Err? {
        return Err(child.error);
      }
      if child.value.kind == SINF {
        return Ok(true);
      }
      offset := child.value.End();
    }
    return Ok(false);
  }
}
