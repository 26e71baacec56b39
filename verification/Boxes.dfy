/**
 Boxes as section 4.2 of ISO/IEC 14496-12 writes them, against the header readers of
 crates/media/src/fragmented.rs and remux.rs, and audio sample entries against `contains_sinf`.
 */
module Boxes {
  import opened Prelude
  import opened Bytes
  import opened BoxWalk
  import opened Fragmented
  import opened Layout
  import opened Muxed

  function Ascii(s: string): seq<byte>
    requires forall i :: 0 <= i < |s| ==> s[i] < 128 as char
  {
    seq(|s|, i requires 0 <= i < |s| => s[i] as int)
  }

  /** The kinds the readers compare with are these four letters each. */
  lemma KindsSpelled()
    ensures MOOV == Ascii("moov") && MVHD == Ascii("mvhd") && TRAK == Ascii("trak") && MDIA == Ascii("mdia")
    ensures MDHD == Ascii("mdhd") && MVEX == Ascii("mvex") && TREX == Ascii("trex") && MOOF == Ascii("moof")
    ensures TRAF == Ascii("traf") && TFHD == Ascii("tfhd") && TFDT == Ascii("tfdt") && TRUN == Ascii("trun")
    ensures SINF == Ascii("sinf")
  {
  }

  /** Numbers are written most significant byte first. */
  lemma BigEndian(a: byte, b: byte, c: byte, d: byte)
    ensures Be([a, b]) == 0x100 * a + b && Be([a, b, c, d]) == 0x100_0000 * a + 0x1_0000 * b + 0x100 * c + d
  {
    var abcd := [a, b, c, d];
    assert abcd[..3] == [a, b, c] && [a, b, c][..2] == [a, b] && [a, b][..1] == [a] && [a][..0] == [];
    assert Be([a]) == a && Be([a, b]) == 256 * a + b && Be([a, b, c]) == 256 * Be([a, b]) + c;
  }

  lemma {:induction false} ToBeOfBe(bytes: seq<byte>)
    ensures ToBe(Be(bytes), |bytes|) == bytes
  {
    if bytes != [] {
      ToBeOfBe(bytes[..|bytes| - 1]);
    }
  }

  lemma FieldLaid(buf: Buffer, p: nat, width: nat, n: nat)
    requires p + width <= |buf| && n < Pow256(width)
    ensures Be(buf[p..p + width]) == n <==> Laid(buf, p, ToBe(n, width))
  {
    if Laid(buf, p, ToBe(n, width)) {
      ReadLaid(buf, p, n, width);
    }
    if Be(buf[p..p + width]) == n {
      ToBeOfBe(buf[p..p + width]);
      forall i | 0 <= i < width ensures buf[p + i] == ToBe(n, width)[i] {
        assert buf[p..p + width][i] == buf[p + i];
      }
    }
  }

  // ---- The three forms of a box header

  datatype Form = Short | Large | ToTheEnd

  /** The header of a box: its size, its kind, and its size again in 64 bits when it is large. */
  function HeaderBytes(form: Form, size: nat, kind: seq<byte>): seq<byte> {
    match form
    case Short => ToBe(size, 4) + (kind + [])
    case Large => ToBe(1, 4) + (kind + ToBe(size, 8))
    case ToTheEnd => ToBe(0, 4) + (kind + [])
  }

  /** Sizes 0 and 1 of the short form mark the other two. */
  ghost predicate SizeAllowed(form: Form, size: nat, room: int) {
    match form
    case Short => 8 <= size <= U32_MAX
    case Large => 16 <= size <= U64_MAX
    case ToTheEnd => 8 <= size == room
  }

  /** A box of this size and kind is written at `p`, and it ends by the limit. */
  ghost predicate BoxAt(buf: Buffer, p: nat, limit: u64, form: Form, h: BoxHeader) {
    && h.start == p && |h.kind| == 4 && h.header == (if form == Large then 16 else 8)
    && SizeAllowed(form, h.size, limit - p) && h.End() <= limit
    && Laid(buf, p, HeaderBytes(form, h.size, h.kind))
  }

  lemma KindRead(buf: Buffer, p: nat, kind: seq<byte>)
    requires |kind| == 4 && p + 4 <= |buf|
    ensures buf[p..p + 4] == kind <==> Laid(buf, p, kind)
  {
    var read := buf[p..p + 4];
    forall i | 0 <= i < 4 ensures read[i] == buf[p + i] {
    }
  }

  lemma HeaderParts(buf: Buffer, p: nat, form: Form, size: nat, kind: seq<byte>)
    requires |kind| == 4 && p + 8 <= |buf|
    requires form.Large? ==> size <= U64_MAX && p + 16 <= |buf|
    requires form.Short? ==> size <= U32_MAX
    ensures Laid(buf, p, HeaderBytes(form, size, kind)) <==>
              && Be(buf[p..p + 4]) == (match form case Short => size case Large => 1 case ToTheEnd => 0)
              && buf[p + 4..p + 8] == kind
              && (form.Large? ==> Be(buf[p + 8..p + 16]) == size)
  {
    hide Be, ToBe, Laid;
    Pow256Values();
    var first := match form case Short => size case Large => 1 case ToTheEnd => 0;
    var last := if form.Large? then ToBe(size, 8) else [];
    FieldLaid(buf, p, 4, first);
    KindRead(buf, p + 4, kind);
    BothLaid(buf, p, ToBe(first, 4), kind + last);
    BothLaid(buf, p + 4, kind, last);
    if form.Large? {
      FieldLaid(buf, p + 8, 8, size);
    } else {
      NothingLaid(buf, p + 8);
    }
  }

  lemma BothLaid(buf: Buffer, p: nat, a: seq<byte>, b: seq<byte>)
    ensures Laid(buf, p, a + b) <==> Laid(buf, p, a) && Laid(buf, p + |a|, b)
  {
    if Laid(buf, p, a + b) {
      LaidBoth(buf, p, a, b);
    } else if Laid(buf, p, a) && Laid(buf, p + |a|, b) {
      forall i | 0 <= i < |a + b| ensures buf[p + i] == (a + b)[i] {
        if i >= |a| {
          assert buf[p + |a| + (i - |a|)] == b[i - |a|];
        }
      }
    }
  }

  lemma NothingLaid(buf: Buffer, p: nat)
    requires p <= |buf|
    ensures Laid(buf, p, [])
  {
  }

  /** The header reader accepts exactly the boxes of section 4.2 that end by the limit. */
  lemma ReadHeaderExactly(buf: Buffer, p: nat, limit: u64, h: BoxHeader)
    ensures ReadHeader(buf, p, limit) == Some(h) <==> exists form :: BoxAt(buf, p, limit, form, h)
  {
    hide Be, Laid, HeaderBytes;
    if form :| BoxAt(buf, p, limit, form, h) {
      HeaderInside(buf, p, form, h.size, h.kind);
      HeaderParts(buf, p, form, h.size, h.kind);
    }
    if ReadHeader(buf, p, limit) == Some(h) {
      Pow256Values();
      var size32 := Be(buf[p..p + 4]);
      var form := if size32 == 1 then Large else if size32 == 0 then ToTheEnd else Short;
      HeaderParts(buf, p, form, h.size, h.kind);
      assert BoxAt(buf, p, limit, form, h);
    }
  }

  lemma HeaderInside(buf: Buffer, p: nat, form: Form, size: nat, kind: seq<byte>)
    requires |kind| == 4 && Laid(buf, p, HeaderBytes(form, size, kind))
    ensures p + 8 <= |buf| && (form.Large? ==> p + 16 <= |buf|)
  {
  }

  /** Why the strict reader refuses a box: no room in its parent, no bytes in the file, or a size that does not fit. */
  lemma ReadBoxFails(buf: Buffer, p: nat, limit: u64)
    ensures ReadBox(buf, p, limit) == Err(TruncatedHeader) <==> limit < p + 8
    ensures ReadBox(buf, p, limit) == Err(TruncatedLarge) <==>
              p + 8 <= limit < p + 16 && p + 8 <= |buf| && Laid(buf, p, [0, 0, 0, 1])
    ensures ReadBox(buf, p, limit) == Err(Io) <==>
              p + 8 <= limit && (p + 8 > |buf| || (Laid(buf, p, [0, 0, 0, 1]) && p + 16 <= limit && p + 16 > |buf|))
    ensures ReadBox(buf, p, limit) !in {Err(Uncovered), Err(TruncatedEntry), Err(UnsupportedVersion)}
  {
    if p + 8 <= |buf| {
      Pow256Values();
      FieldLaid(buf, p, 4, 1);
      assert ToBe(1, 4) == [0, 0, 0, 1] by { SmallWord(); }
    }
  }

  lemma SmallWord()
    ensures ToBe(1, 4) == [0, 0, 0, 1]
  {
    assert ToBe(0, 3) == [0, 0, 0] by {
      assert ToBe(0, 1) == [0] && ToBe(0, 2) == [0, 0];
    }
  }

  // ---- Audio sample entries

  /** A sample entry after its box header: the fixed fields, those its version adds, and the boxes it holds. */
  datatype SampleEntry = SampleEntry(
    reference: nat, version: nat, fixed: seq<byte>, added: seq<byte>, boxes: seq<RawBox>) {
    ghost predicate Valid() {
      // Revision, vendor, channels, sample size, compression, packet size and rate.
      && |fixed| == 2 + 4 + 2 + 2 + 2 + 2 + 4
      && version <= 2
      // Version 1 adds four 32-bit counts; version 2 a 64-bit rate and seven 32-bit fields.
      && |added| == (if version == 0 then 0 else if version == 1 then 4 * 4 else 8 + 7 * 4)
      && AllSized(boxes)
    }

    function Payload(): seq<byte> {
      ToBe(0, 6) + (ToBe(reference, 2) + (ToBe(version, 2) + (fixed + (added + WireAll(boxes)))))
    }
  }

  lemma EntryParts(e: SampleEntry, raw: Buffer)
    requires e.Valid() && raw == e.Payload()
    ensures var start := 28 + |e.added|;
            |raw| == start + |WireAll(e.boxes)| && Laid(raw, 8, ToBe(e.version, 2))
              && Laid(raw, start, WireAll(e.boxes))
  {
    hide WireAll, ToBe;
    WholeIsLaid(raw);
    var tail := e.added + WireAll(e.boxes);
    LaidBoth(raw, 0, ToBe(0, 6), ToBe(e.reference, 2) + (ToBe(e.version, 2) + (e.fixed + tail)));
    LaidBoth(raw, 6, ToBe(e.reference, 2), ToBe(e.version, 2) + (e.fixed + tail));
    LaidBoth(raw, 8, ToBe(e.version, 2), e.fixed + tail);
    LaidBoth(raw, 10, e.fixed, tail);
    LaidBoth(raw, 10 + |e.fixed|, e.added, WireAll(e.boxes));
  }

  lemma EntryOffset(e: SampleEntry, raw: Buffer)
    requires e.Valid() && |raw| >= 28 && Laid(raw, 8, ToBe(e.version, 2))
    ensures EntryChildOffset(raw) == Some(28 + |e.added|)
  {
    hide Be, ToBe, Laid;
    Pow256Values();
    FieldLaid(raw, 8, 2, e.version);
  }

  lemma EntryVersions(raw: Buffer)
    requires |raw| >= 28
    ensures EntryChildOffset(raw).None? <==> raw[8] as int * 0x100 + raw[9] > 2
  {
    BigEndian(raw[8], raw[9], 0, 0);
    assert raw[8..10] == [raw[8], raw[9]];
  }

  /** The boxes of an entry are found past the fields of its version. */
  lemma EntryBoxesFound(e: SampleEntry, raw: Buffer)
    requires e.Valid() && raw == e.Payload()
    ensures |raw| >= 28 && EntryChildOffset(raw) == Some(28 + |e.added|)
    ensures var from := 28 + |e.added|;
            Children(raw, from, |raw|) == HeadersAt(from, e.boxes) && from + TotalSize(e.boxes) == |raw|
  {
    hide WireAll, ToBe, Children, HeadersAt, LaidAll, Laid, SampleEntry.Payload;
    EntryParts(e, raw);
    EntryOffset(e, raw);
    WiresAreLaid(raw, 28 + |e.added|, e.boxes);
    ChildrenLaid(raw, 28 + |e.added|, e.boxes, |raw|);
  }

  lemma {:induction false} KindsAt(p: nat, boxes: seq<RawBox>)
    ensures HasSinf(HeadersAt(p, boxes)) <==> exists i :: 0 <= i < |boxes| && boxes[i].kind == SINF
    ensures WalkEnd(HeadersAt(p, boxes), p) == p + TotalSize(boxes)
    decreases |boxes|
  {
    if boxes != [] {
      var q, rest := p + boxes[0].Size(), boxes[1..];
      KindsAt(q, rest);
      assert HeadersAt(p, boxes) == [HeaderAt(p, boxes[0])] + HeadersAt(q, rest);
      assert forall i :: 0 < i < |boxes| ==> boxes[i] == rest[i - 1];
      if HasSinf(HeadersAt(p, boxes)) {
        assert boxes[0].kind == SINF || HasSinf(HeadersAt(q, rest));
      } else {
        assert HeaderAt(p, boxes[0]) in HeadersAt(p, boxes);
      }
    }
  }

  /** The test of an entry says whether one of its boxes is a `sinf`. */
  method SinfInEntry(e: SampleEntry, raw: Buffer) returns (r: Result<bool, BoxError>)
    requires e.Valid() && raw == e.Payload()
    ensures r == Ok(exists i :: 0 <= i < |e.boxes| && e.boxes[i].kind == Ascii("sinf"))
  {
    KindsSpelled();
    EntryBoxesFound(e, raw);
    KindsAt(EntryChildOffset(raw).value, e.boxes);
    r := ContainsSinf(raw);
  }
}
