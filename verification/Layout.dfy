/**
 The boxes a fragmented file is made of, written out as ISO/IEC 14496-12 lays them out, and
 what the readers of crates/media/src/fragmented.rs find in them. The layouts are independent
 of the offsets the scanner computes; each lemma says the two meet.
 */
module Layout {
  import opened Prelude
  import opened Bytes
  import opened BoxWalk
  import opened Fragmented
  import opened NonInterference
  import opened FragmentTime

  /** The buffer holds `w` at `p`. */
  ghost predicate Laid(buf: Buffer, p: nat, w: seq<byte>) {
    p + |w| <= |buf| && forall i :: 0 <= i < |w| ==> buf[p + i] == w[i]
  }

  lemma LaidBoth(buf: Buffer, p: nat, a: seq<byte>, b: seq<byte>)
    requires Laid(buf, p, a + b)
    ensures Laid(buf, p, a) && Laid(buf, p + |a|, b)
  {
    var w := a + b;
    forall i | 0 <= i < |a| ensures buf[p + i] == a[i] {
      assert w[i] == a[i];
    }
    forall i | 0 <= i < |b| ensures buf[p + |a| + i] == b[i] {
      assert w[|a| + i] == b[i];
    }
  }

  lemma ReadLaid(buf: Buffer, p: nat, n: nat, width: nat)
    requires Laid(buf, p, ToBe(n, width)) && n < Pow256(width)
    ensures ReadBe(buf, p, width) == Some(n)
  {
    assert buf[p..p + width] == ToBe(n, width);
    BeOfToBe(n, width);
    SmallMod(n, Pow256(width));
  }

  lemma SmallMod(n: nat, m: nat)
    requires n < m
    ensures n % m == n
  {
    ModUnique(n, m, 0, n);
  }

  lemma ReadU32(buf: Buffer, p: nat, n: nat)
    requires Laid(buf, p, ToBe(n, 4)) && n <= U32_MAX
    ensures U32At(buf, p) == Some(n)
  {
    Pow256Values();
    ReadLaid(buf, p, n, 4);
  }

  // ---- Full boxes (4.2): a version and 24 flags

  function Versioned(version: byte, flags: nat): seq<byte> {
    ToBe(version, 1) + ToBe(flags, 3)
  }

  lemma FlagsOfWord(flags: nat, x: byte, word: seq<byte>)
    requires flags < 0x100_0000 && word == ToBe(flags, 3) + [x]
    ensures (Be(word) / 256) % 0x100_0000 == flags
  {
    Pow256Values();
    BeOfToBe(flags, 3);
    assert word[..|word| - 1] == ToBe(flags, 3);
    assert Be(word) == flags * 256 + x;
  }

  lemma ReadVersioned(buf: Buffer, p: nat, version: byte, flags: nat, rest: seq<byte>)
    requires Laid(buf, p, Versioned(version, flags) + rest) && rest != [] && flags < 0x100_0000
    ensures U8At(buf, p) == Some(version) && FlagsAt(buf, p) == Some(flags) && Laid(buf, p + 4, rest)
  {
    LaidBoth(buf, p, Versioned(version, flags), rest);
    LaidBoth(buf, p, ToBe(version, 1), ToBe(flags, 3));
    Pow256Values();
    ReadLaid(buf, p, version, 1);
    assert buf[p + 1..p + 5] == ToBe(flags, 3) + [rest[0]];
    FlagsOfWord(flags, rest[0], buf[p + 1..p + 5]);
  }

  // ---- Movie and media headers (8.2.2, 8.4.2)

  datatype HeaderBox = HeaderBox(
    version: byte, flags: nat, creation: nat, modification: nat, timescale: nat, duration: nat, rest: seq<byte>) {
    function Width(): nat { if version == 1 then 8 else 4 }

    ghost predicate Valid() {
      && flags < 0x100_0000 && timescale <= U32_MAX && duration < Pow256(Width())
    }

    function Payload(): seq<byte> {
      Versioned(version, flags)
      + (ToBe(creation, Width()) + (ToBe(modification, Width())
         + (ToBe(timescale, 4) + (ToBe(duration, Width()) + rest))))
    }
  }

  /** The scanner finds the timescale, and its field is the duration's. */
  lemma HeaderReadBack(buf: Buffer, h: BoxHeader, b: HeaderBox, st: ScanState, isMedia: bool)
    requires Laid(buf, h.Body(), b.Payload()) && b.Valid()
    ensures var field := DurationField(h.Body() + 8 + 2 * b.Width(), b.version == 1);
            var timed := if isMedia || st.timescale == 0 then st.(timescale := b.timescale) else st;
            && FullHeader(buf, h, st, isMedia) ==
               (if isMedia then timed.(mdhd := Some(field)) else timed.(mvhd := Some(field)))
            && ReadBe(buf, field.offset, field.Width()) == Some(b.duration)
  {
    var p, w := h.Body(), b.Width();
    var tail := ToBe(b.timescale, 4) + (ToBe(b.duration, w) + b.rest);
    ReadVersioned(buf, p, b.version, b.flags, ToBe(b.creation, w) + (ToBe(b.modification, w) + tail));
    LaidBoth(buf, p + 4, ToBe(b.creation, w), ToBe(b.modification, w) + tail);
    LaidBoth(buf, p + 4 + w, ToBe(b.modification, w), tail);
    LaidBoth(buf, p + 4 + 2 * w, ToBe(b.timescale, 4), ToBe(b.duration, w) + b.rest);
    LaidBoth(buf, p + 8 + 2 * w, ToBe(b.duration, w), b.rest);
    ReadU32(buf, p + 4 + 2 * w, b.timescale);
    ReadLaid(buf, p + 8 + 2 * w, b.duration, w);
  }

  // ---- Track extends (8.8.3)

  datatype TrexBox = TrexBox(version: byte, flags: nat, track: nat, description: nat, duration: nat, rest: seq<byte>) {
    ghost predicate Valid() { flags < 0x100_0000 && duration <= U32_MAX }

    function Payload(): seq<byte> {
      Versioned(version, flags) + (ToBe(track, 4) + (ToBe(description, 4) + (ToBe(duration, 4) + rest)))
    }
  }

  lemma TrexReadBack(buf: Buffer, h: BoxHeader, b: TrexBox)
    requires Laid(buf, h.Body(), b.Payload()) && b.Valid()
    ensures U32At(buf, h.Body() + 12) == Some(b.duration)
  {
    var p := h.Body();
    LaidBoth(buf, p, Versioned(b.version, b.flags),
             ToBe(b.track, 4) + (ToBe(b.description, 4) + (ToBe(b.duration, 4) + b.rest)));
    LaidBoth(buf, p + 4, ToBe(b.track, 4), ToBe(b.description, 4) + (ToBe(b.duration, 4) + b.rest));
    LaidBoth(buf, p + 8, ToBe(b.description, 4), ToBe(b.duration, 4) + b.rest);
    LaidBoth(buf, p + 12, ToBe(b.duration, 4), b.rest);
    ReadU32(buf, p + 12, b.duration);
  }

  // ---- Track fragment headers (8.8.7): each field is there when its flag, a binary digit, is set

  /** The number whose binary digits, the lowest first, are these. */
  function Word(flags: seq<bool>): nat {
    if flags == [] then 0 else (if flags[0] then 1 else 0) + 2 * Word(flags[1..])
  }

  predicate On(flags: seq<bool>, i: nat) {
    i < |flags| && flags[i]
  }

  function Pow2(n: nat): (p: nat)
    ensures p > 0
  {
    if n == 0 then 1 else 2 * Pow2(n - 1)
  }

  lemma HalfOf(b: nat, w: nat, p: nat)
    requires b < 2 && p > 0
    ensures (b + 2 * w) / (2 * p) == w / p
  {
    var q, r := w / p, w % p;
    assert w == p * q + r;
    assert b + 2 * w == (2 * p) * q + (2 * r + b);
    DivUnique(b + 2 * w, 2 * p, q, 2 * r + b);
  }

  lemma DivUnique(n: nat, m: nat, k: nat, rest: nat)
    requires m > 0 && rest < m && n == m * k + rest
    ensures n / m == k
  {
    var k2 := n / m;
    assert n == m * k2 + n % m;
    if k2 < k {
      MulSteps(m, k2, k);
    } else if k < k2 {
      MulSteps(m, k, k2);
    }
  }

  /** Testing a flag by its weight finds the binary digit of that weight. */
  lemma {:induction false} FlagIsDigit(flags: seq<bool>, i: nat)
    ensures Flag(Word(flags), Pow2(i)) <==> On(flags, i)
  {
    if flags != [] && i > 0 {
      HalfOf(if flags[0] then 1 else 0, Word(flags[1..]), Pow2(i - 1));
      FlagIsDigit(flags[1..], i - 1);
    } else if flags == [] {
      SmallDiv(Pow2(i));
    }
  }

  lemma SmallDiv(p: nat)
    requires p > 0
    ensures 0 / p == 0
  {
  }

  lemma {:induction false} WordBound(flags: seq<bool>)
    ensures Word(flags) < Pow2(|flags|)
  {
    if flags != [] {
      WordBound(flags[1..]);
    }
  }

  lemma {:induction false} Pow2Rises(m: nat, n: nat)
    requires m <= n
    ensures Pow2(m) <= Pow2(n)
  {
    if m < n {
      Pow2Rises(m, n - 1);
    }
  }

  lemma Weights()
    ensures Pow2(0) == 0x01 && Pow2(1) == 0x02 && Pow2(2) == 0x04 && Pow2(3) == 0x08
    ensures Pow2(8) == 0x100 && Pow2(9) == 0x200 && Pow2(10) == 0x400 && Pow2(11) == 0x800 && Pow2(24) == 0x100_0000
  {
    assert Pow2(4) == 16 && Pow2(5) == 32 && Pow2(6) == 64 && Pow2(7) == 128;
    assert Pow2(12) == 0x1000 && Pow2(13) == 0x2000 && Pow2(14) == 0x4000 && Pow2(15) == 0x8000;
    assert Pow2(16) == 0x1_0000 && Pow2(17) == 0x2_0000 && Pow2(18) == 0x4_0000 && Pow2(19) == 0x8_0000;
    assert Pow2(20) == 0x10_0000 && Pow2(21) == 0x20_0000 && Pow2(22) == 0x40_0000 && Pow2(23) == 0x80_0000;
  }

  /** The flags the scanner tests are the digits the layout goes by. */
  lemma FlagsOf(flags: seq<bool>)
    ensures Flag(Word(flags), 0x01) <==> On(flags, 0)
    ensures Flag(Word(flags), 0x02) <==> On(flags, 1)
    ensures Flag(Word(flags), 0x04) <==> On(flags, 2)
    ensures Flag(Word(flags), 0x08) <==> On(flags, 3)
    ensures Flag(Word(flags), 0x100) <==> On(flags, 8)
    ensures Flag(Word(flags), 0x200) <==> On(flags, 9)
    ensures Flag(Word(flags), 0x400) <==> On(flags, 10)
    ensures Flag(Word(flags), 0x800) <==> On(flags, 11)
    ensures |flags| <= 24 ==> Word(flags) < 0x100_0000
  {
    hide Flag, On, Word;
    Weights();
    FlagIsDigit(flags, 0);
    FlagIsDigit(flags, 1);
    FlagIsDigit(flags, 2);
    FlagIsDigit(flags, 3);
    FlagIsDigit(flags, 8);
    FlagIsDigit(flags, 9);
    FlagIsDigit(flags, 10);
    FlagIsDigit(flags, 11);
    WordBound(flags);
    if |flags| <= 24 {
      Pow2Rises(|flags|, 24);
    }
  }

  function Optional(present: bool, n: nat, width: nat): seq<byte> {
    if present then ToBe(n, width) else []
  }

  datatype TfhdBox = TfhdBox(
    version: byte, flags: seq<bool>, track: nat, baseOffset: nat, description: nat, duration: nat, rest: seq<byte>) {
    ghost predicate Valid() { |flags| <= 24 && duration <= U32_MAX }

    function Payload(): seq<byte> {
      Versioned(version, Word(flags))
      + (ToBe(track, 4)
         + (Optional(On(flags, 0), baseOffset, 8)
            + (Optional(On(flags, 1), description, 4) + (Optional(On(flags, 3), duration, 4) + rest))))
    }

    function Default(): Option<nat> { if On(flags, 3) then Some(duration) else None }
  }

  lemma TfhdReadBack(buf: Buffer, h: BoxHeader, b: TfhdBox)
    requires Laid(buf, h.Body(), b.Payload()) && b.Valid()
    ensures TfhdDefault(buf, h) == b.Default()
  {
    var p := h.Body();
    var offset, description :=
      Optional(On(b.flags, 0), b.baseOffset, 8), Optional(On(b.flags, 1), b.description, 4);
    var duration := Optional(On(b.flags, 3), b.duration, 4);
    FlagsOf(b.flags);
    ReadVersioned(buf, p, b.version, Word(b.flags), ToBe(b.track, 4) + (offset + (description + (duration + b.rest))));
    LaidBoth(buf, p + 4, ToBe(b.track, 4), offset + (description + (duration + b.rest)));
    LaidBoth(buf, p + 8, offset, description + (duration + b.rest));
    LaidBoth(buf, p + 8 + |offset|, description, duration + b.rest);
    LaidBoth(buf, p + 8 + |offset| + |description|, duration, b.rest);
    if On(b.flags, 3) {
      ReadU32(buf, TfhdDefaultAt(p, Word(b.flags)), b.duration);
    }
  }

  // ---- Decode times (8.8.12)

  datatype TfdtBox = TfdtBox(version: byte, flags: nat, time: nat, rest: seq<byte>) {
    function Width(): nat { if version == 1 then 8 else 4 }

    ghost predicate Valid() { flags < 0x100_0000 && time < Pow256(Width()) }

    function Payload(): seq<byte> { Versioned(version, flags) + (ToBe(time, Width()) + rest) }
  }

  lemma TfdtReadBack(buf: Buffer, h: BoxHeader, b: TfdtBox)
    requires Laid(buf, h.Body(), b.Payload()) && b.Valid()
    ensures TfdtTime(buf, h) == Some(b.time)
  {
    Pow256Values();
    ReadVersioned(buf, h.Body(), b.version, b.flags, ToBe(b.time, b.Width()) + b.rest);
    LaidBoth(buf, h.Body() + 4, ToBe(b.time, b.Width()), b.rest);
    ReadLaid(buf, h.Body() + 4, b.time, b.Width());
  }

  // ---- Track runs (8.8.8)

  datatype Sample = Sample(duration: nat, size: nat, flags: nat, composition: nat)

  /** The length of a sample record: every field of it is 32 bits wide in both versions. */
  function StandardStride(flags: seq<bool>): nat {
    (if On(flags, 8) then 4 else 0) + (if On(flags, 9) then 4 else 0)
    + (if On(flags, 10) then 4 else 0) + (if On(flags, 11) then 4 else 0)
  }

  function SampleBytes(s: Sample, flags: seq<bool>): seq<byte> {
    Optional(On(flags, 8), s.duration, 4)
    + (Optional(On(flags, 9), s.size, 4)
       + (Optional(On(flags, 10), s.flags, 4) + Optional(On(flags, 11), s.composition, 4)))
  }

  function SamplesBytes(samples: seq<Sample>, flags: seq<bool>): seq<byte> {
    if samples == [] then [] else SampleBytes(samples[0], flags) + SamplesBytes(samples[1..], flags)
  }

  function DurationSum(samples: seq<Sample>): nat {
    if samples == [] then 0 else samples[0].duration + DurationSum(samples[1..])
  }

  /**
   The code takes a version 1 record with a composition offset for 4 bytes longer than it is;
   that matters only when records are read at all and there is a second one.
   */
  predicate StrideIsSafe(version: nat, flags: seq<bool>, count: nat) {
    version != 1 || !On(flags, 11) || !On(flags, 8) || count <= 1
  }

  datatype TrunBox = TrunBox(
    version: byte, flags: seq<bool>, dataOffset: nat, firstFlags: nat, samples: seq<Sample>, rest: seq<byte>) {
    /** Every value fits its field. */
    ghost predicate Fits() {
      && |flags| <= 24 && |samples| <= U32_MAX
      && forall i :: 0 <= i < |samples| ==> samples[i].duration <= U32_MAX
    }

    ghost predicate Valid() { Fits() && StrideIsSafe(version, flags, |samples|) }

    function Payload(): seq<byte> {
      Versioned(version, Word(flags))
      + (ToBe(|samples|, 4)
         + (Optional(On(flags, 0), dataOffset, 4)
            + (Optional(On(flags, 2), firstFlags, 4) + (SamplesBytes(samples, flags) + rest))))
    }

    /** What the standard says the run lasts: its own durations, or the default for each sample. */
    function Ticks(defaultDuration: Option<nat>): Option<nat> {
      if On(flags, 8) then Some(DurationSum(samples))
      else if defaultDuration.Some? then Some(|samples| * defaultDuration.value)
      else None
    }
  }

  lemma RecordLength(s: Sample, flags: seq<bool>)
    ensures |SampleBytes(s, flags)| == StandardStride(flags)
  {
    hide ToBe, On;
  }

  lemma RecordDuration(buf: Buffer, p: nat, s: Sample, flags: seq<bool>)
    requires Laid(buf, p, SampleBytes(s, flags)) && On(flags, 8) && s.duration <= U32_MAX
    ensures U32At(buf, p) == Some(s.duration)
  {
    hide ToBe;
    LaidBoth(buf, p, ToBe(s.duration, 4),
             Optional(On(flags, 9), s.size, 4)
             + (Optional(On(flags, 10), s.flags, 4) + Optional(On(flags, 11), s.composition, 4)));
    ReadU32(buf, p, s.duration);
  }

  /** Every record is one stride long and starts with its duration. */
  lemma {:induction false} SamplesReadBack(buf: Buffer, p: nat, samples: seq<Sample>, flags: seq<bool>, i: nat)
    requires Laid(buf, p, SamplesBytes(samples, flags)) && On(flags, 8) && i < |samples|
    requires forall j :: 0 <= j < |samples| ==> samples[j].duration <= U32_MAX
    ensures U32At(buf, p + i * StandardStride(flags)) == Some(samples[i].duration)
    decreases |samples|
  {
    hide SampleBytes, StandardStride, ReadBe;
    var first, stride := SampleBytes(samples[0], flags), StandardStride(flags);
    LaidBoth(buf, p, first, SamplesBytes(samples[1..], flags));
    RecordLength(samples[0], flags);
    if i == 0 {
      RecordDuration(buf, p, samples[0], flags);
    } else {
      SamplesReadBack(buf, p + stride, samples[1..], flags, i - 1);
      assert i * stride == stride + (i - 1) * stride;
    }
  }

  lemma {:induction false} SumReadBack(buf: Buffer, p: nat, stride: nat, samples: seq<Sample>, index: nat)
    requires index <= |samples| && SamplesInside(buf, p, stride, |samples|)
    requires forall i :: 0 <= i < |samples| ==> U32At(buf, SampleAt(p, stride, i)) == Some(samples[i].duration)
    ensures SampleSum(buf, p, stride, index, |samples|) == DurationSum(samples[index..])
    decreases |samples| - index
  {
    if index < |samples| {
      SumReadBack(buf, p, stride, samples, index + 1);
      assert U32At(buf, SampleAt(p, stride, index)) == Some(samples[index].duration);
      assert samples[index..][1..] == samples[index + 1..];
    }
  }

  lemma RecordRead(buf: Buffer, p: nat, samples: seq<Sample>, flags: seq<bool>, stride: nat, i: nat)
    requires Laid(buf, p, SamplesBytes(samples, flags)) && On(flags, 8) && i < |samples|
    requires forall j :: 0 <= j < |samples| ==> samples[j].duration <= U32_MAX
    requires |samples| <= 1 || stride == StandardStride(flags)
    ensures SampleAt(p, stride, i) + 4 <= |buf| && U32At(buf, SampleAt(p, stride, i)) == Some(samples[i].duration)
  {
    hide SamplesBytes, StandardStride, On, Be;
    SamplesReadBack(buf, p, samples, flags, i);
    assert |samples| <= 1 ==> i * stride == 0 == i * StandardStride(flags);
  }

  lemma RunSumReadBack(buf: Buffer, p: nat, samples: seq<Sample>, flags: seq<bool>, stride: nat)
    requires Laid(buf, p, SamplesBytes(samples, flags)) && On(flags, 8) && |samples| <= U32_MAX
    requires forall j :: 0 <= j < |samples| ==> samples[j].duration <= U32_MAX
    requires stride <= 20 && (|samples| <= 1 || stride == StandardStride(flags))
    ensures SampleTicks(buf, p, stride, 0, |samples|, 0) == Some(DurationSum(samples))
  {
    hide SamplesBytes, StandardStride, On, Laid, U32At, SampleAt, SampleTicks, SampleSum, DurationSum;
    forall i: nat | i < |samples|
      ensures SampleAt(p, stride, i) + 4 <= |buf| && U32At(buf, SampleAt(p, stride, i)) == Some(samples[i].duration)
    {
      RecordRead(buf, p, samples, flags, stride, i);
    }
    RunIsExactSum(buf, p, stride, 0, |samples|, 0);
    SumReadBack(buf, p, stride, samples, 0);
    assert samples[0..] == samples;
  }

  /** The parts of a laid-out run are where the scanner looks for them. */
  lemma TrunParts(buf: Buffer, h: BoxHeader, b: TrunBox)
    requires Laid(buf, h.Body(), b.Payload()) && b.Fits()
    ensures U8At(buf, h.Body()) == Some(b.version) && FlagsAt(buf, h.Body()) == Some(Word(b.flags))
    ensures U32At(buf, h.Body() + 4) == Some(|b.samples|)
    ensures Laid(buf, SamplesAt(h.Body(), Word(b.flags)), SamplesBytes(b.samples, b.flags))
  {
    var p := h.Body();
    var offset, first := Optional(On(b.flags, 0), b.dataOffset, 4), Optional(On(b.flags, 2), b.firstFlags, 4);
    var samples := SamplesBytes(b.samples, b.flags);
    FlagsOf(b.flags);
    ReadVersioned(buf, p, b.version, Word(b.flags), ToBe(|b.samples|, 4) + (offset + (first + (samples + b.rest))));
    LaidBoth(buf, p + 4, ToBe(|b.samples|, 4), offset + (first + (samples + b.rest)));
    ReadU32(buf, p + 4, |b.samples|);
    LaidBoth(buf, p + 8, offset, first + (samples + b.rest));
    LaidBoth(buf, p + 8 + |offset|, first, samples + b.rest);
    LaidBoth(buf, p + 8 + |offset| + |first|, samples, b.rest);
    assert SamplesAt(p, Word(b.flags)) == p + 8 + |offset| + |first|;
  }

  ghost predicate AtMost32(n: Option<nat>) {
    n.Some? ==> n.value <= U32_MAX
  }

  lemma SafeStride(version: nat, flags: seq<bool>, count: nat)
    requires StrideIsSafe(version, flags, count) && On(flags, 8)
    ensures Stride(Word(flags), version) <= 20 && (count <= 1 || Stride(Word(flags), version) == StandardStride(flags))
  {
    FlagsOf(flags);
  }

  /** A run written as the standard says is read as lasting what the standard says. */
  lemma TrunReadBack(buf: Buffer, h: BoxHeader, b: TrunBox, defaultDuration: Option<nat>)
    requires Laid(buf, h.Body(), b.Payload()) && b.Valid() && AtMost32(defaultDuration)
    ensures RunTicks(buf, h, defaultDuration) == b.Ticks(defaultDuration)
  {
    TrunParts(buf, h, b);
    FlagsOf(b.flags);
    if On(b.flags, 8) {
      SafeStride(b.version, b.flags, |b.samples|);
      RunSumReadBack(buf, SamplesAt(h.Body(), Word(b.flags)), b.samples, b.flags, Stride(Word(b.flags), b.version));
    } else if defaultDuration.Some? {
      MulMonotone(|b.samples|, U32_MAX, defaultDuration.value, U32_MAX);
    }
  }

  // ---- Where the code leaves the standard

  /** Runs of this shape are all read as lasting what the standard says. */
  ghost predicate ReadAsWritten(version: nat, flags: seq<bool>, count: nat) {
    forall b: TrunBox, buf: Buffer, h: BoxHeader, d: Option<nat> ::
      b.Fits() && b.version == version && b.flags == flags && |b.samples| == count
      && Laid(buf, h.Body(), b.Payload()) && AtMost32(d)
      ==> RunTicks(buf, h, d) == b.Ticks(d)
  }

  lemma {:induction false} SamplesLength(samples: seq<Sample>, flags: seq<bool>)
    ensures |SamplesBytes(samples, flags)| == |samples| * StandardStride(flags)
  {
    if samples != [] {
      SamplesLength(samples[1..], flags);
      RecordLength(samples[0], flags);
      assert |samples| * StandardStride(flags) == StandardStride(flags) + (|samples| - 1) * StandardStride(flags);
    }
  }

  /** Samples that last nothing, with ones in the other fields of the second. */
  function TellingSamples(count: nat): (samples: seq<Sample>)
    ensures |samples| == count
    ensures forall i :: 0 <= i < count ==> samples[i].duration == 0
    ensures count >= 2 ==> samples[1] == Sample(0, 1, 1, 1)
  {
    seq(count, i => if i == 1 then Sample(0, 1, 1, 1) else Sample(0, 0, 0, 0))
  }

  lemma {:induction false} NothingSum(samples: seq<Sample>)
    requires forall i :: 0 <= i < |samples| ==> samples[i].duration == 0
    ensures DurationSum(samples) == 0
  {
    if samples != [] {
      NothingSum(samples[1..]);
    }
  }

  lemma TellingRecord(buf: Buffer, q: nat, flags: seq<bool>)
    requires Laid(buf, q, SampleBytes(Sample(0, 1, 1, 1), flags)) && On(flags, 8) && On(flags, 11)
    ensures U32At(buf, q + 4) == Some(1)
  {
    hide ToBe, On;
    var size, word := Optional(On(flags, 9), 1, 4), Optional(On(flags, 10), 1, 4);
    LaidBoth(buf, q, ToBe(0, 4), size + (word + ToBe(1, 4)));
    LaidBoth(buf, q + 4, size, word + ToBe(1, 4));
    LaidBoth(buf, q + 4 + |size|, word, ToBe(1, 4));
    ReadU32(buf, q + 4, 1);
  }

  lemma FirstRecord(samples: seq<Sample>, flags: seq<bool>)
    requires samples != []
    ensures SamplesBytes(samples, flags) == SampleBytes(samples[0], flags) + SamplesBytes(samples[1..], flags)
  {
  }

  /** Four bytes past its start, the second record holds whatever follows its duration. */
  lemma SecondField(buf: Buffer, p: nat, samples: seq<Sample>, flags: seq<bool>)
    requires Laid(buf, p, SamplesBytes(samples, flags)) && |samples| >= 2 && samples[1] == Sample(0, 1, 1, 1)
    requires On(flags, 8) && On(flags, 11)
    ensures U32At(buf, p + StandardStride(flags) + 4) == Some(1)
  {
    hide ToBe, SampleBytes, SamplesBytes, StandardStride, On, ReadBe, Laid;
    var first, rest := SampleBytes(samples[0], flags), samples[1..];
    FirstRecord(samples, flags);
    FirstRecord(rest, flags);
    RecordLength(samples[0], flags);
    LaidBoth(buf, p, first, SamplesBytes(rest, flags));
    var q := p + |first|;
    LaidBoth(buf, q, SampleBytes(rest[0], flags), SamplesBytes(rest[1..], flags));
    TellingRecord(buf, q, flags);
  }

  lemma {:induction false} SumAtLeast(buf: Buffer, offset: nat, stride: nat, index: nat, count: nat, i: nat)
    requires index <= i < count && SamplesInside(buf, offset, stride, count)
    ensures SampleSum(buf, offset, stride, index, count) >= U32At(buf, SampleAt(offset, stride, i)).value
    decreases count - index
  {
    assert SampleAt(offset, stride, index) + 4 <= |buf|;
    if index < i {
      SumAtLeast(buf, offset, stride, index + 1, count, i);
    }
  }

  lemma TellingRunTicks(buf: Buffer, p: nat, samples: seq<Sample>, flags: seq<bool>)
    requires Laid(buf, p, SamplesBytes(samples, flags)) && 2 <= |samples| <= U32_MAX && samples[1] == Sample(0, 1, 1, 1)
    requires On(flags, 8) && On(flags, 11)
    ensures SampleTicks(buf, p, Stride(Word(flags), 1), 0, |samples|, 0) != Some(0)
  {
    FlagsOf(flags);
    var stride := Stride(Word(flags), 1);
    RunIsExactSum(buf, p, stride, 0, |samples|, 0);
    if SamplesInside(buf, p, stride, |samples|) {
      SecondField(buf, p, samples, flags);
      assert SampleAt(p, stride, 1) == p + StandardStride(flags) + 4;
      SumAtLeast(buf, p, stride, 0, |samples|, 1);
    }
  }

  /** A run of an unsafe shape, laid out on its own, that is not read as lasting what it should. */
  lemma MisreadRun(flags: seq<bool>, count: nat) returns (b: TrunBox, buf: Buffer, h: BoxHeader)
    requires |flags| <= 24 && count <= U32_MAX && !StrideIsSafe(1, flags, count)
    ensures b.Fits() && b.version == 1 && b.flags == flags && |b.samples| == count && Laid(buf, h.Body(), b.Payload())
    ensures RunTicks(buf, h, None) != b.Ticks(None)
  {
    hide ToBe, RunTicks, Word, Flag, SamplesBytes, SampleTicks, Pow2;
    b := TrunBox(1, flags, 0, 0, TellingSamples(count), []);
    h := BoxHeader(0, 8 + |b.Payload()|, 8, TRUN);
    SamplesLength(b.samples, flags);
    MulMonotone(count, U32_MAX, StandardStride(flags), 16);
    buf := ToBe(0, 8) + b.Payload();
    TrunParts(buf, h, b);
    FlagsOf(flags);
    NothingSum(b.samples);
    TellingRunTicks(buf, SamplesAt(8, Word(flags)), b.samples, flags);
    TicksOfRun(buf, h, b);
  }

  /** A laid-out run with durations is read record by record. */
  lemma TicksOfRun(buf: Buffer, h: BoxHeader, b: TrunBox)
    requires Laid(buf, h.Body(), b.Payload()) && b.Fits() && On(b.flags, 8)
    ensures RunTicks(buf, h, None) == SampleTicks(buf, SamplesAt(h.Body(), Word(b.flags)),
                                                 Stride(Word(b.flags), b.version), 0, |b.samples|, 0)
  {
    hide SampleTicks, Word, Flag, SamplesBytes;
    TrunParts(buf, h, b);
    FlagsOf(b.flags);
  }

  /**
   The runs of a shape are all read as the standard means them exactly when the version is not 1,
   or composition offsets are absent, or durations are, or there is no second sample.
   */
  lemma RunsReadExactly(version: nat, flags: seq<bool>, count: nat)
    requires version < 256 && |flags| <= 24 && count <= U32_MAX
    ensures ReadAsWritten(version, flags, count) <==> StrideIsSafe(version, flags, count)
  {
    if StrideIsSafe(version, flags, count) {
      forall b: TrunBox, buf: Buffer, h: BoxHeader, d: Option<nat> |
        b.Fits() && b.version == version && b.flags == flags && |b.samples| == count
        && Laid(buf, h.Body(), b.Payload()) && AtMost32(d)
        ensures RunTicks(buf, h, d) == b.Ticks(d)
      {
        TrunReadBack(buf, h, b, d);
      }
    } else {
      var b, buf, h := MisreadRun(flags, count);
      assert AtMost32(None);
    }
  }

  /** Two samples with durations and composition offsets in a version 1 run are enough. */
  lemma VersionOneMisread() returns (b: TrunBox, buf: Buffer, h: BoxHeader)
    ensures b.Fits() && b.version == 1 && Word(b.flags) == 0x900 && |b.samples| == 2 && Laid(buf, h.Body(), b.Payload())
    ensures RunTicks(buf, h, None) != b.Ticks(None)
  {
    var flags := seq(12, i => i == 8 || i == 11);
    Word900();
    b, buf, h := MisreadRun(flags, 2);
  }

  lemma Word900()
    ensures Word(seq(12, i => i == 8 || i == 11)) == 0x900
  {
    var f := false;
    var high := [true, f, f, true];
    assert Word([]) == 0 && high[3..] == [true] && high[2..] == [f, true] && high[1..] == [f, f, true];
    assert Word([true]) == 1 && Word([f, true]) == 2 && Word([f, f, true]) == 4 && Word(high) == 9;
    WordShift(8, high);
    assert seq(12, i => i == 8 || i == 11) == seq(8, _ => false) + high;
    Weights();
  }

  lemma {:induction false} WordShift(n: nat, high: seq<bool>)
    ensures Word(seq(n, _ => false) + high) == Pow2(n) * Word(high)
  {
    var s := seq(n, _ => false) + high;
    if n == 0 {
      assert s == high;
    } else {
      assert s[1..] == seq(n - 1, _ => false) + high;
      WordShift(n - 1, high);
      TwiceOf(Pow2(n - 1), Word(high));
    }
  }

  lemma TwiceOf(p: nat, w: nat)
    ensures 2 * (p * w) == (2 * p) * w
  {
  }
}
