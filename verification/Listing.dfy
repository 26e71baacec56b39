/**
 What the archive lookup of crates/server/src/lookup.rs lists, said of the rows themselves:
 a codec's parts appear when each number from one to the total is there once.
 */
module Listing {
  import opened Prelude
  import opened Music
  import opened Albums
  import opened Lookup
  import Text

  /** The codec's rows agree on a total and a generation, and each part is there exactly once. */
  ghost predicate Whole(rows: seq<Row>, codec: Codec, total: int, generation: string) {
    && total > 0
    && (forall i :: 0 <= i < |rows| && rows[i].part.codec == codec ==>
          && rows[i].part.totalParts == total && rows[i].part.generation == generation
          && 1 <= rows[i].part.partIndex <= total && rows[i].part.fileSize >= 0)
    && (forall k :: 1 <= k <= total ==> HasPart(rows, codec, k))
    && OncePerPart(rows, codec)
  }

  ghost predicate HasPart(rows: seq<Row>, codec: Codec, k: int) {
    exists i :: 0 <= i < |rows| && rows[i].part.codec == codec && rows[i].part.partIndex == k
  }

  ghost predicate OncePerPart(rows: seq<Row>, codec: Codec) {
    forall i, j :: 0 <= i < j < |rows| && rows[i].part.codec == codec && rows[j].part.codec == codec ==>
      rows[i].part.partIndex != rows[j].part.partIndex
  }

  lemma {:induction false} OfCodecHolds(rows: seq<Row>, codec: Codec, x: Row)
    ensures x in OfCodec(rows, codec) <==> x in rows && x.part.codec == codec
  {
    if rows != [] {
      var init, last := rows[..|rows| - 1], rows[|rows| - 1];
      OfCodecHolds(init, codec, x);
      assert rows == init + [last];
    }
  }

  ghost predicate DifferentParts(parts: seq<Row>) {
    forall i, j :: 0 <= i < j < |parts| ==> parts[i].part.partIndex != parts[j].part.partIndex
  }

  lemma {:induction false} OfCodecDifferent(rows: seq<Row>, codec: Codec)
    ensures OncePerPart(rows, codec) <==> DifferentParts(OfCodec(rows, codec))
  {
    if rows != [] {
      var init, last := rows[..|rows| - 1], rows[|rows| - 1];
      var rest := OfCodec(init, codec);
      OfCodecDifferent(init, codec);
      assert forall i :: 0 <= i < |init| ==> init[i] == rows[i];
      if OncePerPart(rows, codec) && last.part.codec == codec {
        forall i | 0 <= i < |rest| ensures rest[i].part.partIndex != last.part.partIndex {
          OfCodecHolds(init, codec, rest[i]);
          var j :| 0 <= j < |init| && init[j] == rest[i];
          assert rows[j] == rest[i] && rows[|init|] == last;
        }
      }
      if DifferentParts(OfCodec(rows, codec)) {
        OnceOfDifferent(rows, codec, init, last, rest);
      }
    }
  }

  lemma OnceOfDifferent(rows: seq<Row>, codec: Codec, init: seq<Row>, last: Row, rest: seq<Row>)
    requires rows == init + [last] && rest == OfCodec(init, codec) && DifferentParts(OfCodec(rows, codec))
    requires DifferentParts(rest) ==> OncePerPart(init, codec)
    ensures OncePerPart(rows, codec)
  {
    var parts := OfCodec(rows, codec);
    assert rows[..|rows| - 1] == init;
    assert parts == rest || parts == rest + [last];
    assert forall i :: 0 <= i < |rest| ==> parts[i] == rest[i];
    forall i | 0 <= i < |init| && init[i].part.codec == codec && last.part.codec == codec
      ensures init[i].part.partIndex != last.part.partIndex
    {
      OfCodecHolds(init, codec, init[i]);
      var j :| 0 <= j < |rest| && rest[j] == init[i];
      assert parts[j] == init[i] && parts[|rest|] == last;
    }
  }

  // ---- Listed exactly when whole

  lemma {:induction false} OnceEach(s: seq<int>, x: int)
    requires forall i, j :: 0 <= i < j < |s| ==> s[i] != s[j]
    ensures multiset(s)[x] <= 1 && (x in s <==> multiset(s)[x] == 1)
  {
    if s != [] {
      var init := s[..|s| - 1];
      OnceEach(init, x);
      assert s == init + [s[|s| - 1]];
    }
  }

  lemma AllNumbers(s: seq<int>, n: nat)
    requires forall i, j :: 0 <= i < j < |s| ==> s[i] != s[j]
    requires forall i :: 0 <= i < |s| ==> 1 <= s[i] <= n
    requires forall k :: 1 <= k <= n ==> k in s
    ensures |s| == n && IsOneTo(s, n)
  {
    forall x ensures multiset(s)[x] == multiset(OneTo(n))[x] {
      OnceEach(s, x);
      OneToOnce(n, x);
    }
    assert multiset(s) == multiset(OneTo(n));
    assert |multiset(s)| == |s| && |multiset(OneTo(n))| == |OneTo(n)|;
  }

  ghost predicate HasNumber(parts: seq<Row>, k: int) {
    exists i :: 0 <= i < |parts| && parts[i].part.partIndex == k
  }

  /** All parts agree on a total and a generation, and each number up to the total is there exactly once. */
  ghost predicate Entire(parts: seq<Row>, total: int, generation: string) {
    && total > 0
    && (forall i :: 0 <= i < |parts| ==>
          && parts[i].part.totalParts == total && parts[i].part.generation == generation
          && 1 <= parts[i].part.partIndex <= total)
    && (forall k :: 1 <= k <= total ==> HasNumber(parts, k))
    && DifferentParts(parts)
  }

  lemma EntireIsComplete(parts: seq<Row>, total: int, generation: string)
    requires Entire(parts, total, generation)
    ensures Complete(parts) && |parts| == total
  {
    hide IsOneTo, OneTo;
    var s := Indices(parts);
    forall k | 1 <= k <= total ensures k in s {
      assert HasNumber(parts, k);
      var i :| 0 <= i < |parts| && parts[i].part.partIndex == k;
      assert s[i] == k;
    }
    forall i, j | 0 <= i < j < |s| ensures s[i] != s[j] {
      assert parts[i].part.partIndex != parts[j].part.partIndex;
    }
    AllNumbers(s, total);
  }

  lemma CompleteNumbers(parts: seq<Row>)
    requires Complete(parts)
    ensures DifferentParts(parts)
    ensures forall k :: 1 <= k <= |parts| ==> HasNumber(parts, k)
    ensures forall i :: 0 <= i < |parts| ==> 1 <= parts[i].part.partIndex <= |parts|
  {
    hide IsOneTo, OneTo;
    var s := Indices(parts);
    forall i | 0 <= i < |s| ensures 1 <= s[i] <= |s| && forall j :: 0 <= j < |s| && j != i ==> s[j] != s[i] {
      PermutationBounds(s, |s|, i);
    }
    forall i, j | 0 <= i < j < |parts| ensures parts[i].part.partIndex != parts[j].part.partIndex {
      assert s[j] != s[i];
    }
    forall i | 0 <= i < |parts| ensures 1 <= parts[i].part.partIndex <= |parts| {
      assert s[i] == parts[i].part.partIndex;
    }
    forall k | 1 <= k <= |parts| ensures HasNumber(parts, k) {
      AllSeen(s, |s|, k);
      var j :| 0 <= j < |s| && s[j] == k;
      assert parts[j].part.partIndex == k;
    }
  }

  lemma CompleteIsEntire(parts: seq<Row>)
    requires Complete(parts)
    ensures Entire(parts, |parts|, parts[0].part.generation)
  {
    hide IsOneTo, HasNumber, DifferentParts;
    CompleteNumbers(parts);
    forall i | 0 <= i < |parts| ensures parts[i].part.generation == parts[0].part.generation {
      assert i > 0 ==> parts[0].part.generation == parts[i].part.generation;
    }
  }

  lemma NotEmpty(parts: seq<Row>)
    requires Complete(parts)
    ensures parts != []
  {
  }

  /** Parts are complete exactly when they are entire for some total and generation. */
  lemma CompleteExactly(parts: seq<Row>)
    ensures Complete(parts) <==> exists total, generation :: Entire(parts, total, generation)
  {
    hide Complete, Entire;
    if total, generation :| Entire(parts, total, generation) {
      EntireIsComplete(parts, total, generation);
    }
    if Complete(parts) {
      NotEmpty(parts);
      CompleteIsEntire(parts);
    }
  }

  lemma WholeIsComplete(rows: seq<Row>, codec: Codec, total: int, generation: string)
    requires Whole(rows, codec, total, generation)
    ensures Complete(OfCodec(rows, codec)) && |OfCodec(rows, codec)| == total
    ensures forall x :: x in OfCodec(rows, codec) ==> x.part.fileSize >= 0
  {
    hide Complete;
    var parts := OfCodec(rows, codec);
    OfCodecDifferent(rows, codec);
    forall i | 0 <= i < |parts|
      ensures var part := parts[i].part;
              && part.totalParts == total && part.generation == generation && 1 <= part.partIndex <= total
              && part.fileSize >= 0
    {
      OfCodecHolds(rows, codec, parts[i]);
    }
    forall k | 1 <= k <= total ensures HasNumber(parts, k) {
      assert HasPart(rows, codec, k);
      var i :| 0 <= i < |rows| && rows[i].part.codec == codec && rows[i].part.partIndex == k;
      OfCodecHolds(rows, codec, rows[i]);
      var j :| 0 <= j < |parts| && parts[j] == rows[i];
      assert parts[j].part.partIndex == k;
    }
    EntireIsComplete(parts, total, generation);
  }

  lemma CompleteIsWhole(rows: seq<Row>, codec: Codec)
    requires var parts := OfCodec(rows, codec);
             Complete(parts) && forall i :: 0 <= i < |parts| ==> parts[i].part.fileSize >= 0
    ensures exists total, generation :: Whole(rows, codec, total, generation)
  {
    hide Complete;
    var parts := OfCodec(rows, codec);
    CompleteIsEntire(parts);
    var n, g := |parts|, parts[0].part.generation;
    OfCodecDifferent(rows, codec);
    forall i | 0 <= i < |rows| && rows[i].part.codec == codec
      ensures var part := rows[i].part;
              && part.totalParts == n && part.generation == g && 1 <= part.partIndex <= n && part.fileSize >= 0
    {
      OfCodecHolds(rows, codec, rows[i]);
      var j :| 0 <= j < |parts| && parts[j] == rows[i];
    }
    forall k | 1 <= k <= n ensures HasPart(rows, codec, k) {
      assert HasNumber(parts, k);
      var j :| 0 <= j < |parts| && parts[j].part.partIndex == k;
      OfCodecHolds(rows, codec, parts[j]);
    }
    assert Whole(rows, codec, n, g);
  }

  /** The row stands in the listing at the place of its part. */
  predicate Stands(row: Row, format: string, r: seq<PartResult>) {
    var part := row.part;
    && 1 <= part.partIndex <= |r| && part.fileSize >= 0
    && r[part.partIndex - 1] == PartResult(row.id, format, part.fileSize, part.partIndex, |r|)
  }

  /** A whole codec is listed part by part, any other not at all. */
  ghost predicate Listed(rows: seq<Row>, codec: Codec, format: string, r: seq<PartResult>) {
    if exists total, generation :: Whole(rows, codec, total, generation) then
      && (exists generation :: Whole(rows, codec, |r|, generation))
      && forall i :: 0 <= i < |rows| && rows[i].part.codec == codec ==> Stands(rows[i], format, r)
    else r == []
  }

  lemma RowStands(rows: seq<Row>, codec: Codec, row: Row)
    requires var parts := OfCodec(rows, codec); Complete(parts) && forall x :: x in parts ==> x.part.fileSize >= 0
    requires row in OfCodec(rows, codec) && row.part.codec == codec
    ensures Stands(row, AsStr(codec), CodecListing(rows, codec))
  {
    hide Complete, CodecListing, AsStr;
    WholeIsListed(rows, codec);
    PartListed(OfCodec(rows, codec), row);
  }

  lemma CodecListed(rows: seq<Row>, codec: Codec)
    ensures Listed(rows, codec, AsStr(codec), CodecListing(rows, codec))
  {
    hide Whole, Complete, AsStr, Stands;
    var parts, r := OfCodec(rows, codec), CodecListing(rows, codec);
    if total, generation :| Whole(rows, codec, total, generation) {
      WholeIsComplete(rows, codec, total, generation);
      WholeIsListed(rows, codec);
      forall i | 0 <= i < |rows| && rows[i].part.codec == codec ensures Stands(rows[i], AsStr(codec), r) {
        OfCodecHolds(rows, codec, rows[i]);
        RowStands(rows, codec, rows[i]);
      }
    } else if r != [] {
      SortByPartSorts(parts);
      forall i | 0 <= i < |parts| ensures parts[i].part.fileSize >= 0 {
        assert parts[i] in multiset(SortByPart(parts));
      }
      CompleteIsWhole(rows, codec);
      assert false;
    }
  }

  lemma WholeIsListed(rows: seq<Row>, codec: Codec)
    requires var parts := OfCodec(rows, codec); Complete(parts) && forall x :: x in parts ==> x.part.fileSize >= 0
    ensures var sorted := SortByPart(OfCodec(rows, codec));
            && |sorted| == |OfCodec(rows, codec)| && |CodecListing(rows, codec)| == |sorted|
            && forall k :: 0 <= k < |sorted| ==>
                 sorted[k].part.fileSize >= 0 && CodecListing(rows, codec)[k] == ResultOf(sorted[k])
  {
    hide Complete;
    var parts := OfCodec(rows, codec);
    SortByPartSorts(parts);
    SortedCount(parts);
    forall k | 0 <= k < |SortByPart(parts)| ensures SortByPart(parts)[k].part.fileSize >= 0 {
      assert SortByPart(parts)[k] in multiset(parts);
    }
  }

  lemma PartListed(parts: seq<Row>, row: Row)
    requires Complete(parts) && row in parts
    ensures 1 <= row.part.partIndex <= |parts| && row.part.totalParts == |parts|
    ensures |SortByPart(parts)| == |parts| && SortByPart(parts)[row.part.partIndex - 1] == row
  {
    hide IsOneTo;
    var i :| 0 <= i < |parts| && parts[i] == row;
    PermutationBounds(Indices(parts), |parts|, i);
    SortedPart(parts, row.part.partIndex - 1, row);
  }

  /** The listing of an album: its whole codecs in this order, each part by part, under these names. */
  lemma ListingExactly(rows: seq<Row>) returns (alac: seq<PartResult>, aac: seq<PartResult>, ec3: seq<PartResult>)
    ensures CompleteZipParts(rows) == alac + aac + ec3
    ensures Listed(rows, Alac, "alac", alac) && Listed(rows, Aac, "aac", aac) && Listed(rows, Ec3, "ec-3", ec3)
  {
    alac, aac, ec3 := CodecListing(rows, Alac), CodecListing(rows, Aac), CodecListing(rows, Ec3);
    CodecListed(rows, Alac);
    CodecListed(rows, Aac);
    CodecListed(rows, Ec3);
  }

  /** Requested ids come back trimmed, in the order of their first occurrences. */
  lemma {:induction false} FirstOccurrencesAt(ids: seq<string>) returns (at: seq<nat>)
    ensures var r := FirstOccurrences(ids);
            && |at| == |r| && (forall k :: 0 <= k < |r| ==> at[k] < |ids| && Text.Trim(ids[at[k]]) == r[k])
            && (forall j, k :: 0 <= j < k < |r| ==> at[j] < at[k])
            && forall k, q :: 0 <= k < |r| && 0 <= q < at[k] ==> Text.Trim(ids[q]) != r[k]
  {
    at := [];
    if ids != [] {
      var init := ids[..|ids| - 1];
      var before, id := FirstOccurrences(init), Text.Trim(ids[|ids| - 1]);
      at := FirstOccurrencesAt(init);
      FirstOccurrencesDiffer(init);
      assert forall q :: 0 <= q < |init| ==> init[q] == ids[q];
      assert FirstOccurrences(ids) == AddNew(before, id);
      if id !in before {
        at := at + [|init|];
      }
    }
  }
}
