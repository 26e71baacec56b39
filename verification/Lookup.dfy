/** The archive lookup of crates/server/src/lookup.rs. */
module Lookup {
  import opened Prelude
  import opened Text
  import opened Music
  import opened Albums
  import ZipPlan

  // ---- Complete archives

  function Indices(parts: seq<Row>): (r: seq<int>)
    ensures |r| == |parts|
    ensures forall i :: 0 <= i < |parts| ==> r[i] == parts[i].part.partIndex
  {
    seq(|parts|, i requires 0 <= i < |parts| => parts[i].part.partIndex)
  }

  function OneTo(n: nat): (r: seq<int>)
    ensures |r| == n && forall i :: 0 <= i < n ==> r[i] == i + 1
  {
    seq(n, i => i + 1)
  }

  /** The numbers from 1 to `n` in some order. */
  predicate IsOneTo(s: seq<int>, n: nat) {
    multiset(s) == multiset(OneTo(n))
  }

  /** At least one part, one shared total and hash, and the indices a permutation of 1 to that total. */
  predicate Complete(parts: seq<Row>) {
    && parts != []
    && (forall i :: 0 <= i < |parts| ==> parts[i].part.totalParts == |parts|)
    && (forall i, j :: 0 <= i < j < |parts| ==> parts[i].part.generation == parts[j].part.generation)
    && IsOneTo(Indices(parts), |parts|)
  }

  ghost predicate DistinctTo(s: seq<int>, n: nat) {
    (forall i :: 0 <= i < |s| ==> 1 <= s[i] <= n) && forall i, j :: 0 <= i < j < |s| ==> s[i] != s[j]
  }

  lemma RemoveGreatest(s: seq<int>, n: nat, k: nat)
    requires DistinctTo(s, n) && k < |s| && s[k] == n > 0
    ensures DistinctTo(Without(s, k), n - 1)
  {
    var rest := Without(s, k);
    forall i | 0 <= i < |rest| ensures rest[i] == s[if i < k then i else i + 1] && 1 <= rest[i] <= n - 1 {
    }
  }

  lemma WithoutGreatest(s: seq<int>, n: nat)
    requires DistinctTo(s, n) && n > 0 && n !in s
    ensures DistinctTo(s, n - 1)
  {
    forall i | 0 <= i < |s| ensures s[i] <= n - 1 {
      assert s[i] in s;
    }
  }

  lemma OneToLast(n: nat)
    requires n > 0
    ensures OneTo(n) == OneTo(n - 1) + [n]
  {
  }

  /** Different numbers from 1 to `n` are at most `n`, and when they are `n` they are all of them. */
  lemma {:induction false} Pigeonhole(s: seq<int>, n: nat)
    requires DistinctTo(s, n)
    ensures |s| <= n && (|s| == n ==> IsOneTo(s, n))
  {
    hide IsOneTo, DistinctTo, OneTo;
    if n == 0 {
      NoneToZero(s);
    } else if n in s {
      var k: nat :| k < |s| && s[k] == n;
      RemoveGreatest(s, n, k);
      assert |Without(s, k)| == |s| - 1;
      Pigeonhole(Without(s, k), n - 1);
      if |s| == n {
        GreatestBack(s, n, k);
      }
    } else {
      WithoutGreatest(s, n);
      Pigeonhole(s, n - 1);
    }
  }

  lemma NoneToZero(s: seq<int>)
    requires DistinctTo(s, 0)
    ensures s == [] && IsOneTo(s, 0)
  {
    hide DistinctTo;
    if s != [] {
      InRange(s, 0, 0);
    }
  }

  lemma InRange(s: seq<int>, n: nat, i: nat)
    requires DistinctTo(s, n) && i < |s|
    ensures 1 <= s[i] <= n
  {
  }

  lemma GreatestBack(s: seq<int>, n: nat, k: nat)
    requires n > 0 && k < |s| && s[k] == n && IsOneTo(Without(s, k), n - 1)
    ensures IsOneTo(s, n)
  {
    MultisetWithout(s, k);
    OneToLast(n);
    assert multiset(OneTo(n)) == multiset(OneTo(n - 1)) + multiset{n};
  }

  lemma {:induction false} OneToOnce(n: nat, x: int)
    ensures multiset(OneTo(n))[x] == if 1 <= x <= n then 1 else 0
  {
    if n > 0 {
      OneToLast(n);
      OneToOnce(n - 1, x);
    }
  }

  lemma PermutationBounds(s: seq<int>, n: nat, i: nat)
    requires IsOneTo(s, n) && i < |s|
    ensures 1 <= s[i] <= n
    ensures forall j :: 0 <= j < |s| && j != i ==> s[j] != s[i]
  {
    assert s[i] in multiset(s);
    OneToOnce(n, s[i]);
    forall j | 0 <= j < |s| && j != i ensures s[j] != s[i] {
      if s[j] == s[i] {
        CountedTwice(s, if i < j then i else j, if i < j then j else i);
      }
    }
  }

  /** The first `n` parts agree with the first of all on total and hash. */
  predicate AgreeUpTo(parts: seq<Row>, n: nat)
    requires parts != [] && n <= |parts|
  {
    forall j :: 0 <= j < n ==>
      parts[j].part.totalParts == |parts| && parts[j].part.generation == parts[0].part.generation
  }

  lemma BadIndex(s: seq<int>, n: nat, i: nat)
    requires i < |s| && (s[i] < 1 || s[i] > n || s[i] in s[..i])
    ensures !IsOneTo(s, n)
  {
    if IsOneTo(s, n) {
      PermutationBounds(s, n, i);
    }
  }

  /** `has_complete_archive_parts`: the array of seen parts decides exactly the permutation. */
  method HasCompleteArchiveParts(parts: seq<Row>) returns (r: bool)
    ensures r <==> Complete(parts)
  {
    hide IsOneTo, OneTo;
    if parts == [] {
      return false;
    }
    var first := parts[0].part;
    var n := |parts|;
    if first.totalParts <= 0 || n != first.totalParts {
      return false;
    }
    ghost var indices := Indices(parts);
    var seen := new bool[n](i => false);
    for i := 0 to n
      invariant AgreeUpTo(parts, i) && DistinctTo(indices[..i], n)
      invariant forall k :: 0 <= k < n ==> (seen[k] <==> k + 1 in indices[..i])
    {
      var part := parts[i].part;
      if part.totalParts != first.totalParts || part.generation != first.generation {
        return false;
      }
      var index := part.partIndex - 1;
      if index < 0 || index >= n {
        BadIndex(indices, n, i);
        return false;
      }
      if seen[index] {
        BadIndex(indices, n, i);
        return false;
      }
      seen[index] := true;
      assert indices[..i + 1] == indices[..i] + [index + 1];
    }
    assert indices[..n] == indices;
    Pigeonhole(indices, n);
    forall k | 0 <= k < n ensures seen[k] {
      AllSeen(indices, n, k + 1);
    }
    return forall k :: 0 <= k < n ==> seen[k];
  }

  lemma AllSeen(s: seq<int>, n: nat, x: int)
    requires IsOneTo(s, n) && 1 <= x <= n
    ensures exists j :: 0 <= j < |s| && s[j] == x
  {
    OneToOnce(n, x);
    assert x in multiset(s);
  }

  // ---- The listing

  datatype PartResult = PartResult(id: nat, format: string, fileSizeBytes: nat, part: int, totalParts: int)

  function OfCodec(rows: seq<Row>, codec: Codec): seq<Row> {
    if rows == [] then []
    else
      var rest := OfCodec(rows[..|rows| - 1], codec);
      if rows[|rows| - 1].part.codec == codec then rest + [rows[|rows| - 1]] else rest
  }

  function InsertPart(sorted: seq<Row>, row: Row): seq<Row> {
    if sorted == [] || sorted[|sorted| - 1].part.partIndex <= row.part.partIndex then sorted + [row]
    else InsertPart(sorted[..|sorted| - 1], row) + [sorted[|sorted| - 1]]
  }

  /** The stable sort by part index. */
  function SortByPart(rows: seq<Row>): seq<Row> {
    if rows == [] then [] else InsertPart(SortByPart(rows[..|rows| - 1]), rows[|rows| - 1])
  }

  function Results(rows: seq<Row>): (r: seq<PartResult>)
    requires forall i :: 0 <= i < |rows| ==> rows[i].part.fileSize >= 0
    ensures |r| == |rows|
    ensures forall i :: 0 <= i < |rows| ==> r[i] == ResultOf(rows[i])
  {
    seq(|rows|, i requires 0 <= i < |rows| => ResultOf(rows[i]))
  }

  function ResultOf(row: Row): PartResult
    requires row.part.fileSize >= 0
  {
    PartResult(row.id, AsStr(row.part.codec), row.part.fileSize, row.part.partIndex, row.part.totalParts)
  }

  /** One codec's parts in order: none unless they are complete and every size is known. */
  function CodecListing(rows: seq<Row>, codec: Codec): seq<PartResult> {
    var parts := OfCodec(rows, codec);
    if !Complete(parts) then []
    else
      var sorted := SortByPart(parts);
      if forall i :: 0 <= i < |sorted| ==> sorted[i].part.fileSize >= 0 then Results(sorted) else []
  }

  /** `complete_zip_parts`. */
  function CompleteZipParts(rows: seq<Row>): seq<PartResult> {
    CodecListing(rows, Alac) + CodecListing(rows, Aac) + CodecListing(rows, Ec3)
  }

  ghost predicate Ascending(rows: seq<Row>) {
    forall i, j :: 0 <= i < j < |rows| ==> rows[i].part.partIndex <= rows[j].part.partIndex
  }

  lemma {:induction false} InsertPartKeeps(sorted: seq<Row>, row: Row)
    ensures multiset(InsertPart(sorted, row)) == multiset(sorted) + multiset{row}
  {
    if sorted != [] && sorted[|sorted| - 1].part.partIndex > row.part.partIndex {
      var init := sorted[..|sorted| - 1];
      assert sorted == init + [sorted[|sorted| - 1]];
      InsertPartKeeps(init, row);
    }
  }

  lemma {:induction false} InsertPartSorts(sorted: seq<Row>, row: Row)
    requires Ascending(sorted)
    ensures Ascending(InsertPart(sorted, row))
  {
    if sorted != [] && sorted[|sorted| - 1].part.partIndex > row.part.partIndex {
      var init, last := sorted[..|sorted| - 1], sorted[|sorted| - 1];
      InsertPartSorts(init, row);
      InsertPartKeeps(init, row);
      LastIsGreatest(init, row, last, InsertPart(init, row));
    }
  }

  lemma LastIsGreatest(init: seq<Row>, row: Row, last: Row, r: seq<Row>)
    requires multiset(r) == multiset(init) + multiset{row} && Ascending(init + [last]) && Ascending(r)
    requires row.part.partIndex <= last.part.partIndex
    ensures Ascending(r + [last])
  {
    forall i | 0 <= i < |r| ensures r[i].part.partIndex <= last.part.partIndex {
      assert r[i] in multiset(init) + multiset{row};
      if r[i] in init {
        var j :| 0 <= j < |init| && init[j] == r[i];
        assert (init + [last])[j] == r[i] && (init + [last])[|init|] == last;
      }
    }
  }

  lemma {:induction false} SortByPartSorts(rows: seq<Row>)
    ensures Ascending(SortByPart(rows))
    ensures multiset(SortByPart(rows)) == multiset(rows)
  {
    if rows != [] {
      var init, last := rows[..|rows| - 1], rows[|rows| - 1];
      assert rows == init + [last];
      SortByPartSorts(init);
      InsertPartSorts(SortByPart(init), last);
      InsertPartKeeps(SortByPart(init), last);
    }
  }

  lemma SortedCount(a: seq<Row>)
    ensures |SortByPart(a)| == |a|
  {
    SortByPartSorts(a);
    assert |multiset(SortByPart(a))| == |multiset(a)|;
  }

  lemma {:induction false} RisingFrom(s: seq<int>, k: nat)
    requires k < |s| && s[0] >= 1 && forall i, j :: 0 <= i < j < |s| ==> s[i] < s[j]
    ensures s[k] >= k + 1
  {
    if k > 0 {
      RisingFrom(s, k - 1);
    }
  }

  lemma {:induction false} RisingTo(s: seq<int>, k: nat)
    requires k < |s| && s[|s| - 1] <= |s| && forall i, j :: 0 <= i < j < |s| ==> s[i] < s[j]
    ensures s[k] <= k + 1
    decreases |s| - k
  {
    if k < |s| - 1 {
      RisingTo(s, k + 1);
    }
  }

  lemma SortedPermutation(s: seq<int>, k: nat)
    requires (forall i, j :: 0 <= i < j < |s| ==> s[i] <= s[j]) && IsOneTo(s, |s|) && k < |s|
    ensures s[k] == k + 1
  {
    forall i, j | 0 <= i < j < |s| ensures s[i] < s[j] {
      PermutationBounds(s, |s|, i);
    }
    PermutationBounds(s, |s|, 0);
    PermutationBounds(s, |s|, |s| - 1);
    RisingFrom(s, k);
    RisingTo(s, k);
  }

  lemma RemoveLast<T>(a: seq<T>, b: seq<T>) returns (k: nat)
    requires a != [] && multiset(a) == multiset(b)
    ensures k < |b| && b[k] == a[|a| - 1] && multiset(a[..|a| - 1]) == multiset(Without(b, k))
  {
    var n := |a| - 1;
    assert a == a[..n] + [a[n]];
    assert a[n] in multiset(b);
    k :| 0 <= k < |b| && b[k] == a[n];
    MultisetWithout(b, k);
    CancelOne(multiset(a[..n]), multiset(Without(b, k)), a[n]);
  }

  lemma CancelOne<T>(m: multiset<T>, n: multiset<T>, x: T)
    requires m + multiset{x} == n + multiset{x}
    ensures m == n
  {
    assert m == m + multiset{x} - multiset{x};
  }

  lemma IndicesWithout(rows: seq<Row>, k: nat)
    requires k < |rows|
    ensures multiset(Indices(rows)) == multiset(Indices(Without(rows, k))) + multiset{rows[k].part.partIndex}
  {
    MultisetWithout(Indices(rows), k);
    assert Indices(Without(rows, k)) == Without(Indices(rows), k);
  }

  lemma {:induction false} SameIndices(a: seq<Row>, b: seq<Row>)
    requires multiset(a) == multiset(b)
    ensures |a| == |b| && multiset(Indices(a)) == multiset(Indices(b))
    decreases |a|
  {
    SameCount(a, b);
    if a != [] {
      var n := |a| - 1;
      var k := RemoveLast(a, b);
      IndicesWithout(a, n);
      assert Without(a, n) == a[..n];
      SameIndices(a[..n], Without(b, k));
      IndicesWithout(b, k);
    }
  }

  lemma SameCount<T>(a: seq<T>, b: seq<T>)
    requires multiset(a) == multiset(b)
    ensures |a| == |b|
  {
    assert |multiset(a)| == |multiset(b)|;
  }

  lemma SortedIndices(parts: seq<Row>, k: nat)
    requires Complete(parts) && k < |SortByPart(parts)|
    ensures SortByPart(parts)[k].part.partIndex == k + 1
  {
    SortByPartSorts(parts);
    var sorted := SortByPart(parts);
    SameIndices(parts, sorted);
    SortedPermutation(Indices(sorted), k);
  }

  /** The `k`-th part listed is the one row whose index is `k + 1`. */
  lemma SortedPart(parts: seq<Row>, k: nat, row: Row)
    requires Complete(parts) && k < |parts| && row in parts && row.part.partIndex == k + 1
    ensures |SortByPart(parts)| == |parts| && SortByPart(parts)[k] == row
  {
    SortedCount(parts);
    SortByPartSorts(parts);
    var sorted := SortByPart(parts);
    assert row in multiset(sorted);
    var i :| 0 <= i < |sorted| && sorted[i] == row;
    SortedIndices(parts, i);
  }

  // ---- Order does not matter

  /** Whether an archive is complete does not depend on the order of its rows. */
  lemma CompleteIgnoresOrder(a: seq<Row>, b: seq<Row>)
    requires multiset(a) == multiset(b) && Complete(a)
    ensures Complete(b)
  {
    SameIndices(a, b);
    forall i | 0 <= i < |b| ensures b[i].part.totalParts == |a| && b[i].part.generation == a[0].part.generation {
      assert b[i] in multiset(a);
    }
  }

  lemma {:induction false} CodecOf(rows: seq<Row>, codec: Codec, x: Row)
    ensures multiset(OfCodec(rows, codec))[x] == if x.part.codec == codec then multiset(rows)[x] else 0
  {
    if rows != [] {
      CodecOf(rows[..|rows| - 1], codec, x);
      assert rows == rows[..|rows| - 1] + [rows[|rows| - 1]];
    }
  }

  lemma SortIgnoresOrder(a: seq<Row>, b: seq<Row>)
    requires multiset(a) == multiset(b) && Complete(a)
    ensures SortByPart(a) == SortByPart(b)
  {
    CompleteIgnoresOrder(a, b);
    SameIndices(a, b);
    var n := |a|;
    forall k: nat | k < n ensures |SortByPart(a)| == |SortByPart(b)| == n && SortByPart(a)[k] == SortByPart(b)[k] {
      AllSeen(Indices(a), n, k + 1);
      var i :| 0 <= i < n && Indices(a)[i] == k + 1;
      assert a[i] in multiset(b);
      SortedPart(a, k, a[i]);
      SortedPart(b, k, a[i]);
    }
    assert |SortByPart(a)| == n by { SortedCount(a); }
    assert |SortByPart(b)| == n by { SortedCount(b); }
  }

  /** The listing of an album is the same for its rows in any order. */
  lemma ListingIgnoresOrder(a: seq<Row>, b: seq<Row>)
    requires multiset(a) == multiset(b)
    ensures CompleteZipParts(a) == CompleteZipParts(b)
  {
    forall codec: Codec ensures CodecListing(a, codec) == CodecListing(b, codec) {
      var p, q := OfCodec(a, codec), OfCodec(b, codec);
      forall x ensures multiset(p)[x] == multiset(q)[x] {
        CodecOf(a, codec, x);
        CodecOf(b, codec, x);
      }
      assert multiset(p) == multiset(q);
      if Complete(p) {
        CompleteIgnoresOrder(p, q);
        SortIgnoresOrder(p, q);
      } else if Complete(q) {
        CompleteIgnoresOrder(q, p);
      }
    }
  }

  // ---- From plan to listing

  /** Uploads of the parts of a plan, all of one generation. */
  ghost predicate UploadsOf(uploads: seq<Upload>, plan: seq<ZipPlan.ZipPartPlan>, generation: string) {
    && |uploads| == |plan|
    && forall k :: 0 <= k < |plan| ==>
         && uploads[k].partIndex == plan[k].partIndex && uploads[k].totalParts == plan[k].totalParts
         && uploads[k].generation == generation
  }

  lemma {:induction false} InsertedOfCodec(nextId: nat, uploads: seq<Upload>, albumId: string, codec: Codec)
    requires forall i :: 0 <= i < |uploads| ==> WellAddressed(uploads[i], albumId, codec)
    ensures OfCodec(Inserted(nextId, uploads), codec) == Inserted(nextId, uploads)
  {
    if uploads != [] {
      InsertedOfCodec(nextId, uploads[..|uploads| - 1], albumId, codec);
      var all := Inserted(nextId, uploads);
      assert all[..|all| - 1] == Inserted(nextId, uploads[..|uploads| - 1]);
    }
  }

  lemma {:induction false} OfCodecOfFound(rows: seq<Row>, albumId: string, codec: Codec)
    ensures OfCodec(Found(rows, albumId, None), codec) == OfCodec(Members(rows, albumId, codec), codec)
  {
    if rows != [] {
      var init, last := rows[..|rows| - 1], rows[|rows| - 1];
      OfCodecOfFound(init, albumId, codec);
      OfCodecAppend(Found(init, albumId, None), last, codec);
      OfCodecAppend(Members(init, albumId, codec), last, codec);
    }
  }

  lemma OfCodecAppend(rows: seq<Row>, last: Row, codec: Codec)
    ensures OfCodec(rows + [last], codec) == OfCodec(rows, codec) + if last.part.codec == codec then [last] else []
  {
    assert (rows + [last])[..|rows|] == rows;
  }

  lemma NumberedIsComplete(nextId: nat, uploads: seq<Upload>, generation: string)
    requires uploads != []
    requires forall k :: 0 <= k < |uploads| ==>
        uploads[k].partIndex == k + 1 && uploads[k].totalParts == |uploads| && uploads[k].generation == generation
    ensures Complete(Inserted(nextId, uploads))
  {
    assert Indices(Inserted(nextId, uploads)) == OneTo(|uploads|);
  }

  /** Once every part of a plan is committed under one hash, the lookup lists exactly those parts in order. */
  lemma PlannedAlbumIsListed(plan: seq<ZipPlan.ZipPartPlan>, artist: string, album: string, date: string, tag: string,
                             rows: seq<Row>, nextId: nat, albumId: string, codec: Codec, expected: Expectation,
                             uploads: seq<Upload>, generation: string)
    requires plan != [] && ZipPlan.Numbered(plan, artist, album, date, tag)
    requires UploadsOf(uploads, plan, generation) && Commits(rows, albumId, codec, expected, uploads)
    ensures var after := After(rows, nextId, albumId, codec, expected, uploads);
            var listing := CodecListing(Found(after, albumId, None), codec);
            && |listing| == |plan|
            && forall k :: 0 <= k < |plan| ==>
                 listing[k] == PartResult(nextId + k, AsStr(codec), uploads[k].fileSize, plan[k].partIndex, |plan|)
  {
    hide CodecListing, Found, After, Inserted, Members;
    forall k | 0 <= k < |plan| ensures plan[k].partIndex == k + 1 && plan[k].totalParts == |plan| {
      assert ZipPlan.IsPart(plan[k], k + 1, |plan|, artist, album, date, tag);
    }
    CommittedParts(rows, nextId, albumId, codec, expected, uploads);
    forall k | 0 <= k < |uploads| ensures uploads[k].codec == codec && uploads[k].fileSize >= 0 {
      assert WellAddressed(uploads[k], albumId, codec) && Checked(uploads[k]);
    }
    var after := After(rows, nextId, albumId, codec, expected, uploads);
    PlanListed(Found(after, albumId, None), nextId, codec, plan, uploads, generation);
  }

  lemma PlanListed(rows: seq<Row>, nextId: nat, codec: Codec, plan: seq<ZipPlan.ZipPartPlan>, uploads: seq<Upload>,
        generation: string)
    requires plan != [] && UploadsOf(uploads, plan, generation) && OfCodec(rows, codec) == Inserted(nextId, uploads)
    requires forall k :: 0 <= k < |plan| ==> plan[k].partIndex == k + 1 && plan[k].totalParts == |plan|
    requires forall k :: 0 <= k < |uploads| ==> uploads[k].codec == codec && uploads[k].fileSize >= 0
    ensures |CodecListing(rows, codec)| == |plan|
    ensures forall k :: 0 <= k < |plan| ==>
              CodecListing(rows, codec)[k] ==
                PartResult(nextId + k, AsStr(codec), uploads[k].fileSize, plan[k].partIndex, |plan|)
  {
    NumberedListing(rows, nextId, codec, uploads, generation);
  }

  lemma CommittedParts(rows: seq<Row>, nextId: nat, albumId: string, codec: Codec, expected: Expectation,
        uploads: seq<Upload>)
    requires Commits(rows, albumId, codec, expected, uploads)
    ensures OfCodec(Found(After(rows, nextId, albumId, codec, expected, uploads), albumId, None), codec) ==
            Inserted(nextId, uploads)
  {
    ReplaceIsLocal(rows, nextId, albumId, codec, expected, uploads, albumId, codec);
    OfCodecOfFound(After(rows, nextId, albumId, codec, expected, uploads), albumId, codec);
    InsertedOfCodec(nextId, uploads, albumId, codec);
  }

  lemma NumberedListing(rows: seq<Row>, nextId: nat, codec: Codec, uploads: seq<Upload>, generation: string)
    requires uploads != [] && OfCodec(rows, codec) == Inserted(nextId, uploads)
    requires forall k :: 0 <= k < |uploads| ==>
        && uploads[k].partIndex == k + 1 && uploads[k].totalParts == |uploads| && uploads[k].generation == generation
        && uploads[k].fileSize >= 0
    ensures |CodecListing(rows, codec)| == |uploads|
    ensures forall k :: 0 <= k < |uploads| ==> CodecListing(rows, codec)[k] == ResultOf(Row(nextId + k, uploads[k]))
  {
    NumberedIsComplete(nextId, uploads, generation);
    AlreadySorted(Inserted(nextId, uploads));
    ListingOf(rows, codec, Inserted(nextId, uploads));
  }

  lemma ListingOf(rows: seq<Row>, codec: Codec, parts: seq<Row>)
    requires OfCodec(rows, codec) == parts && Complete(parts) && SortByPart(parts) == parts
    requires forall i :: 0 <= i < |parts| ==> parts[i].part.fileSize >= 0
    ensures CodecListing(rows, codec) == Results(parts)
  {
  }

  lemma AlreadySorted(parts: seq<Row>)
    requires Complete(parts) && forall k :: 0 <= k < |parts| ==> parts[k].part.partIndex == k + 1
    ensures SortByPart(parts) == parts
  {
    SortedCount(parts);
    forall k: nat | k < |parts| ensures SortByPart(parts)[k] == parts[k] {
      SortedPart(parts, k, parts[k]);
    }
  }

  // ---- Requested ids

  function AddNew(ids: seq<string>, id: string): seq<string> {
    if id in ids then ids else ids + [id]
  }

  /** The trimmed ids, first occurrences only. */
  function FirstOccurrences(ids: seq<string>): seq<string> {
    if ids == [] then [] else AddNew(FirstOccurrences(ids[..|ids| - 1]), Trim(ids[|ids| - 1]))
  }

  lemma NextOccurrence(all: seq<string>, i: nat, id: string)
    requires i < |all| && id == Trim(all[i])
    ensures FirstOccurrences(all[..i + 1]) == AddNew(FirstOccurrences(all[..i]), id)
  {
    assert all[..i + 1][..i] == all[..i];
  }

  ghost predicate Remembers(seen: set<string>, unique: seq<string>) {
    forall x :: x in seen <==> x in unique
  }

  lemma NoOccurrences(all: seq<string>)
    ensures FirstOccurrences(all[..0]) == [] && Remembers({}, [])
  {
  }

  lemma RememberOne(seen: set<string>, unique: seq<string>, id: string)
    requires Remembers(seen, unique)
    ensures id in seen <==> id in unique
    ensures Remembers(seen + {id}, unique + [id])
  {
  }

  /** `normalize_ids`: refused exactly when some id is blank. */
  method NormalizeIds(ids: Option<seq<string>>) returns (r: Result<seq<string>, ()>)
    ensures r.Err? <==> ids.Some? && exists i :: 0 <= i < |ids.value| && Trim(ids.value[i]) == ""
    ensures r.Ok? ==> r.value == FirstOccurrences(if ids.Some? then ids.value else [])
  {
    hide FirstOccurrences, Trim, Remembers;
    var all := if ids.Some? then ids.value else [];
    NoOccurrences(all);
    var unique: seq<string> := [];
    var seen: set<string> := {};
    for i := 0 to |all|
      invariant forall j :: 0 <= j < i ==> Trim(all[j]) != ""
      invariant unique == FirstOccurrences(all[..i]) && Remembers(seen, unique)
    {
      var id := Trim(all[i]);
      NextOccurrence(all, i, id);
      if id == [] {
        assert Trim(all[i]) == "";
        return Err(());
      }
      RememberOne(seen, unique, id);
      if id !in seen {
        seen := seen + {id};
        unique := unique + [id];
      }
    }
    assert all[..|all|] == all;
    return Ok(unique);
  }

  /** No id is asked for twice, and none is dropped. */
  lemma {:induction false} FirstOccurrencesDiffer(ids: seq<string>)
    ensures var r := FirstOccurrences(ids);
            && (forall i, j :: 0 <= i < j < |r| ==> r[i] != r[j])
            && forall i :: 0 <= i < |ids| ==> Trim(ids[i]) in r
  {
    if ids != [] {
      FirstOccurrencesDiffer(ids[..|ids| - 1]);
      assert FirstOccurrences(ids) == AddNew(FirstOccurrences(ids[..|ids| - 1]), Trim(ids[|ids| - 1]));
      var rest := FirstOccurrences(ids[..|ids| - 1]);
      forall i | 0 <= i < |ids| - 1 ensures Trim(ids[i]) in rest {
        assert ids[..|ids| - 1][i] == ids[i];
      }
    }
  }
}
