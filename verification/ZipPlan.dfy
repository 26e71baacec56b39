/** The album archive planner of crates/engine/src/zip.rs. */
module ZipPlan {
  import opened Prelude
  import opened Text
  import opened ZipNames

  const ENTRY_OVERHEAD_BYTES: nat := 512
  const ARCHIVE_HEADROOM_BYTES: nat := 64 * 1024

  /** A track to archive; `onDisk` is the size its file is found to have, if it can be read. */
  datatype TrackEntry = TrackEntry(archiveFilename: string, fileSize: nat, onDisk: Option<nat>)

  datatype ZipPartPlan = ZipPartPlan(
    partIndex: nat, totalParts: nat, tracks: seq<TrackEntry>, archiveFilename: string)

  datatype ZipError =
    | Empty
    | InvalidLimit
    | InvalidEntryName(name: string)
    | DuplicateEntry(name: string)
    | TrackTooLarge(name: string)
    | Source

  // ---- Splits of the tracks into parts

  function SizeSum(tracks: seq<TrackEntry>): nat {
    if tracks == [] then 0 else SizeSum(tracks[..|tracks| - 1]) + tracks[|tracks| - 1].fileSize
  }

  function Concat<T>(groups: seq<seq<T>>): seq<T> {
    if groups == [] then [] else groups[0] + Concat(groups[1..])
  }

  /** The rule for one part: a lone track fits by itself, several fit together with the cover. */
  ghost predicate GoodGroup(g: seq<TrackEntry>, cover: nat, usable: nat) {
    && g != []
    && (forall t :: t in g ==> t.fileSize <= usable)
    && (|g| >= 2 ==> cover + SizeSum(g) <= usable)
  }

  /** An in-order split of `tracks` obeying the rule. */
  ghost predicate Split(groups: seq<seq<TrackEntry>>, tracks: seq<TrackEntry>, cover: nat, usable: nat) {
    Concat(groups) == tracks && forall g :: g in groups ==> GoodGroup(g, cover, usable)
  }

  ghost predicate FullAt(groups: seq<seq<TrackEntry>>, i: nat, cover: nat, usable: nat)
    requires i + 1 < |groups|
  {
    groups[i + 1] != [] && cover + SizeSum(groups[i]) + groups[i + 1][0].fileSize > usable
  }

  /** No part could also have taken the first track of the next. */
  ghost predicate Tight(groups: seq<seq<TrackEntry>>, cover: nat, usable: nat) {
    forall i: nat :: i + 1 < |groups| ==> FullAt(groups, i, cover, usable)
  }

  lemma {:induction false} ConcatAppend<T>(groups: seq<seq<T>>, g: seq<T>)
    ensures Concat(groups + [g]) == Concat(groups) + g
  {
    if groups == [] {
      assert groups + [g] == [g];
      assert Concat([g]) == g + Concat([]);
    } else {
      assert (groups + [g])[1..] == groups[1..] + [g];
      ConcatAppend(groups[1..], g);
    }
  }

  /** What the loop has built: full parts, and an open one unless no track has come yet. */
  ghost predicate Building(groups: seq<seq<TrackEntry>>, current: seq<TrackEntry>, cover: nat, usable: nat) {
    && (forall g :: g in groups ==> GoodGroup(g, cover, usable))
    && (if current == [] then groups == []
        else GoodGroup(current, cover, usable) && Tight(groups + [current], cover, usable))
  }

  lemma AddToOpen(groups: seq<seq<TrackEntry>>, current: seq<TrackEntry>, track: TrackEntry, cover: nat, usable: nat)
    requires Building(groups, current, cover, usable) && track.fileSize <= usable
    requires current == [] || cover + SizeSum(current) + track.fileSize <= usable
    ensures Building(groups, current + [track], cover, usable)
    ensures SizeSum(current + [track]) == SizeSum(current) + track.fileSize
  {
    assert (current + [track])[..|current|] == current;
    var before, after := groups + [current], groups + [current + [track]];
    if current != [] {
      forall i: nat | i + 1 < |after| ensures FullAt(after, i, cover, usable) {
        assert FullAt(before, i, cover, usable);
      }
    }
  }

  lemma OpenNext(groups: seq<seq<TrackEntry>>, current: seq<TrackEntry>, track: TrackEntry, cover: nat, usable: nat)
    requires Building(groups, current, cover, usable) && track.fileSize <= usable
    requires current != [] && cover + SizeSum(current) + track.fileSize > usable
    ensures Building(groups + [current], [track], cover, usable)
    ensures SizeSum([track]) == track.fileSize
  {
    assert [track][..0] == [];
    assert SizeSum([]) == 0;
    var before, after := groups + [current], groups + [current] + [[track]];
    forall i: nat | i + 1 < |after| ensures FullAt(after, i, cover, usable) {
      if i + 1 < |before| {
        assert FullAt(before, i, cover, usable);
      }
    }
  }

  ghost predicate AllFit(tracks: seq<TrackEntry>, n: nat, usable: nat)
    requires n <= |tracks|
  {
    forall j :: 0 <= j < n ==> tracks[j].fileSize <= usable
  }

  /** The part the first `n` tracks leave open. */
  function OpenPart(tracks: seq<TrackEntry>, n: nat, cover: nat, usable: nat): seq<TrackEntry>
    requires n <= |tracks|
  {
    if n == 0 then []
    else
      var open, track := OpenPart(tracks, n - 1, cover, usable), tracks[n - 1];
      if open != [] && cover + SizeSum(open) + track.fileSize > usable then [track] else open + [track]
  }

  /** Why the `i`-th track cannot be placed: over the limit, or over 64 bits with the part left open. */
  function Misfit(tracks: seq<TrackEntry>, i: nat, cover: nat, usable: nat): Option<ZipError>
    requires i < |tracks|
  {
    if tracks[i].fileSize > usable then Some(TrackTooLarge(tracks[i].archiveFilename))
    else if cover + SizeSum(OpenPart(tracks, i, cover, usable)) + tracks[i].fileSize > U64_MAX then Some(InvalidLimit)
    else None
  }

  predicate NoMisfit(tracks: seq<TrackEntry>, n: nat, cover: nat, usable: nat)
    requires n <= |tracks|
  {
    forall j :: 0 <= j < n ==> Misfit(tracks, j, cover, usable) == None
  }

  predicate FirstMisfit(tracks: seq<TrackEntry>, i: nat, cover: nat, usable: nat, error: ZipError)
    requires i < |tracks|
  {
    Misfit(tracks, i, cover, usable) == Some(error) && NoMisfit(tracks, i, cover, usable)
  }

  /** What the loop keeps: the first `i` tracks placed, and the size of the open part known. */
  ghost predicate Placed(tracks: seq<TrackEntry>, i: nat, groups: seq<seq<TrackEntry>>, current: seq<TrackEntry>,
                         currentSize: nat, cover: nat, usable: nat)
  {
    && i <= |tracks| && NoMisfit(tracks, i, cover, usable) && current == OpenPart(tracks, i, cover, usable)
    && Concat(groups) + current == tracks[..i]
    && currentSize == cover + SizeSum(current) <= U64_MAX
    && Building(groups, current, cover, usable)
  }

  lemma NothingPlaced(tracks: seq<TrackEntry>, cover: nat, usable: nat)
    requires cover <= U64_MAX
    ensures Placed(tracks, 0, [], [], cover, cover, usable)
  {
  }

  lemma PlaceInOpen(tracks: seq<TrackEntry>, i: nat, groups: seq<seq<TrackEntry>>, current: seq<TrackEntry>,
                    currentSize: nat, cover: nat, usable: nat)
    requires Placed(tracks, i, groups, current, currentSize, cover, usable) && i < |tracks| && cover <= usable
    requires Misfit(tracks, i, cover, usable) == None
    requires current == [] || currentSize + tracks[i].fileSize <= usable
    ensures Placed(tracks, i + 1, groups, current + [tracks[i]], currentSize + tracks[i].fileSize, cover, usable)
  {
    AddToOpen(groups, current, tracks[i], cover, usable);
    assert tracks[..i + 1] == tracks[..i] + [tracks[i]];
    assert Concat(groups) + (current + [tracks[i]]) == Concat(groups) + current + [tracks[i]];
  }

  lemma PlaceInNext(tracks: seq<TrackEntry>, i: nat, groups: seq<seq<TrackEntry>>, current: seq<TrackEntry>,
                    currentSize: nat, cover: nat, usable: nat)
    requires Placed(tracks, i, groups, current, currentSize, cover, usable) && i < |tracks| && cover <= usable
    requires Misfit(tracks, i, cover, usable) == None
    requires current != [] && currentSize + tracks[i].fileSize > usable
    ensures Placed(tracks, i + 1, groups + [current], [tracks[i]], cover + tracks[i].fileSize, cover, usable)
  {
    OpenNext(groups, current, tracks[i], cover, usable);
    ConcatAppend(groups, current);
    assert tracks[..i + 1] == tracks[..i] + [tracks[i]];
  }

  lemma CloseLast(tracks: seq<TrackEntry>, groups: seq<seq<TrackEntry>>, current: seq<TrackEntry>,
                  currentSize: nat, cover: nat, usable: nat)
    requires Placed(tracks, |tracks|, groups, current, currentSize, cover, usable)
    ensures var all := if current == [] then groups else groups + [current];
            Split(all, tracks, cover, usable) && Tight(all, cover, usable)
  {
    assert tracks[..|tracks|] == tracks;
    ConcatAppend(groups, current);
  }

  /**
   The greedy loop. Its result is a tight split, and it fails exactly for the first track that
   is over the limit or, with the part left open, over 64 bits.
   */
  method GroupTracks(tracks: seq<TrackEntry>, cover: nat, usable: nat) returns (r: Result<seq<seq<TrackEntry>>,
        ZipError>)
    requires cover <= usable <= U64_MAX
    ensures r.Ok? ==> Split(r.value, tracks, cover, usable) && Tight(r.value, cover, usable)
    ensures r.Ok? <==> NoMisfit(tracks, |tracks|, cover, usable)
    ensures r.Err? ==> exists i :: 0 <= i < |tracks| && FirstMisfit(tracks, i, cover, usable, r.error)
  {
    hide Building, OpenPart, Concat, SizeSum;
    var groups: seq<seq<TrackEntry>> := [];
    var current: seq<TrackEntry> := [];
    var currentSize: nat := cover;
    NothingPlaced(tracks, cover, usable);
    for i := 0 to |tracks|
      invariant Placed(tracks, i, groups, current, currentSize, cover, usable)
    {
      var track := tracks[i];
      if track.fileSize > usable {
        assert FirstMisfit(tracks, i, cover, usable, TrackTooLarge(track.archiveFilename));
        return Err(TrackTooLarge(track.archiveFilename));
      }
      var next := currentSize + track.fileSize;
      if next > U64_MAX {
        assert FirstMisfit(tracks, i, cover, usable, InvalidLimit);
        return Err(InvalidLimit);
      }
      if current != [] && next > usable {
        PlaceInNext(tracks, i, groups, current, currentSize, cover, usable);
        groups := groups + [current];
        current := [];
        currentSize := cover;
      } else {
        PlaceInOpen(tracks, i, groups, current, currentSize, cover, usable);
      }
      if currentSize + track.fileSize > U64_MAX {
        return Err(InvalidLimit);
      }
      currentSize := currentSize + track.fileSize;
      assert [] + [track] == [track];
      current := current + [track];
    }
    CloseLast(tracks, groups, current, currentSize, cover, usable);
    if current != [] {
      groups := groups + [current];
    }
    return Ok(groups);
  }

  /** While three times the usable size fits in 64 bits, only a track over the limit is a misfit. */
  lemma OnlyLargeMisfit(tracks: seq<TrackEntry>, i: nat, cover: nat, usable: nat)
    requires i < |tracks| && cover <= usable && 3 * usable <= U64_MAX && AllFit(tracks, i, usable)
    ensures Misfit(tracks, i, cover, usable) == None <==> tracks[i].fileSize <= usable
  {
    OpenPartFits(tracks, i, cover, usable);
  }

  lemma {:induction false} OpenPartFits(tracks: seq<TrackEntry>, n: nat, cover: nat, usable: nat)
    requires n <= |tracks| && cover <= usable && AllFit(tracks, n, usable)
    ensures cover + SizeSum(OpenPart(tracks, n, cover, usable)) <= 2 * usable
  {
    if n > 0 {
      OpenPartFits(tracks, n - 1, cover, usable);
      SizeSumAppend(OpenPart(tracks, n - 1, cover, usable), [tracks[n - 1]]);
      SizeSumOne(tracks[n - 1]);
    }
  }

  lemma SizeSumOne(track: TrackEntry)
    ensures SizeSum([track]) == track.fileSize
  {
    assert [track][..0] == [];
  }

  /** The loop can refuse by overflow although a split exists: two tracks that fit but not in one sum. */
  lemma OverflowDespiteSplit(a: TrackEntry, b: TrackEntry, usable: nat)
    requires a.fileSize <= usable <= U64_MAX && b.fileSize <= usable && a.fileSize + b.fileSize > U64_MAX
    ensures Split([[a], [b]], [a, b], 0, usable)
    ensures FirstMisfit([a, b], 1, 0, usable, InvalidLimit)
  {
    hide Split, FirstMisfit;
    TwoParts(a, b, usable);
    TwoOverflow(a, b, usable);
  }

  lemma TwoParts(a: TrackEntry, b: TrackEntry, usable: nat)
    requires a.fileSize <= usable && b.fileSize <= usable
    ensures Split([[a], [b]], [a, b], 0, usable)
  {
    hide SizeSum;
    ConcatAppend([], [a]);
    ConcatAppend([[a]], [b]);
    assert [] + [[a]] == [[a]] && [[a]] + [[b]] == [[a], [b]] && [a] + [b] == [a, b];
  }

  lemma TwoOverflow(a: TrackEntry, b: TrackEntry, usable: nat)
    requires a.fileSize <= usable <= U64_MAX && a.fileSize + b.fileSize > U64_MAX && b.fileSize <= usable
    ensures FirstMisfit([a, b], 1, 0, usable, InvalidLimit)
  {
    hide SizeSum;
    SizeSumOne(a);
    NothingSum();
    var tracks := [a, b];
    assert OpenPart(tracks, 0, 0, usable) == [];
    assert OpenPart(tracks, 1, 0, usable) == [] + [a] == [a];
  }

  lemma NothingSum()
    ensures SizeSum([]) == 0
  {
  }

  // ---- Optimality

  /** `groups` without their first `k` tracks. */
  function DropTracks(groups: seq<seq<TrackEntry>>, k: nat): seq<seq<TrackEntry>>
    requires k <= |Concat(groups)|
  {
    if k == 0 then groups
    else if |groups[0]| <= k then DropTracks(groups[1..], k - |groups[0]|)
    else [groups[0][k..]] + groups[1..]
  }

  lemma {:induction false} SizeSumAppend(a: seq<TrackEntry>, b: seq<TrackEntry>)
    ensures SizeSum(a + b) == SizeSum(a) + SizeSum(b)
    decreases |b|
  {
    if b == [] {
      assert a + b == a;
    } else {
      assert (a + b)[..|a + b| - 1] == a + b[..|b| - 1];
      SizeSumAppend(a, b[..|b| - 1]);
    }
  }

  lemma TailIsGood(g: seq<TrackEntry>, k: nat, cover: nat, usable: nat)
    requires GoodGroup(g, cover, usable) && k < |g|
    ensures GoodGroup(g[k..], cover, usable)
  {
    assert g == g[..k] + g[k..];
    SizeSumAppend(g[..k], g[k..]);
  }

  /** Dropping tracks from the front leaves a split of the rest, in fewer parts once a part is gone. */
  lemma {:induction false} DropSplit(groups: seq<seq<TrackEntry>>, tracks: seq<TrackEntry>, k: nat, cover: nat,
        usable: nat)
    requires Split(groups, tracks, cover, usable) && k <= |tracks|
    ensures Split(DropTracks(groups, k), tracks[k..], cover, usable)
    ensures |DropTracks(groups, k)| <= |groups|
    ensures groups != [] && |groups[0]| <= k ==> |DropTracks(groups, k)| < |groups|
    decreases |groups|
  {
    if groups != [] {
      assert GoodGroup(groups[0], cover, usable);
    }
    if k > 0 {
      var g := groups[0];
      var rest := Concat(groups[1..]);
      assert tracks == g + rest;
      if |g| <= k {
        assert tracks[k..] == rest[k - |g|..];
        DropSplit(groups[1..], rest, k - |g|, cover, usable);
      } else {
        TailIsGood(g, k, cover, usable);
        var dropped := [g[k..]] + groups[1..];
        assert dropped[1..] == groups[1..];
        assert tracks[k..] == g[k..] + rest;
      }
    }
  }

  /** A tight split's first part is at least as long as any split's. */
  lemma FirstPartLongest(a: seq<seq<TrackEntry>>, b: seq<seq<TrackEntry>>, tracks: seq<TrackEntry>, cover: nat,
        usable: nat)
    requires Split(a, tracks, cover, usable) && Tight(a, cover, usable) && Split(b, tracks, cover, usable)
    requires a != [] && b != []
    ensures |b[0]| <= |a[0]|
  {
    if |b[0]| > |a[0]| {
      var n := |a[0]|;
      assert GoodGroup(a[0], cover, usable) && GoodGroup(b[0], cover, usable);
      PrefixOf(a);
      PrefixOf(b);
      assert |Concat(a[1..])| > 0;
      assert FullAt(a, 0, cover, usable);
      assert Concat(a[1..])[0] == a[1][0] by {
        assert a[1..][0] == a[1];
      }
      assert tracks[n] == a[1][0];
      TakesMore(a[0], b[0], a[1][0]);
      assert false;
    }
  }

  /** A part that goes on past another by a track is at least that track larger. */
  lemma TakesMore(short: seq<TrackEntry>, long: seq<TrackEntry>, track: TrackEntry)
    requires |short| < |long| && long[..|short|] == short && long[|short|] == track
    ensures SizeSum(long) >= SizeSum(short) + track.fileSize
  {
    hide SizeSum;
    var rest := long[|short| + 1..];
    assert long == short + [track] + rest;
    SizeSumAppend(short + [track], rest);
    SizeSumAppend(short, [track]);
    SizeSumOne(track);
  }

  lemma PrefixOf<T>(groups: seq<seq<T>>)
    requires groups != []
    ensures var all := Concat(groups);
            |groups[0]| <= |all| && all[..|groups[0]|] == groups[0] && all[|groups[0]|..] == Concat(groups[1..])
  {
  }

  lemma TightTail(a: seq<seq<TrackEntry>>, cover: nat, usable: nat)
    requires a != [] && Tight(a, cover, usable)
    ensures Tight(a[1..], cover, usable)
  {
    forall i: nat | i + 1 < |a[1..]| ensures FullAt(a[1..], i, cover, usable) {
      assert FullAt(a, i + 1, cover, usable);
    }
  }

  /** The greedy plan has as few parts as any in-order split obeying the same rule. */
  lemma {:induction false} TightIsOptimal(a: seq<seq<TrackEntry>>, b: seq<seq<TrackEntry>>, tracks: seq<TrackEntry>,
        cover: nat, usable: nat)
    requires Split(a, tracks, cover, usable) && Tight(a, cover, usable) && Split(b, tracks, cover, usable)
    ensures |a| <= |b|
    decreases |a|
  {
    if a != [] {
      assert GoodGroup(a[0], cover, usable);
      assert b != [];
      FirstPartLongest(a, b, tracks, cover, usable);
      var k := |a[0]|;
      assert tracks == a[0] + Concat(a[1..]);
      assert tracks[k..] == Concat(a[1..]);
      DropSplit(b, tracks, k, cover, usable);
      TightTail(a, cover, usable);
      TightIsOptimal(a[1..], DropTracks(b, k), tracks[k..], cover, usable);
    }
  }

  // ---- The checks on the tracks

  /** What the check loop says of the `i`-th track, given those before it. */
  function TrackError(tracks: seq<TrackEntry>, i: nat): Option<ZipError>
    requires i < |tracks|
  {
    var name := tracks[i].archiveFilename;
    if !ValidEntryName(name) then Some(InvalidEntryName(name))
    else if name == MANIFEST || exists j :: 0 <= j < i && tracks[j].archiveFilename == name then
      Some(DuplicateEntry(name))
    else if tracks[i].onDisk != Some(tracks[i].fileSize) then Some(Source)
    else None
  }

  /** The `i`-th track is the first in error. */
  predicate FirstBadTrack(tracks: seq<TrackEntry>, i: nat, error: ZipError)
    requires i < |tracks|
  {
    TrackError(tracks, i) == Some(error) && forall j :: 0 <= j < i ==> TrackError(tracks, j) == None
  }

  /** Safe and pairwise different names, none of them the manifest's, and sizes as on disk. */
  ghost predicate Sendable(tracks: seq<TrackEntry>) {
    && (forall i :: 0 <= i < |tracks| ==>
          && SafeEntry(tracks[i].archiveFilename) && tracks[i].archiveFilename != "manifest.json"
          && tracks[i].onDisk == Some(tracks[i].fileSize))
    && forall i, j :: 0 <= i < j < |tracks| ==> tracks[i].archiveFilename != tracks[j].archiveFilename
  }

  /** The checks together ask exactly this. */
  lemma NoErrorIsSendable(tracks: seq<TrackEntry>)
    ensures (forall i :: 0 <= i < |tracks| ==> TrackError(tracks, i) == None) <==> Sendable(tracks)
  {
    hide ValidEntryName, SafeEntry;
    forall i | 0 <= i < |tracks|
      ensures ValidEntryName(tracks[i].archiveFilename) <==> SafeEntry(tracks[i].archiveFilename)
    {
      ValidIsSafe(tracks[i].archiveFilename);
    }
    if forall i :: 0 <= i < |tracks| ==> TrackError(tracks, i) == None {
      forall i, j | 0 <= i < j < |tracks| ensures tracks[i].archiveFilename != tracks[j].archiveFilename {
        assert TrackError(tracks, j) == None;
      }
      forall i | 0 <= i < |tracks| ensures
          && SafeEntry(tracks[i].archiveFilename) && tracks[i].archiveFilename != "manifest.json"
          && tracks[i].onDisk == Some(tracks[i].fileSize) {
        assert TrackError(tracks, i) == None;
      }
    }
  }

  /** What is wrong with a track that comes after these, and only that. */
  ghost predicate FaultOf(track: TrackEntry, before: seq<TrackEntry>, error: ZipError) {
    var name := track.archiveFilename;
    var taken := name == "manifest.json" || exists t :: t in before && t.archiveFilename == name;
    match error
    case InvalidEntryName(n) => n == name && !SafeEntry(name)
    case DuplicateEntry(n) => n == name && SafeEntry(name) && taken
    case Source => SafeEntry(name) && !taken && track.onDisk != Some(track.fileSize)
    case _ => false
  }

  lemma ErrorIsFault(tracks: seq<TrackEntry>, i: nat, error: ZipError)
    requires i < |tracks|
    ensures TrackError(tracks, i) == Some(error) <==> FaultOf(tracks[i], tracks[..i], error)
  {
    hide ValidEntryName, SafeEntry;
    var name := tracks[i].archiveFilename;
    ValidIsSafe(name);
    if t :| t in tracks[..i] && t.archiveFilename == name {
      var j :| 0 <= j < i && tracks[..i][j] == t;
      assert tracks[j].archiveFilename == name;
    }
    if j :| 0 <= j < i && tracks[j].archiveFilename == name {
      assert tracks[..i][j] == tracks[j] && tracks[j] in tracks[..i];
    }
  }

  /** The first fault is that of a track that follows sendable ones. */
  lemma FirstBadIsFault(tracks: seq<TrackEntry>, i: nat, error: ZipError)
    requires i < |tracks|
    ensures FirstBadTrack(tracks, i, error) <==> Sendable(tracks[..i]) && FaultOf(tracks[i], tracks[..i], error)
  {
    hide Sendable, FaultOf, ValidEntryName;
    ErrorIsFault(tracks, i, error);
    NoErrorIsSendable(tracks[..i]);
    forall j | 0 <= j < i ensures TrackError(tracks[..i], j) == TrackError(tracks, j) {
      SameError(tracks, i, j);
    }
  }

  lemma SameError(tracks: seq<TrackEntry>, n: nat, j: nat)
    requires j < n <= |tracks|
    ensures TrackError(tracks[..n], j) == TrackError(tracks, j)
  {
    hide ValidEntryName;
    assert forall k :: 0 <= k <= j ==> tracks[..n][k] == tracks[k];
  }

  /** The check loop: the first track in error decides, and there is none exactly when it passes. */
  method CheckTracks(tracks: seq<TrackEntry>) returns (error: Option<ZipError>)
    ensures error == None <==> Sendable(tracks)
    ensures error.Some? ==>
              exists i :: 0 <= i < |tracks| && Sendable(tracks[..i]) && FaultOf(tracks[i], tracks[..i], error.value)
    ensures error == None ==> forall i :: 0 <= i < |tracks| ==> TrackError(tracks, i) == None
    ensures error.Some? ==> exists i :: 0 <= i < |tracks| && FirstBadTrack(tracks, i, error.value)
  {
    hide Sendable, FaultOf, ValidEntryName;
    NoErrorIsSendable(tracks);
    var names := {MANIFEST};
    for i := 0 to |tracks|
      invariant forall j :: 0 <= j < i ==> TrackError(tracks, j) == None
      invariant forall x :: x in names <==> x == MANIFEST || exists j :: 0 <= j < i && tracks[j].archiveFilename == x
    {
      var name := tracks[i].archiveFilename;
      if !ValidEntryName(name) {
        FirstBadIsFault(tracks, i, TrackError(tracks, i).value);
        assert FirstBadTrack(tracks, i, TrackError(tracks, i).value);
        return TrackError(tracks, i);
      }
      if name in names {
        FirstBadIsFault(tracks, i, TrackError(tracks, i).value);
        assert FirstBadTrack(tracks, i, TrackError(tracks, i).value);
        return TrackError(tracks, i);
      }
      names := names + {name};
      if tracks[i].onDisk != Some(tracks[i].fileSize) {
        FirstBadIsFault(tracks, i, TrackError(tracks, i).value);
        assert FirstBadTrack(tracks, i, TrackError(tracks, i).value);
        return TrackError(tracks, i);
      }
    }
    return None;
  }

  /** Tracks whose entry names carry different numeric ids. */
  ghost predicate NamedById(tracks: seq<TrackEntry>, ids: seq<string>) {
    && |ids| == |tracks|
    && (forall i, j :: 0 <= i < j < |ids| ==> ids[i] != ids[j])
    && (forall i :: 0 <= i < |ids| ==> NamedFor(tracks[i].archiveFilename, ids[i]))
  }

  ghost predicate NamedFor(name: string, id: string) {
    exists number, title, artist, codec :: EntryId(id, codec) && name == EntryName(number, title, artist, id, codec)
  }

  /** For such tracks only a size that changed on disk can stop the checks. */
  lemma NumericIdsPassChecks(tracks: seq<TrackEntry>, ids: seq<string>, i: nat)
    requires NamedById(tracks, ids) && i < |tracks|
    ensures TrackError(tracks, i) == if tracks[i].onDisk == Some(tracks[i].fileSize) then None else Some(Source)
  {
    assert NamedFor(tracks[i].archiveFilename, ids[i]);
    var number, title, artist, codec :|
      EntryId(ids[i], codec) && tracks[i].archiveFilename == EntryName(number, title, artist, ids[i], codec);
    EntryNameIsValid(number, title, artist, ids[i], codec);
    forall j | 0 <= j < i ensures tracks[j].archiveFilename != tracks[i].archiveFilename {
      assert NamedFor(tracks[j].archiveFilename, ids[j]);
      var m, title2, artist2, codec2 :|
        EntryId(ids[j], codec2) && tracks[j].archiveFilename == EntryName(m, title2, artist2, ids[j], codec2);
      EntryNamesDiffer(number, title, artist, ids[i], codec, m, title2, artist2, ids[j], codec2);
    }
  }

  // ---- The plan

  /** A cover file, with its size if it can be read. */
  datatype Cover = NoCover | Cover(onDisk: Option<nat>)

  function CoverSize(cover: Cover): nat {
    if cover.Cover? && cover.onDisk.Some? then cover.onDisk.value else 0
  }

  function Overhead(tracks: seq<TrackEntry>, cover: Cover): nat {
    (|tracks| + (if cover.Cover? then 1 else 0) + 1) * ENTRY_OVERHEAD_BYTES + ARCHIVE_HEADROOM_BYTES
  }

  function Usable(tracks: seq<TrackEntry>, cover: Cover, maxPartBytes: nat): nat {
    if maxPartBytes <= Overhead(tracks, cover) then 0 else maxPartBytes - Overhead(tracks, cover)
  }

  /** What the planner asks of its input. */
  ghost predicate Plannable(tracks: seq<TrackEntry>, cover: Cover, maxPartBytes: nat) {
    && tracks != []
    && (forall i :: 0 <= i < |tracks| ==> TrackError(tracks, i) == None)
    && (cover.Cover? ==> cover.onDisk.Some?)
    && Overhead(tracks, cover) < maxPartBytes && CoverSize(cover) <= Usable(tracks, cover, maxPartBytes)
    && NoMisfit(tracks, |tracks|, CoverSize(cover), Usable(tracks, cover, maxPartBytes))
  }

  function GroupsOf(parts: seq<ZipPartPlan>): (groups: seq<seq<TrackEntry>>)
    ensures |groups| == |parts| && forall k :: 0 <= k < |parts| ==> groups[k] == parts[k].tracks
  {
    if parts == [] then [] else GroupsOf(parts[..|parts| - 1]) + [parts[|parts| - 1].tracks]
  }

  /** Parts numbered from one, each with the shared total and its own name. */
  ghost predicate Numbered(parts: seq<ZipPartPlan>, artist: string, album: string, date: string, codec: string) {
    forall k :: 0 <= k < |parts| ==> IsPart(parts[k], k + 1, |parts|, artist, album, date, codec)
  }

  predicate IsPart(part: ZipPartPlan, index: nat, total: nat, artist: string, album: string, date: string,
        codec: string) {
    && part.partIndex == index && part.totalParts == total
    && part.archiveFilename == PartName(artist, album, date, codec, index, total)
  }

  method NumberPart(artist: string, album: string, date: string, codec: string, group: seq<TrackEntry>, index: nat,
        total: nat)
    returns (part: ZipPartPlan)
    ensures IsPart(part, index, total, artist, album, date, codec) && part.tracks == group
  {
    return ZipPartPlan(index, total, group, PartName(artist, album, date, codec, index, total));
  }

  method NumberParts(artist: string, album: string, date: string, codec: string, groups: seq<seq<TrackEntry>>)
    returns (parts: seq<ZipPartPlan>)
    ensures Numbered(parts, artist, album, date, codec) && GroupsOf(parts) == groups
  {
    hide PartName, IsPart;
    parts := [];
    for index := 0 to |groups|
      invariant |parts| == index
      invariant forall k :: 0 <= k < index ==> parts[k].tracks == groups[k]
      invariant forall k :: 0 <= k < index ==> IsPart(parts[k], k + 1, |groups|, artist, album, date, codec)
    {
      var part := NumberPart(artist, album, date, codec, groups[index], index + 1, |groups|);
      parts := parts + [part];
    }
  }

  /** Why a plan is refused: the first check that fails, in the order they are made. */
  ghost predicate Refused(tracks: seq<TrackEntry>, cover: Cover, maxPartBytes: nat, error: ZipError) {
    if tracks == [] then error == Empty
    else if maxPartBytes == 0 then error == InvalidLimit
    else if exists i :: 0 <= i < |tracks| && TrackError(tracks, i).Some? then
      exists i :: 0 <= i < |tracks| && FirstBadTrack(tracks, i, error)
    else if cover.Cover? && cover.onDisk.None? then error == Source
    else if maxPartBytes <= Overhead(tracks, cover) || CoverSize(cover) > Usable(tracks, cover, maxPartBytes) then
      error == InvalidLimit
    else
      var usable := Usable(tracks, cover, maxPartBytes);
      exists i :: 0 <= i < |tracks| && FirstMisfit(tracks, i, CoverSize(cover), usable, error)
  }

  /** What an archive adds to the files in it: 512 bytes for each track, the cover and the manifest, and 65536 more. */
  function ArchiveAdds(count: nat, cover: Cover): nat {
    512 * count + (if cover.Cover? then 512 else 0) + 512 + 65536
  }

  /**
   The part fits its limit with everything an archive adds; the cover's own bytes count once the
   part has two tracks.
   */
  ghost predicate WithinLimit(part: seq<TrackEntry>, count: nat, cover: Cover, maxPartBytes: nat) {
    var added := ArchiveAdds(count, cover);
    var coverBytes := if cover.Cover? && cover.onDisk.Some? then cover.onDisk.value else 0;
    && part != []
    && (forall t :: t in part ==> t.fileSize + added <= maxPartBytes)
    && (|part| >= 2 ==> coverBytes + SizeSum(part) + added <= maxPartBytes)
  }

  ghost predicate LimitSplit(groups: seq<seq<TrackEntry>>, tracks: seq<TrackEntry>, cover: Cover, maxPartBytes: nat) {
    Concat(groups) == tracks && forall g :: g in groups ==> WithinLimit(g, |tracks|, cover, maxPartBytes)
  }

  /** The rule for parts, with what the archive adds taken off the limit, is this rule. */
  lemma GoodIsWithin(g: seq<TrackEntry>, tracks: seq<TrackEntry>, cover: Cover, maxPartBytes: nat)
    requires Overhead(tracks, cover) < maxPartBytes
    ensures GoodGroup(g, CoverSize(cover), Usable(tracks, cover, maxPartBytes))
       <==> WithinLimit(g, |tracks|, cover, maxPartBytes)
  {
    hide SizeSum;
  }

  lemma SplitIsLimitSplit(groups: seq<seq<TrackEntry>>, tracks: seq<TrackEntry>, cover: Cover, maxPartBytes: nat)
    requires Overhead(tracks, cover) < maxPartBytes
    ensures Split(groups, tracks, CoverSize(cover), Usable(tracks, cover, maxPartBytes))
       <==> LimitSplit(groups, tracks, cover, maxPartBytes)
  {
    hide GoodGroup, WithinLimit, Concat;
    forall g | g in groups ensures GoodGroup(g, CoverSize(cover), Usable(tracks, cover, maxPartBytes))
                              <==> WithinLimit(g, |tracks|, cover, maxPartBytes) {
      GoodIsWithin(g, tracks, cover, maxPartBytes);
    }
  }

  lemma PlanIsShortest(groups: seq<seq<TrackEntry>>, tracks: seq<TrackEntry>, cover: Cover, maxPartBytes: nat)
    requires Overhead(tracks, cover) < maxPartBytes && tracks != []
    requires Split(groups, tracks, CoverSize(cover), Usable(tracks, cover, maxPartBytes))
    requires Tight(groups, CoverSize(cover), Usable(tracks, cover, maxPartBytes))
    ensures groups != [] && LimitSplit(groups, tracks, cover, maxPartBytes)
    ensures forall b :: LimitSplit(b, tracks, cover, maxPartBytes) ==> |groups| <= |b|
  {
    hide Tight, LimitSplit;
    SplitIsLimitSplit(groups, tracks, cover, maxPartBytes);
    forall b | LimitSplit(b, tracks, cover, maxPartBytes) ensures |groups| <= |b| {
      SplitIsLimitSplit(b, tracks, cover, maxPartBytes);
      TightIsOptimal(groups, b, tracks, CoverSize(cover), Usable(tracks, cover, maxPartBytes));
    }
  }

  /** What the source asks, short of overflow: each track and the cover fit a part of their own. */
  ghost predicate Acceptable(tracks: seq<TrackEntry>, cover: Cover, maxPartBytes: nat) {
    var added := ArchiveAdds(|tracks|, cover);
    && tracks != [] && Sendable(tracks) && (cover.Cover? ==> cover.onDisk.Some?)
    && added < maxPartBytes && (cover.Cover? ==> cover.onDisk.value + added <= maxPartBytes)
    && forall i :: 0 <= i < |tracks| ==> tracks[i].fileSize + added <= maxPartBytes
  }

  /** Below a third of the 64-bit range the planner refuses nothing else. */
  lemma PlannableIsAcceptable(tracks: seq<TrackEntry>, cover: Cover, maxPartBytes: nat)
    requires 3 * maxPartBytes <= U64_MAX
    ensures Plannable(tracks, cover, maxPartBytes) <==> Acceptable(tracks, cover, maxPartBytes)
  {
    hide Sendable, TrackError, Misfit;
    NoErrorIsSendable(tracks);
    var coverSize, usable := CoverSize(cover), Usable(tracks, cover, maxPartBytes);
    if coverSize <= usable {
      if forall i :: 0 <= i < |tracks| ==> tracks[i].fileSize <= usable {
        forall i | 0 <= i < |tracks| ensures Misfit(tracks, i, coverSize, usable) == None {
          OnlyLargeMisfit(tracks, i, coverSize, usable);
        }
      }
      forall i | 0 <= i < |tracks| && Misfit(tracks, i, coverSize, usable) == None
        ensures tracks[i].fileSize <= usable
      {
        NoMisfitIsSmall(tracks, i, coverSize, usable);
      }
    }
  }

  lemma NoMisfitIsSmall(tracks: seq<TrackEntry>, i: nat, cover: nat, usable: nat)
    requires i < |tracks| && Misfit(tracks, i, cover, usable) == None
    ensures tracks[i].fileSize <= usable
  {
  }

  /** Why a plan is refused below a third of the range, said of the input itself. */
  ghost predicate RefusedFor(tracks: seq<TrackEntry>, cover: Cover, maxPartBytes: nat, error: ZipError) {
    var added := ArchiveAdds(|tracks|, cover);
    var coverBytes := if cover.Cover? && cover.onDisk.Some? then cover.onDisk.value else 0;
    if tracks == [] then error == Empty
    else if maxPartBytes == 0 then error == InvalidLimit
    else if !Sendable(tracks) then
      exists i :: 0 <= i < |tracks| && Sendable(tracks[..i]) && FaultOf(tracks[i], tracks[..i], error)
    else if cover.Cover? && cover.onDisk.None? then error == Source
    else if maxPartBytes <= added || coverBytes + added > maxPartBytes then error == InvalidLimit
    else exists i :: 0 <= i < |tracks| && FirstTooLarge(tracks, i, added, maxPartBytes, error)
  }

  /** The first track over the limit is named. */
  predicate FirstTooLarge(tracks: seq<TrackEntry>, i: nat, added: nat, maxPartBytes: nat, error: ZipError)
    requires i < |tracks|
  {
    && tracks[i].fileSize + added > maxPartBytes
    && (forall j :: 0 <= j < i ==> tracks[j].fileSize + added <= maxPartBytes)
    && error == TrackTooLarge(tracks[i].archiveFilename)
  }

  lemma MisfitIsTooLarge(tracks: seq<TrackEntry>, i: nat, cover: nat, added: nat, usable: nat, error: ZipError)
    requires i < |tracks| && cover <= usable && 3 * usable <= U64_MAX
    requires FirstMisfit(tracks, i, cover, usable, error)
    ensures FirstTooLarge(tracks, i, added, added + usable, error)
  {
    hide OpenPart, SizeSum;
    forall j | 0 <= j < i ensures tracks[j].fileSize <= usable {
      NoMisfitIsSmall(tracks, j, cover, usable);
    }
    OnlyLargeMisfit(tracks, i, cover, usable);
  }

  lemma RefusedIsFor(tracks: seq<TrackEntry>, cover: Cover, maxPartBytes: nat, error: ZipError)
    requires Refused(tracks, cover, maxPartBytes, error) && 3 * maxPartBytes <= U64_MAX
    ensures RefusedFor(tracks, cover, maxPartBytes, error)
  {
    hide Sendable, FaultOf, TrackError, FirstMisfit, FirstTooLarge, FirstBadTrack;
    NoErrorIsSendable(tracks);
    if tracks != [] && maxPartBytes > 0 {
      if !Sendable(tracks) {
        var i :| 0 <= i < |tracks| && FirstBadTrack(tracks, i, error);
        FirstBadIsFault(tracks, i, error);
      } else {
        var usable := Usable(tracks, cover, maxPartBytes);
        var added := ArchiveAdds(|tracks|, cover);
        assert added == Overhead(tracks, cover);
        assert forall i :: 0 <= i < |tracks| ==> !TrackError(tracks, i).Some?;
        if !(cover.Cover? && cover.onDisk.None?) && added < maxPartBytes && CoverSize(cover) <= usable {
          assert added + usable == maxPartBytes;
          var i :| 0 <= i < |tracks| && FirstMisfit(tracks, i, CoverSize(cover), usable, error);
          MisfitIsTooLarge(tracks, i, CoverSize(cover), added, usable, error);
        }
      }
    }
  }

  lemma AllRefusedFor(tracks: seq<TrackEntry>, cover: Cover, maxPartBytes: nat)
    requires 3 * maxPartBytes <= U64_MAX
    ensures forall error :: Refused(tracks, cover, maxPartBytes, error) ==>
            RefusedFor(tracks, cover, maxPartBytes, error)
  {
    hide Refused, RefusedFor;
    forall error | Refused(tracks, cover, maxPartBytes, error) ensures RefusedFor(tracks, cover, maxPartBytes, error) {
      RefusedIsFor(tracks, cover, maxPartBytes, error);
    }
  }

  /**
   `plan_zip_parts_with_codec`: a plan exactly for plannable input, namely an in-order split
   obeying the part rule, with as few parts as any such split, numbered and named.
   */
  method PlanZipParts(artist: string, album: string, date: string, tracks: seq<TrackEntry>, cover: Cover,
                      maxPartBytes: nat, codec: string) returns (r: Result<seq<ZipPartPlan>, ZipError>)
    requires maxPartBytes <= U64_MAX
    ensures r.Ok? <==> Plannable(tracks, cover, maxPartBytes)
    ensures r.Ok? ==>
              && r.value != [] && Numbered(r.value, artist, album, date, codec)
              && LimitSplit(GroupsOf(r.value), tracks, cover, maxPartBytes)
              && forall b :: LimitSplit(b, tracks, cover, maxPartBytes) ==> |r.value| <= |b|
    ensures 3 * maxPartBytes <= U64_MAX ==> (r.Ok? <==> Acceptable(tracks, cover, maxPartBytes))
    ensures r.Err? ==> Refused(tracks, cover, maxPartBytes, r.error)
    ensures r.Err? && 3 * maxPartBytes <= U64_MAX ==> RefusedFor(tracks, cover, maxPartBytes, r.error)
  {
    hide RefusedFor, FaultOf, LimitSplit, Acceptable, Split, Tight, FirstMisfit, NoMisfit, Sendable, TrackError;
    NoErrorIsSendable(tracks);
    if 3 * maxPartBytes <= U64_MAX {
      PlannableIsAcceptable(tracks, cover, maxPartBytes);
      AllRefusedFor(tracks, cover, maxPartBytes);
    }
    if tracks == [] {
      return Err(Empty);
    }
    if maxPartBytes == 0 {
      return Err(InvalidLimit);
    }
    var bad := CheckTracks(tracks);
    if bad.Some? {
      return Err(bad.value);
    }
    if cover.Cover? && cover.onDisk.None? {
      return Err(Source);
    }
    if Overhead(tracks, cover) > U64_MAX {
      return Err(InvalidLimit);
    }
    var usable := Usable(tracks, cover, maxPartBytes);
    if usable == 0 || CoverSize(cover) > usable {
      return Err(InvalidLimit);
    }
    var grouped := GroupTracks(tracks, CoverSize(cover), usable);
    if grouped.Err? {
      return Err(grouped.error);
    }
    var groups := grouped.value;
    var parts := NumberParts(artist, album, date, codec, groups);
    PlanIsShortest(groups, tracks, cover, maxPartBytes);
    return Ok(parts);
  }

  /** The planner refuses two tracks of half the range by overflow, although they pass every check and split. */
  lemma PlannerOverflows() returns (tracks: seq<TrackEntry>, groups: seq<seq<TrackEntry>>)
    ensures forall i :: 0 <= i < |tracks| ==> TrackError(tracks, i) == None
    ensures Split(groups, tracks, CoverSize(NoCover), Usable(tracks, NoCover, U64_MAX))
    ensures !Plannable(tracks, NoCover, U64_MAX) && Refused(tracks, NoCover, U64_MAX, InvalidLimit)
  {
    hide EntryName, EntryId, TrackError, FirstMisfit, Split;
    var half := 0x8000_0000_0000_0000;
    var a := TrackEntry(EntryName(None, "", "", "1", "alac"), half, Some(half));
    var b := TrackEntry(EntryName(None, "", "", "2", "alac"), half, Some(half));
    tracks, groups := [a, b], [[a], [b]];
    OneDigitId("1");
    OneDigitId("2");
    assert NamedFor(a.archiveFilename, "1") && NamedFor(b.archiveFilename, "2");
    forall i | 0 <= i < 2 ensures TrackError(tracks, i) == None {
      NumericIdsPassChecks(tracks, ["1", "2"], i);
    }
    OverflowDespiteSplit(a, b, Usable(tracks, NoCover, U64_MAX));
    MisfitRefuses(tracks, 1, Usable(tracks, NoCover, U64_MAX));
  }

  lemma MisfitRefuses(tracks: seq<TrackEntry>, i: nat, usable: nat)
    requires i < |tracks| && FirstMisfit(tracks, i, 0, usable, InvalidLimit)
    ensures !NoMisfit(tracks, |tracks|, 0, usable)
  {
  }

  lemma OneDigitId(id: string)
    requires |id| == 1 && IsDigit(id[0])
    ensures EntryId(id, "alac")
  {
    AsciiLength(EntrySuffix(id, "m4a"));
  }

  /** No two parts of a plan share a name, and every name fits. */
  lemma PlannedNamesDiffer(parts: seq<ZipPartPlan>, artist: string, album: string, date: string, codec: string,
        i: nat, j: nat)
    requires Numbered(parts, artist, album, date, codec) && i < j < |parts| <= U64_MAX
    ensures parts[i].archiveFilename != parts[j].archiveFilename
    ensures Utf8Len(parts[i].archiveFilename) <= 245 && Utf8Len(parts[j].archiveFilename) <= 245
  {
    hide PartName, Utf8Len;
    var a, b, n := parts[i], parts[j], |parts|;
    assert IsPart(a, i + 1, n, artist, album, date, codec) && IsPart(b, j + 1, n, artist, album, date, codec);
    PartNamesDiffer(artist, album, date, codec, i + 1, j + 1, n);
  }
}
