/** The archive table of crates/db/src/albums.rs, one call as one step. */
module Albums {
  import opened Prelude
  import opened Music

  /** An uploaded archive part, as handed to the table. */
  datatype Upload = Upload(
    albumId: string, codec: Codec, partIndex: int, totalParts: int, messageId: int,
    fileUniqueId: string, fileSize: int, generation: string)

  datatype Row = Row(id: nat, part: Upload)

  datatype Expectation = Empty | Generation(hash: string) | Mixed

  datatype Replacement = Stale | Committed(displaced: seq<int>)

  datatype DbError = RowError | ConstraintViolation

  // ---- Groups

  /** ALAC and AAC share the primary group; Atmos has its own. */
  predicate SameGroup(a: Codec, b: Codec) {
    a.Ec3? == b.Ec3?
  }

  predicate InGroup(row: Row, albumId: string, codec: Codec) {
    row.part.albumId == albumId && SameGroup(row.part.codec, codec)
  }

  function Members(rows: seq<Row>, albumId: string, codec: Codec): seq<Row>
  {
    if rows == [] then []
    else
      var rest := Members(rows[..|rows| - 1], albumId, codec);
      var last := rows[|rows| - 1];
      if InGroup(last, albumId, codec) then rest + [last] else rest
  }

  function Others(rows: seq<Row>, albumId: string, codec: Codec): seq<Row>
  {
    if rows == [] then []
    else
      var rest := Others(rows[..|rows| - 1], albumId, codec);
      var last := rows[|rows| - 1];
      if InGroup(last, albumId, codec) then rest else rest + [last]
  }

  function MessageIds(rows: seq<Row>): (ids: seq<int>)
    ensures |ids| == |rows|
    ensures forall i :: 0 <= i < |rows| ==> ids[i] == rows[i].part.messageId
  {
    if rows == [] then [] else MessageIds(rows[..|rows| - 1]) + [rows[|rows| - 1].part.messageId]
  }

  // ---- Constraints of the table

  predicate Checked(p: Upload) {
    1 <= p.partIndex <= p.totalParts && p.messageId > 0 && p.fileSize > 0
  }

  predicate SameKey(p: Upload, q: Upload) {
    p.albumId == q.albumId && p.codec == q.codec && p.partIndex == q.partIndex
  }

  predicate Clash(p: Upload, q: Upload) {
    SameKey(p, q) || p.fileUniqueId == q.fileUniqueId
  }

  predicate Insertable(rows: seq<Row>, uploads: seq<Upload>) {
    && (forall i :: 0 <= i < |uploads| ==> Checked(uploads[i]))
    && (forall i, j :: 0 <= i < j < |uploads| ==> !Clash(uploads[i], uploads[j]))
    && (forall i, j :: 0 <= i < |uploads| && 0 <= j < |rows| ==> !Clash(uploads[i], rows[j].part))
  }

  function Inserted(nextId: nat, uploads: seq<Upload>): (r: seq<Row>)
    ensures |r| == |uploads|
    ensures forall i :: 0 <= i < |uploads| ==> r[i] == Row(nextId + i, uploads[i])
  {
    if uploads == [] then []
    else Inserted(nextId, uploads[..|uploads| - 1]) + [Row(nextId + |uploads| - 1, uploads[|uploads| - 1])]
  }

  // ---- Replacement as a function of the table

  predicate WellAddressed(p: Upload, albumId: string, codec: Codec) {
    p.albumId == albumId && p.codec == codec && I32_MIN <= p.messageId <= I32_MAX
  }

  predicate Matches(existing: seq<Row>, expected: Expectation) {
    match expected
    case Empty => existing == []
    case Generation(hash) => existing != [] && forall i :: 0 <= i < |existing| ==> existing[i].part.generation == hash
    case Mixed => false
  }

  /** The outcome of a replacement on a given table. */
  function Outcome(rows: seq<Row>, albumId: string, codec: Codec, expected: Expectation, uploads: seq<Upload>)
    : Result<Replacement, DbError>
  {
    if !(forall i :: 0 <= i < |uploads| ==> WellAddressed(uploads[i], albumId, codec)) then Err(RowError)
    else if !Matches(Members(rows, albumId, codec), expected) then Ok(Stale)
    else if !Insertable(Others(rows, albumId, codec), uploads) then Err(ConstraintViolation)
    else Ok(Committed(MessageIds(Members(rows, albumId, codec))))
  }

  predicate Commits(rows: seq<Row>, albumId: string, codec: Codec, expected: Expectation, uploads: seq<Upload>) {
    var r := Outcome(rows, albumId, codec, expected, uploads);
    r.Ok? && r.value.Committed?
  }

  /** The table after a replacement: changed only by a commit. */
  function After(rows: seq<Row>, nextId: nat, albumId: string, codec: Codec, expected: Expectation,
        uploads: seq<Upload>)
    : seq<Row>
  {
    if Commits(rows, albumId, codec, expected, uploads)
    then Others(rows, albumId, codec) + Inserted(nextId, uploads)
    else rows
  }

  // ---- Deletion

  predicate Selected(row: Row, albumId: string, codec: Option<Codec>) {
    row.part.albumId == albumId && (codec.Some? ==> row.part.codec == codec.value)
  }

  function Found(rows: seq<Row>, albumId: string, codec: Option<Codec>): seq<Row>
  {
    if rows == [] then []
    else
      var rest := Found(rows[..|rows| - 1], albumId, codec);
      var last := rows[|rows| - 1];
      if Selected(last, albumId, codec) then rest + [last] else rest
  }

  function Remaining(rows: seq<Row>, albumId: string, codec: Option<Codec>): seq<Row>
  {
    if rows == [] then []
    else
      var rest := Remaining(rows[..|rows| - 1], albumId, codec);
      var last := rows[|rows| - 1];
      if Selected(last, albumId, codec) then rest else rest + [last]
  }

  // ---- The upsert of one part

  /** The place of the row with the key of `part`, past the end when there is none. */
  function KeyAt(rows: seq<Row>, part: Upload): (i: nat)
    ensures i <= |rows|
    ensures i < |rows| ==> SameKey(rows[i].part, part)
    ensures forall j :: 0 <= j < i ==> !SameKey(rows[j].part, part)
  {
    if rows == [] then 0
    else
      var i := KeyAt(rows[..|rows| - 1], part);
      if i < |rows| - 1 || SameKey(rows[|rows| - 1].part, part) then i else |rows|
  }

  /** The upsert is accepted: the checks hold and no other key has the file. */
  predicate Saves(rows: seq<Row>, part: Upload) {
    && Checked(part) && part.messageId <= I32_MAX
    && forall j :: 0 <= j < |rows| && rows[j].part.fileUniqueId == part.fileUniqueId ==> SameKey(rows[j].part, part)
  }

  /** The row an accepted upsert leaves: that of the key, updated in place, or a new one. */
  function SavedRow(rows: seq<Row>, nextId: nat, part: Upload): Row {
    var i := KeyAt(rows, part);
    Row(if i < |rows| then rows[i].id else nextId, part)
  }

  function Saved(rows: seq<Row>, nextId: nat, part: Upload): seq<Row> {
    var i := KeyAt(rows, part);
    if !Saves(rows, part) then rows
    else if i < |rows| then rows[i := SavedRow(rows, nextId, part)]
    else rows + [SavedRow(rows, nextId, part)]
  }

  class AlbumTable {
    var rows: seq<Row>
    var nextId: nat

    constructor ()
      ensures rows == [] && nextId == 1
    {
      rows := [];
      nextId := 1;
    }

    /** `replace_albums`: compare the group with what the caller saw, then swap it. */
    method ReplaceAlbums(albumId: string, codec: Codec, expected: Expectation, uploads: seq<Upload>)
      returns (r: Result<Replacement, DbError>)
      modifies this
      ensures r == Outcome(old(rows), albumId, codec, expected, uploads)
      ensures rows == After(old(rows), old(nextId), albumId, codec, expected, uploads)
      ensures nextId >= old(nextId)
      ensures r.Ok? && r.value.Committed? ==> nextId == old(nextId) + |uploads|
    {
      for i := 0 to |uploads|
        invariant forall j :: 0 <= j < i ==> WellAddressed(uploads[j], albumId, codec)
      {
        if !WellAddressed(uploads[i], albumId, codec) {
          return Err(RowError);
        }
      }
      var before := rows;
      var existing: seq<Row>, kept: seq<Row> := [], [];
      for i := 0 to |rows|
        invariant rows == before
        invariant existing == Members(before[..i], albumId, codec) && kept == Others(before[..i], albumId, codec)
      {
        assert before[..i + 1][..i] == before[..i];
        if InGroup(rows[i], albumId, codec) {
          existing := existing + [rows[i]];
        } else {
          kept := kept + [rows[i]];
        }
      }
      assert before[..|before|] == before;
      if !Matches(existing, expected) {
        return Ok(Stale);
      }
      rows := kept;
      if !Insertable(rows, uploads) {
        rows := before;
        return Err(ConstraintViolation);
      }
      rows := rows + Inserted(nextId, uploads);
      nextId := nextId + |uploads|;
      return Ok(Committed(MessageIds(existing)));
    }

    /** `delete_albums` with nothing between its read and its delete. */
    method DeleteAlbums(albumId: string, codec: Option<Codec>) returns (found: seq<Row>)
      modifies this`rows
      ensures found == Found(old(rows), albumId, codec)
      ensures rows == Remaining(old(rows), albumId, codec)
    {
      var before := rows;
      var kept: seq<Row> := [];
      found := [];
      for i := 0 to |rows|
        invariant rows == before
        invariant found == Found(before[..i], albumId, codec) && kept == Remaining(before[..i], albumId, codec)
        invariant found == [] ==> kept == before[..i]
      {
        assert before[..i + 1][..i] == before[..i];
        if Selected(rows[i], albumId, codec) {
          found := found + [rows[i]];
        } else {
          kept := kept + [rows[i]];
        }
      }
      assert before[..|before|] == before;
      if found == [] {
        return;
      }
      rows := kept;
    }

    /** `save_album`: insert the part, or update the row that has its key. */
    method SaveAlbum(part: Upload) returns (r: Result<Row, DbError>)
      modifies this
      ensures rows == Saved(old(rows), old(nextId), part)
      ensures r.Ok? <==> Saves(old(rows), part)
      ensures r.Ok? ==> r.value == SavedRow(old(rows), old(nextId), part) && r.value in rows
      ensures nextId >= old(nextId)
    {
      if !Saves(rows, part) {
        return Err(ConstraintViolation);
      }
      var i := 0;
      while i < |rows| && !SameKey(rows[i].part, part)
        invariant 0 <= i <= |rows|
        invariant forall j :: 0 <= j < i ==> !SameKey(rows[j].part, part)
      {
        i := i + 1;
      }
      var row := Row(if i < |rows| then rows[i].id else nextId, part);
      rows := if i < |rows| then rows[i := row] else rows + [row];
      nextId := nextId + 1;
      assert rows[i] == row;
      return Ok(row);
    }
  }

  // ---- Invariants of the table

  /** Keys and files are unique and the checks hold. */
  ghost predicate Unique(rows: seq<Row>) {
    && (forall i :: 0 <= i < |rows| ==> Checked(rows[i].part))
    && (forall i, j :: 0 <= i < j < |rows| ==> !Clash(rows[i].part, rows[j].part))
  }

  predicate OneRendition(p: Upload, q: Upload) {
    p.albumId == q.albumId ==> !(p.codec == Alac && q.codec == Aac) && !(p.codec == Aac && q.codec == Alac)
  }

  /** No album has both ALAC and AAC rows. */
  ghost predicate Renditions(rows: seq<Row>) {
    forall i, j :: 0 <= i < |rows| && 0 <= j < |rows| ==> OneRendition(rows[i].part, rows[j].part)
  }

  /** `sub` keeps some of the rows of `rows`, in order. */
  ghost predicate Thinned(sub: seq<Row>, rows: seq<Row>, at: seq<nat>) {
    && |at| == |sub|
    && (forall i :: 0 <= i < |sub| ==> at[i] < |rows| && rows[at[i]] == sub[i])
    && forall i, j :: 0 <= i < j < |at| ==> at[i] < at[j]
  }

  lemma ThinnedLonger(sub: seq<Row>, rows: seq<Row>, at: seq<nat>)
    requires rows != [] && Thinned(sub, rows[..|rows| - 1], at)
    ensures Thinned(sub, rows, at) && Thinned(sub + [rows[|rows| - 1]], rows, at + [|rows| - 1])
  {
  }

  lemma ThinnedNothing()
    ensures Thinned([], [], [])
  {
  }

  lemma {:induction false} OthersThin(rows: seq<Row>, albumId: string, codec: Codec) returns (at: seq<nat>)
    ensures Thinned(Others(rows, albumId, codec), rows, at)
  {
    hide Thinned, InGroup, Selected;
    ThinnedNothing();
    if rows == [] {
      at := [];
    } else {
      var init := rows[..|rows| - 1];
      at := OthersThin(init, albumId, codec);
      ThinnedLonger(Others(init, albumId, codec), rows, at);
      if !InGroup(rows[|rows| - 1], albumId, codec) {
        at := at + [|rows| - 1];
      }
    }
  }

  lemma {:induction false} RemainingThin(rows: seq<Row>, albumId: string, codec: Option<Codec>) returns (at: seq<nat>)
    ensures Thinned(Remaining(rows, albumId, codec), rows, at)
  {
    hide Thinned, InGroup, Selected;
    ThinnedNothing();
    if rows == [] {
      at := [];
    } else {
      var init := rows[..|rows| - 1];
      at := RemainingThin(init, albumId, codec);
      ThinnedLonger(Remaining(init, albumId, codec), rows, at);
      if !Selected(rows[|rows| - 1], albumId, codec) {
        at := at + [|rows| - 1];
      }
    }
  }

  lemma {:induction false} OthersOutside(rows: seq<Row>, albumId: string, codec: Codec)
    ensures forall i :: 0 <= i < |Others(rows, albumId, codec)| ==>
            !InGroup(Others(rows, albumId, codec)[i], albumId, codec)
  {
    if rows != [] {
      OthersOutside(rows[..|rows| - 1], albumId, codec);
    }
  }

  lemma ThinnedUnique(sub: seq<Row>, rows: seq<Row>, at: seq<nat>)
    requires Unique(rows) && Thinned(sub, rows, at)
    ensures Unique(sub)
  {
  }

  lemma ThinnedRenditions(sub: seq<Row>, rows: seq<Row>, at: seq<nat>)
    requires Renditions(rows) && Thinned(sub, rows, at)
    ensures Renditions(sub)
  {
    forall i, j | 0 <= i < |sub| && 0 <= j < |sub| ensures OneRendition(sub[i].part, sub[j].part) {
      assert OneRendition(rows[at[i]].part, rows[at[j]].part);
    }
  }

  lemma InsertKeepsUnique(kept: seq<Row>, nextId: nat, uploads: seq<Upload>)
    requires Unique(kept) && Insertable(kept, uploads)
    ensures Unique(kept + Inserted(nextId, uploads))
  {
  }

  lemma InsertKeepsRenditions(kept: seq<Row>, nextId: nat, albumId: string, codec: Codec, uploads: seq<Upload>)
    requires Renditions(kept) && forall i :: 0 <= i < |kept| ==> !InGroup(kept[i], albumId, codec)
    requires forall i :: 0 <= i < |uploads| ==> WellAddressed(uploads[i], albumId, codec)
    ensures Renditions(kept + Inserted(nextId, uploads))
  {
    var rows := kept + Inserted(nextId, uploads);
    forall i, j | 0 <= i < |rows| && 0 <= j < |rows| ensures OneRendition(rows[i].part, rows[j].part) {
      assert i < |kept| ==> rows[i] == kept[i] && !InGroup(kept[i], albumId, codec);
      assert j < |kept| ==> rows[j] == kept[j] && !InGroup(kept[j], albumId, codec);
      assert i >= |kept| ==> WellAddressed(uploads[i - |kept|], albumId, codec);
      assert j >= |kept| ==> WellAddressed(uploads[j - |kept|], albumId, codec);
    }
  }

  lemma ReplaceKeepsUnique(rows: seq<Row>, nextId: nat, albumId: string, codec: Codec, expected: Expectation,
        uploads: seq<Upload>)
    requires Unique(rows)
    ensures Unique(After(rows, nextId, albumId, codec, expected, uploads))
  {
    hide Unique, Insertable, Thinned, Others;
    if Commits(rows, albumId, codec, expected, uploads) {
      var at := OthersThin(rows, albumId, codec);
      ThinnedUnique(Others(rows, albumId, codec), rows, at);
      InsertKeepsUnique(Others(rows, albumId, codec), nextId, uploads);
    }
  }

  lemma ReplaceKeepsRenditions(rows: seq<Row>, nextId: nat, albumId: string, codec: Codec, expected: Expectation,
        uploads: seq<Upload>)
    requires Renditions(rows)
    ensures Renditions(After(rows, nextId, albumId, codec, expected, uploads))
  {
    hide Renditions, Insertable, Thinned, Others;
    if Commits(rows, albumId, codec, expected, uploads) {
      var at := OthersThin(rows, albumId, codec);
      ThinnedRenditions(Others(rows, albumId, codec), rows, at);
      OthersOutside(rows, albumId, codec);
      InsertKeepsRenditions(Others(rows, albumId, codec), nextId, albumId, codec, uploads);
    }
  }

  lemma DeleteKeepsUnique(rows: seq<Row>, albumId: string, which: Option<Codec>)
    requires Unique(rows)
    ensures Unique(Remaining(rows, albumId, which))
  {
    var at := RemainingThin(rows, albumId, which);
    ThinnedUnique(Remaining(rows, albumId, which), rows, at);
  }

  lemma DeleteKeepsRenditions(rows: seq<Row>, albumId: string, which: Option<Codec>)
    requires Renditions(rows)
    ensures Renditions(Remaining(rows, albumId, which))
  {
    var at := RemainingThin(rows, albumId, which);
    ThinnedRenditions(Remaining(rows, albumId, which), rows, at);
  }

  lemma SaveKeepsUnique(rows: seq<Row>, nextId: nat, part: Upload)
    requires Unique(rows)
    ensures Unique(Saved(rows, nextId, part))
  {
    var k := KeyAt(rows, part);
    if Saves(rows, part) {
      forall j | 0 <= j < |rows| && j != k ensures !Clash(rows[j].part, part) {
        if k < j {
          assert !Clash(rows[k].part, rows[j].part);
        }
      }
      UpdateKeepsUnique(rows, k, SavedRow(rows, nextId, part));
    }
  }

  lemma UpdateKeepsUnique(rows: seq<Row>, k: nat, row: Row)
    requires Unique(rows) && k <= |rows| && Checked(row.part)
    requires forall j :: 0 <= j < |rows| && j != k ==> !Clash(rows[j].part, row.part)
    ensures Unique(if k < |rows| then rows[k := row] else rows + [row])
  {
  }

  /** An upsert that puts a part beside rows of the other rendition of its album. */
  predicate Mixes(rows: seq<Row>, part: Upload) {
    Saves(rows, part) && exists i :: 0 <= i < |rows| && !OneRendition(rows[i].part, part)
  }

  lemma SaveRenditions(rows: seq<Row>, nextId: nat, part: Upload)
    requires Renditions(rows)
    ensures Renditions(Saved(rows, nextId, part)) <==> !Mixes(rows, part)
  {
    var k, after := KeyAt(rows, part), Saved(rows, nextId, part);
    if Saves(rows, part) {
      assert after[k].part == part;
      if i :| 0 <= i < |rows| && !OneRendition(rows[i].part, part) {
        assert i != k;
        assert after[i] == rows[i];
        assert !OneRendition(after[i].part, after[k].part);
      } else {
        forall i, j | 0 <= i < |after| && 0 <= j < |after| ensures OneRendition(after[i].part, after[j].part) {
          assert i != k ==> after[i] == rows[i];
          assert j != k ==> after[j] == rows[j];
          assert i != k && j != k ==> OneRendition(rows[i].part, rows[j].part);
        }
      }
    }
  }

  // ---- One group at a time

  lemma {:induction false} MembersOfSum(a: seq<Row>, b: seq<Row>, albumId: string, codec: Codec)
    ensures Members(a + b, albumId, codec) == Members(a, albumId, codec) + Members(b, albumId, codec)
    decreases |b|
  {
    if b == [] {
      assert a + b == a;
    } else {
      assert (a + b)[..|a + b| - 1] == a + b[..|b| - 1];
      MembersOfSum(a, b[..|b| - 1], albumId, codec);
    }
  }

  lemma {:induction false} MembersOfOthers(rows: seq<Row>, albumId: string, codec: Codec, album2: string, codec2: Codec)
    ensures albumId == album2 && SameGroup(codec, codec2) ==>
            Members(Others(rows, albumId, codec), album2, codec2) == []
    ensures !(albumId == album2 && SameGroup(codec, codec2)) ==>
              Members(Others(rows, albumId, codec), album2, codec2) == Members(rows, album2, codec2)
  {
    if rows != [] {
      var init, last := rows[..|rows| - 1], rows[|rows| - 1];
      MembersOfOthers(init, albumId, codec, album2, codec2);
      MembersOfSum(Others(init, albumId, codec), [last], album2, codec2);
      assert [last][..0] == [];
      assert Members([], album2, codec2) == [];
    }
  }

  lemma {:induction false} MembersOfInserted(nextId: nat, uploads: seq<Upload>, albumId: string, codec: Codec,
        album2: string, codec2: Codec)
    requires forall i :: 0 <= i < |uploads| ==> WellAddressed(uploads[i], albumId, codec)
    ensures Members(Inserted(nextId, uploads), album2, codec2) ==
            if albumId == album2 && SameGroup(codec, codec2) then Inserted(nextId, uploads) else []
  {
    if uploads != [] {
      MembersOfInserted(nextId, uploads[..|uploads| - 1], albumId, codec, album2, codec2);
      var all := Inserted(nextId, uploads);
      assert all[..|all| - 1] == Inserted(nextId, uploads[..|uploads| - 1]);
    }
  }

  /** A replacement swaps its own group for the uploads and leaves every other group as it was. */
  lemma ReplaceIsLocal(rows: seq<Row>, nextId: nat, albumId: string, codec: Codec, expected: Expectation,
        uploads: seq<Upload>,
                       album2: string, codec2: Codec)
    ensures Members(After(rows, nextId, albumId, codec, expected, uploads), album2, codec2) ==
            if Commits(rows, albumId, codec, expected, uploads) && albumId == album2 && SameGroup(codec, codec2)
            then Inserted(nextId, uploads) else Members(rows, album2, codec2)
  {
    if Commits(rows, albumId, codec, expected, uploads) {
      SwapIsLocal(rows, nextId, albumId, codec, uploads, album2, codec2);
    }
  }

  lemma SwapIsLocal(rows: seq<Row>, nextId: nat, albumId: string, codec: Codec, uploads: seq<Upload>,
        album2: string, codec2: Codec)
    requires forall i :: 0 <= i < |uploads| ==> WellAddressed(uploads[i], albumId, codec)
    ensures Members(Others(rows, albumId, codec) + Inserted(nextId, uploads), album2, codec2) ==
            if albumId == album2 && SameGroup(codec, codec2) then Inserted(nextId, uploads)
              else Members(rows, album2, codec2)
  {
    hide Members, Others, Inserted, WellAddressed, SameGroup;
    MembersOfSum(Others(rows, albumId, codec), Inserted(nextId, uploads), album2, codec2);
    MembersOfOthers(rows, albumId, codec, album2, codec2);
    MembersOfInserted(nextId, uploads, albumId, codec, album2, codec2);
  }

  lemma {:induction false} RemainingMembers(rows: seq<Row>, albumId: string, codec: Codec, album2: string,
        which: Option<Codec>)
    requires albumId != album2 || (which.Some? && !SameGroup(which.value, codec))
    ensures Members(Remaining(rows, album2, which), albumId, codec) == Members(rows, albumId, codec)
  {
    if rows != [] {
      var init, last := rows[..|rows| - 1], rows[|rows| - 1];
      RemainingMembers(init, albumId, codec, album2, which);
      MembersOfSum(Remaining(init, album2, which), [last], albumId, codec);
      assert [last][..0] == [];
      assert Members([], albumId, codec) == [];
    }
  }

  lemma {:induction false} MembersInGroup(rows: seq<Row>, albumId: string, codec: Codec, i: nat)
    requires i < |Members(rows, albumId, codec)|
    ensures InGroup(Members(rows, albumId, codec)[i], albumId, codec)
  {
    hide InGroup;
    if i < |Members(rows[..|rows| - 1], albumId, codec)| {
      MembersInGroup(rows[..|rows| - 1], albumId, codec, i);
    }
  }

  lemma {:induction false} FoundSelected(rows: seq<Row>, albumId: string, codec: Option<Codec>, i: nat)
    requires i < |Found(rows, albumId, codec)|
    ensures Selected(Found(rows, albumId, codec)[i], albumId, codec)
  {
    hide Selected;
    if i < |Found(rows[..|rows| - 1], albumId, codec)| {
      FoundSelected(rows[..|rows| - 1], albumId, codec, i);
    }
  }

  lemma {:induction false} FilledByRow(rows: seq<Row>, i: nat, albumId: string, codec: Codec)
    requires i < |rows| && InGroup(rows[i], albumId, codec)
    ensures Members(rows, albumId, codec) != []
  {
    if i < |rows| - 1 {
      FilledByRow(rows[..|rows| - 1], i, albumId, codec);
    }
  }

  lemma {:induction false} RowOfMembers(rows: seq<Row>, albumId: string, codec: Codec) returns (i: nat)
    requires Members(rows, albumId, codec) != []
    ensures i < |rows| && InGroup(rows[i], albumId, codec)
  {
    i := |rows| - 1;
    if !InGroup(rows[i], albumId, codec) {
      i := RowOfMembers(rows[..|rows| - 1], albumId, codec);
    }
  }

  /** An upsert never empties a group. */
  lemma SaveKeepsFilled(rows: seq<Row>, nextId: nat, part: Upload, albumId: string, codec: Codec)
    requires Members(rows, albumId, codec) != []
    ensures Members(Saved(rows, nextId, part), albumId, codec) != []
  {
    hide Members;
    var i := RowOfMembers(rows, albumId, codec);
    FilledByRow(Saved(rows, nextId, part), i, albumId, codec);
  }

  lemma {:induction false} SameMembers(rows: seq<Row>, albumId: string, codec: Codec, codec2: Codec)
    requires SameGroup(codec, codec2)
    ensures Members(rows, albumId, codec) == Members(rows, albumId, codec2)
  {
    if rows != [] {
      SameMembers(rows[..|rows| - 1], albumId, codec, codec2);
    }
  }
}
