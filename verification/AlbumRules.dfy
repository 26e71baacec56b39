/**
 The rules of the archive table in plain terms: which rows a call speaks of, when a replacement
 is stale, refused or committed, and which uploads the constraints let in.
 */
module AlbumRules {
  import opened Prelude
  import opened Music
  import opened Albums

  // ---- Rows and groups

  /** A row of the album in the rendition group of the codec: lossless and AAC together, Atmos apart. */
  predicate Belongs(row: Row, albumId: string, codec: Codec) {
    && row.part.albumId == albumId
    && match codec
       case Ec3 => row.part.codec == Ec3
       case _ => row.part.codec == Alac || row.part.codec == Aac
  }

  lemma BelongsIsInGroup(row: Row, albumId: string, codec: Codec)
    ensures InGroup(row, albumId, codec) <==> Belongs(row, albumId, codec)
  {
  }

  function Times(rows: seq<Row>, x: Row): nat {
    multiset(rows)[x]
  }

  lemma TimesAppend(rows: seq<Row>, last: Row, x: Row)
    ensures Times(rows + [last], x) == Times(rows, x) + if x == last then 1 else 0
  {
  }

  /** A group's members are its rows, each as often as in the table, and the others are the rest. */
  lemma {:induction false} MembersExactly(rows: seq<Row>, albumId: string, codec: Codec, x: Row)
    ensures Times(Members(rows, albumId, codec), x) == if Belongs(x, albumId, codec) then Times(rows, x) else 0
    ensures Times(Others(rows, albumId, codec), x) == if Belongs(x, albumId, codec) then 0 else Times(rows, x)
  {
    hide Times, Belongs, InGroup;
    if rows == [] {
      NoTimes(x);
    } else {
      var init, last := rows[..|rows| - 1], rows[|rows| - 1];
      MembersExactly(init, albumId, codec, x);
      BelongsIsInGroup(last, albumId, codec);
      assert rows == init + [last];
      TimesAppend(init, last, x);
      TimesAppend(Members(init, albumId, codec), last, x);
      TimesAppend(Others(init, albumId, codec), last, x);
    }
  }

  lemma NoTimes(x: Row)
    ensures Times([], x) == 0
  {
  }

  /** A deletion finds the rows of its album and, when given, of its codec, and leaves the rest. */
  lemma {:induction false} FoundExactly(rows: seq<Row>, albumId: string, codec: Option<Codec>, x: Row)
    ensures var meant := x.part.albumId == albumId && (codec == None || codec == Some(x.part.codec));
            && Times(Found(rows, albumId, codec), x) == (if meant then Times(rows, x) else 0)
            && Times(Remaining(rows, albumId, codec), x) == if meant then 0 else Times(rows, x)
  {
    hide Times;
    if rows == [] {
      NoTimes(x);
    } else {
      var init, last := rows[..|rows| - 1], rows[|rows| - 1];
      FoundExactly(init, albumId, codec, x);
      assert rows == init + [last];
      TimesAppend(init, last, x);
      TimesAppend(Found(init, albumId, codec), last, x);
      TimesAppend(Remaining(init, albumId, codec), last, x);
    }
  }

  lemma InByTimes(rows: seq<Row>, x: Row)
    ensures x in rows <==> Times(rows, x) > 0
  {
    assert x in rows <==> x in multiset(rows);
  }

  lemma MemberRows(rows: seq<Row>, albumId: string, codec: Codec)
    ensures forall x :: x in Members(rows, albumId, codec) <==> x in rows && Belongs(x, albumId, codec)
    ensures forall x :: x in Others(rows, albumId, codec) <==> x in rows && !Belongs(x, albumId, codec)
  {
    hide Times, Belongs;
    forall x
      ensures x in Members(rows, albumId, codec) <==> x in rows && Belongs(x, albumId, codec)
      ensures x in Others(rows, albumId, codec) <==> x in rows && !Belongs(x, albumId, codec)
    {
      MembersExactly(rows, albumId, codec, x);
      InByTimes(rows, x);
      InByTimes(Members(rows, albumId, codec), x);
      InByTimes(Others(rows, albumId, codec), x);
    }
  }

  // ---- Stale or not

  /** The group in the table is as the caller expects: empty, or not empty and all of one generation. */
  ghost predicate AsExpected(rows: seq<Row>, albumId: string, codec: Codec, expected: Expectation) {
    match expected
    case Empty => forall x :: x in rows ==> !Belongs(x, albumId, codec)
    case Generation(hash) =>
      && (exists x :: x in rows && Belongs(x, albumId, codec))
      && forall x :: x in rows && Belongs(x, albumId, codec) ==> x.part.generation == hash
    case Mixed => false
  }

  lemma MatchesExactly(rows: seq<Row>, albumId: string, codec: Codec, expected: Expectation)
    ensures Matches(Members(rows, albumId, codec), expected) <==> AsExpected(rows, albumId, codec, expected)
  {
    hide Belongs, Members;
    MemberRows(rows, albumId, codec);
    var members := Members(rows, albumId, codec);
    assert members != [] ==> members[0] in members;
    forall x | x in members ensures exists i :: 0 <= i < |members| && members[i] == x {
    }
    assert forall i :: 0 <= i < |members| ==> members[i] in members;
  }

  // ---- The constraints

  /** An upload of this album and codec whose message id is a 32-bit number. */
  predicate Meant(p: Upload, albumId: string, codec: Codec) {
    p.albumId == albumId && p.codec == codec && -0x8000_0000 <= p.messageId <= 0x7FFF_FFFF
  }

  predicate Proper(p: Upload) {
    0 < p.partIndex <= p.totalParts && 0 < p.messageId && 0 < p.fileSize
  }

  /** Two rows may not share album, codec and part index, nor a file. */
  predicate Collide(p: Upload, q: Upload) {
    || p.fileUniqueId == q.fileUniqueId
    || (p.albumId, p.codec, p.partIndex) == (q.albumId, q.codec, q.partIndex)
  }

  /** Proper uploads that collide neither with each other nor with a row outside their group. */
  ghost predicate Admissible(rows: seq<Row>, albumId: string, codec: Codec, uploads: seq<Upload>) {
    && (forall i :: 0 <= i < |uploads| ==> Proper(uploads[i]))
    && (forall i, j :: 0 <= i < j < |uploads| ==> !Collide(uploads[i], uploads[j]))
    && forall i, x :: 0 <= i < |uploads| && x in rows && !Belongs(x, albumId, codec) ==> !Collide(uploads[i], x.part)
  }

  lemma InsertableExactly(rows: seq<Row>, albumId: string, codec: Codec, uploads: seq<Upload>)
    ensures Insertable(Others(rows, albumId, codec), uploads) <==> Admissible(rows, albumId, codec, uploads)
  {
    hide Belongs, Others, Members, Collide, Clash;
    MemberRows(rows, albumId, codec);
    forall p, q ensures Clash(p, q) <==> Collide(p, q) {
      CollideIsClash(p, q);
    }
    var others := Others(rows, albumId, codec);
    assert forall j :: 0 <= j < |others| ==> others[j] in others;
  }

  lemma CollideIsClash(p: Upload, q: Upload)
    ensures Clash(p, q) <==> Collide(p, q)
  {
  }

  /**
   A replacement is refused for a misaddressed upload; else it is stale exactly when the group is
   not as expected; else it fails exactly when the uploads are not admissible; else it commits and
   hands back the message ids of the group's rows.
   */
  lemma OutcomeExactly(rows: seq<Row>, albumId: string, codec: Codec, expected: Expectation, uploads: seq<Upload>)
    ensures var r := Outcome(rows, albumId, codec, expected, uploads);
            var meant := forall i :: 0 <= i < |uploads| ==> Meant(uploads[i], albumId, codec);
            && (r == Err(RowError) <==> !meant)
            && (r == Ok(Stale) <==> meant && !AsExpected(rows, albumId, codec, expected))
            && (r == Err(ConstraintViolation) <==>
                  meant && AsExpected(rows, albumId, codec, expected) && !Admissible(rows, albumId, codec, uploads))
            && (Commits(rows, albumId, codec, expected, uploads) <==>
                  meant && AsExpected(rows, albumId, codec, expected) && Admissible(rows, albumId, codec, uploads))
  {
    hide Members, Others, Matches, Insertable, AsExpected, Admissible, Belongs;
    MatchesExactly(rows, albumId, codec, expected);
    InsertableExactly(rows, albumId, codec, uploads);
    assert forall i :: 0 <= i < |uploads| ==>
        (WellAddressed(uploads[i], albumId, codec) <==> Meant(uploads[i], albumId, codec));
  }

  /** The ids handed back are those of the group's rows. */
  lemma DisplacedExactly(rows: seq<Row>, albumId: string, codec: Codec, expected: Expectation, uploads: seq<Upload>,
    m: int)
    requires Commits(rows, albumId, codec, expected, uploads)
    ensures m in Outcome(rows, albumId, codec, expected, uploads).value.displaced <==>
            exists x :: x in rows && Belongs(x, albumId, codec) && x.part.messageId == m
  {
    hide Members, Others, Matches, Insertable, Belongs;
    MemberRows(rows, albumId, codec);
    var members := Members(rows, albumId, codec);
    if m in MessageIds(members) {
      var i :| 0 <= i < |members| && MessageIds(members)[i] == m;
      assert members[i] in members;
    }
    if x :| x in rows && Belongs(x, albumId, codec) && x.part.messageId == m {
      var i :| 0 <= i < |members| && members[i] == x;
      assert MessageIds(members)[i] == m;
    }
  }

  /** After a commit the table holds the rows outside the group and the uploads under new row ids. */
  lemma AfterExactly(rows: seq<Row>, nextId: nat, albumId: string, codec: Codec, expected: Expectation,
        uploads: seq<Upload>, x: Row)
    requires Commits(rows, albumId, codec, expected, uploads)
    ensures Times(After(rows, nextId, albumId, codec, expected, uploads), x)
         == (if Belongs(x, albumId, codec) then 0 else Times(rows, x))
            + (if nextId <= x.id < nextId + |uploads| && uploads[x.id - nextId] == x.part then 1 else 0)
  {
    hide Times, Belongs, Commits;
    MembersExactly(rows, albumId, codec, x);
    TimesSum(Others(rows, albumId, codec), Inserted(nextId, uploads), x);
    InsertedTimes(nextId, uploads, x);
  }

  lemma TimesSum(a: seq<Row>, b: seq<Row>, x: Row)
    ensures Times(a + b, x) == Times(a, x) + Times(b, x)
  {
  }

  lemma {:induction false} InsertedTimes(nextId: nat, uploads: seq<Upload>, x: Row)
    ensures Times(Inserted(nextId, uploads), x)
         == if nextId <= x.id < nextId + |uploads| && uploads[x.id - nextId] == x.part then 1 else 0
  {
    hide Times;
    if uploads == [] {
      NoTimes(x);
    } else {
      var init, last := uploads[..|uploads| - 1], Row(nextId + |uploads| - 1, uploads[|uploads| - 1]);
      InsertedTimes(nextId, init, x);
      TimesAppend(Inserted(nextId, init), last, x);
    }
  }

  /**
   An upsert is accepted exactly for a proper part with a 32-bit message id whose file no row of
   another key has; it then replaces the part of the row with its key, or adds a row.
   */
  lemma SavesExactly(rows: seq<Row>, nextId: nat, part: Upload)
    ensures Saves(rows, part) <==>
              && Proper(part) && part.messageId <= 0x7FFF_FFFF
              && forall x :: x in rows && x.part.fileUniqueId == part.fileUniqueId ==>
                   (x.part.albumId, x.part.codec, x.part.partIndex) == (part.albumId, part.codec, part.partIndex)
    ensures Saves(rows, part) ==>
              if exists i :: FirstWithKey(rows, i, part) then
                exists i :: FirstWithKey(rows, i, part) && Saved(rows, nextId, part) == rows[i := Row(rows[i].id, part)]
              else Saved(rows, nextId, part) == rows + [Row(nextId, part)]
    ensures !Saves(rows, part) ==> Saved(rows, nextId, part) == rows
  {
    assert forall j :: 0 <= j < |rows| ==> rows[j] in rows;
    var i := KeyAt(rows, part);
    if i < |rows| {
      assert FirstWithKey(rows, i, part);
    } else if k :| FirstWithKey(rows, k, part) {
      assert !SameKey(rows[k].part, part);
    }
  }

  predicate FirstWithKey(rows: seq<Row>, i: int, part: Upload) {
    && 0 <= i < |rows|
    && (rows[i].part.albumId, rows[i].part.codec, rows[i].part.partIndex) == (part.albumId, part.codec, part.partIndex)
    && forall j :: 0 <= j < i ==>
         (rows[j].part.albumId, rows[j].part.codec, rows[j].part.partIndex)
         != (part.albumId, part.codec, part.partIndex)
  }
}
