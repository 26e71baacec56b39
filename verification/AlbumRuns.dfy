/**
 Runs of calls on the archive table, and the account of message ids: which ids the table was
 given, which it holds, and which were reported back to callers for clean-up.
 */
module AlbumRuns {
  import opened Prelude
  import opened Music
  import opened Albums
  import opened AlbumRules

  /**
   One call on the table. `delete_albums` reads and deletes in two transactions, so a deletion
   carries the rows its earlier read found; with none it does not delete.
   */
  datatype Event =
    | Replace(albumId: string, codec: Codec, expected: Expectation, uploads: seq<Upload>)
    | Delete(album: string, which: Option<Codec>, found: seq<Row>)
    | Save(part: Upload)

  /** The table, with the message ids ever committed and those reported back to callers. */
  datatype Ledger = Ledger(rows: seq<Row>, nextId: nat, committed: multiset<int>, reported: multiset<int>)

  const EMPTY_LEDGER := Ledger([], 1, multiset{}, multiset{})

  /** The whole table, or what a deletion selects. */
  datatype Scope = Table | Of(albumId: string, codec: Option<Codec>)

  predicate Within(row: Row, scope: Scope) {
    scope.Of? ==> Selected(row, scope.albumId, scope.codec)
  }

  function IdOf(row: Row, scope: Scope): multiset<int> {
    if Within(row, scope) then multiset{row.part.messageId} else multiset{}
  }

  /** The message ids of the rows in the scope. */
  function Ids(rows: seq<Row>, scope: Scope): multiset<int> {
    if rows == [] then multiset{} else Ids(rows[..|rows| - 1], scope) + IdOf(rows[|rows| - 1], scope)
  }

  // ---- Steps

  /** An upsert that puts another message id into the row of its key. */
  predicate Overwrites(rows: seq<Row>, part: Upload) {
    var i := KeyAt(rows, part);
    Saves(rows, part) && i < |rows| && rows[i].part.messageId != part.messageId
  }

  predicate Resaves(rows: seq<Row>, part: Upload) {
    var i := KeyAt(rows, part);
    Saves(rows, part) && i < |rows| && rows[i].part.messageId == part.messageId
  }

  /** The rows whose message ids an event takes off the table. */
  function TakenRows(l: Ledger, e: Event): seq<Row> {
    match e
    case Replace(albumId, codec, expected, uploads) =>
      if Commits(l.rows, albumId, codec, expected, uploads) then Members(l.rows, albumId, codec) else []
    case Delete(album, which, found) => if found == [] then [] else Found(l.rows, album, which)
    case Save(part) => if Overwrites(l.rows, part) then [l.rows[KeyAt(l.rows, part)]] else []
  }

  /** The rows whose message ids an event commits. */
  function GivenRows(l: Ledger, e: Event): seq<Row> {
    match e
    case Replace(albumId, codec, expected, uploads) =>
      if Commits(l.rows, albumId, codec, expected, uploads) then Inserted(l.nextId, uploads) else []
    case Delete(_, _, _) => []
    case Save(part) =>
      if Saves(l.rows, part) && !Resaves(l.rows, part) then [SavedRow(l.rows, l.nextId, part)] else []
  }

  function RowsAfter(l: Ledger, e: Event): seq<Row> {
    match e
    case Replace(albumId, codec, expected, uploads) => After(l.rows, l.nextId, albumId, codec, expected, uploads)
    case Delete(album, which, found) => if found == [] then l.rows else Remaining(l.rows, album, which)
    case Save(part) => Saved(l.rows, l.nextId, part)
  }

  /** Row ids used up. */
  function Spent(l: Ledger, e: Event): nat {
    match e
    case Replace(albumId, codec, expected, uploads) =>
      if Commits(l.rows, albumId, codec, expected, uploads) then |uploads| else 0
    case Delete(_, _, _) => 0
    case Save(part) => if Saves(l.rows, part) then 1 else 0
  }

  /** The message ids a call hands back: those displaced, those read before deleting, or none. */
  function Reported(l: Ledger, e: Event): multiset<int> {
    match e
    case Replace(_, _, _, _) => Ids(TakenRows(l, e), Table)
    case Delete(_, _, found) => Ids(found, Table)
    case Save(_) => multiset{}
  }

  function Step(l: Ledger, e: Event): Ledger {
    Ledger(RowsAfter(l, e), l.nextId + Spent(l, e), l.committed + Ids(GivenRows(l, e), Table),
           l.reported + Reported(l, e))
  }

  function Run(es: seq<Event>): Ledger {
    if es == [] then EMPTY_LEDGER else Step(Run(es[..|es| - 1]), es[|es| - 1])
  }

  function At(es: seq<Event>, k: nat): Ledger
    requires k <= |es|
  {
    Run(es[..k])
  }

  lemma Next(es: seq<Event>, k: nat)
    requires k < |es|
    ensures At(es, k + 1) == Step(At(es, k), es[k])
  {
    assert es[..k + 1][..k] == es[..k];
  }

  // ---- Ids of sums and splits

  lemma IdsAppend(rows: seq<Row>, row: Row, scope: Scope)
    ensures Ids(rows + [row], scope) == Ids(rows, scope) + IdOf(row, scope)
  {
    assert (rows + [row])[..|rows|] == rows;
  }

  lemma IdsOne(row: Row, scope: Scope)
    ensures Ids([row], scope) == IdOf(row, scope)
  {
    IdsAppend([], row, scope);
    assert [] + [row] == [row];
  }

  lemma {:induction false} IdsSum(a: seq<Row>, b: seq<Row>, scope: Scope)
    ensures Ids(a + b, scope) == Ids(a, scope) + Ids(b, scope)
    decreases |b|
  {
    hide Ids, IdOf;
    NoIds(scope);
    if b == [] {
      assert a + b == a;
    } else {
      var init, last := b[..|b| - 1], b[|b| - 1];
      IdsSum(a, init, scope);
      IdsAppend(init, last, scope);
      IdsAppend(a + init, last, scope);
      assert b == init + [last] && a + b == a + init + [last];
    }
  }

  lemma IdsUpdate(rows: seq<Row>, i: nat, row: Row, scope: Scope)
    requires i < |rows|
    ensures Ids(rows[i := row], scope) + IdOf(rows[i], scope) == Ids(rows, scope) + IdOf(row, scope)
  {
    var a, b := rows[..i], rows[i + 1..];
    assert rows == a + [rows[i]] + b;
    assert rows[i := row] == a + [row] + b;
    IdsSum(a + [rows[i]], b, scope);
    IdsSum(a + [row], b, scope);
    IdsAppend(a, rows[i], scope);
    IdsAppend(a, row, scope);
  }

  /** The ids of the whole table, and of a deletion's selection, are the ids the calls return. */
  lemma {:induction false} IdsAreMessageIds(rows: seq<Row>, album: string, which: Option<Codec>)
    ensures Ids(rows, Table) == multiset(MessageIds(rows))
    ensures Ids(rows, Of(album, which)) == Ids(Found(rows, album, which), Table)
  {
    hide Selected;
    if rows != [] {
      var init, last := rows[..|rows| - 1], rows[|rows| - 1];
      IdsAreMessageIds(init, album, which);
      assert MessageIds(rows) == MessageIds(init) + [last.part.messageId];
      IdsAppend(Found(init, album, which), last, Table);
    }
  }

  lemma {:induction false} SplitByGroup(rows: seq<Row>, albumId: string, codec: Codec, scope: Scope)
    ensures Ids(rows, scope) == Ids(Members(rows, albumId, codec), scope) + Ids(Others(rows, albumId, codec), scope)
  {
    hide Within, InGroup, IdOf;
    if rows != [] {
      var init, last := rows[..|rows| - 1], rows[|rows| - 1];
      SplitByGroup(init, albumId, codec, scope);
      IdsAppend(Members(init, albumId, codec), last, scope);
      IdsAppend(Others(init, albumId, codec), last, scope);
    }
  }

  lemma {:induction false} SplitBySelection(rows: seq<Row>, album: string, which: Option<Codec>, scope: Scope)
    ensures Ids(rows, scope) == Ids(Found(rows, album, which), scope) + Ids(Remaining(rows, album, which), scope)
  {
    hide Within, Selected, IdOf;
    if rows != [] {
      var init, last := rows[..|rows| - 1], rows[|rows| - 1];
      SplitBySelection(init, album, which, scope);
      IdsAppend(Found(init, album, which), last, scope);
      IdsAppend(Remaining(init, album, which), last, scope);
    }
  }

  lemma {:induction false} ScopeWithinTable(rows: seq<Row>, scope: Scope)
    ensures Ids(rows, scope) <= Ids(rows, Table)
  {
    if rows != [] {
      ScopeWithinTable(rows[..|rows| - 1], scope);
    }
  }

  // ---- What one step does to the ids of a scope

  lemma SaveIds(l: Ledger, part: Upload, scope: Scope)
    ensures Ids(RowsAfter(l, Save(part)), scope) + Ids(TakenRows(l, Save(part)), scope)
            == Ids(l.rows, scope) + Ids(GivenRows(l, Save(part)), scope)
  {
    hide Ids, IdOf, Saves, KeyAt, Within;
    var i, row := KeyAt(l.rows, part), SavedRow(l.rows, l.nextId, part);
    NoIds(scope);
    IdsOne(row, scope);
    if i < |l.rows| {
      IdsUpdate(l.rows, i, row, scope);
      IdsOne(l.rows[i], scope);
      if l.rows[i].part.messageId == part.messageId {
        SameIdOf(l.rows[i], row, scope);
        DropSame(Ids(l.rows[i := row], scope), Ids(l.rows, scope), IdOf(row, scope));
      }
    } else {
      IdsAppend(l.rows, row, scope);
    }
  }

  lemma SameIdOf(a: Row, b: Row, scope: Scope)
    requires SameKey(a.part, b.part) && a.part.messageId == b.part.messageId
    ensures IdOf(a, scope) == IdOf(b, scope)
  {
  }

  lemma DropSame(m: multiset<int>, n: multiset<int>, x: multiset<int>)
    requires m + x == n + x
    ensures m == n
  {
    forall i ensures m[i] == n[i] {
      assert (m + x)[i] == (n + x)[i];
    }
  }

  lemma NoIds(scope: Scope)
    ensures Ids([], scope) == multiset{}
  {
  }

  lemma ReplaceIds(l: Ledger, e: Event, scope: Scope)
    requires e.Replace?
    ensures Ids(RowsAfter(l, e), scope) + Ids(TakenRows(l, e), scope) ==
            Ids(l.rows, scope) + Ids(GivenRows(l, e), scope)
  {
    hide Ids, Members, Others, Commits;
    NoIds(scope);
    SplitByGroup(l.rows, e.albumId, e.codec, scope);
    IdsSum(Others(l.rows, e.albumId, e.codec), Inserted(l.nextId, e.uploads), scope);
  }

  lemma DeleteIds(l: Ledger, e: Event, scope: Scope)
    requires e.Delete?
    ensures Ids(RowsAfter(l, e), scope) + Ids(TakenRows(l, e), scope) ==
            Ids(l.rows, scope) + Ids(GivenRows(l, e), scope)
  {
    hide Ids, Found, Remaining;
    NoIds(scope);
    SplitBySelection(l.rows, e.album, e.which, scope);
  }

  /** In any scope, a step adds the ids it is given and removes the ids it takes. */
  lemma StepIds(l: Ledger, e: Event, scope: Scope)
    ensures Ids(RowsAfter(l, e), scope) + Ids(TakenRows(l, e), scope) ==
            Ids(l.rows, scope) + Ids(GivenRows(l, e), scope)
  {
    hide Ids, RowsAfter, TakenRows, GivenRows;
    match e
    case Replace(_, _, _, _) => ReplaceIds(l, e, scope);
    case Delete(_, _, _) => DeleteIds(l, e, scope);
    case Save(part) => SaveIds(l, part, scope);
  }

  // ---- The account

  /** Every committed id is in the table or was reported, once for each time it was committed. */
  predicate Conserved(l: Ledger) {
    l.committed == Ids(l.rows, Table) + l.reported
  }

  lemma Cancel(c: multiset<int>, rows: multiset<int>, reported: multiset<int>, after: multiset<int>,
        taken: multiset<int>, given: multiset<int>, more: multiset<int>)
    requires c == rows + reported && after + taken == rows + given
    ensures c + given == after + (reported + more) <==> more == taken
  {
    assert c + given == after + taken + reported;
    if c + given == after + (reported + more) {
      forall x ensures more[x] == taken[x] {
        assert (after + taken + reported)[x] == (after + (reported + more))[x];
      }
    }
  }

  /** A step keeps the account exactly when it reports what it takes. */
  lemma StepConserves(l: Ledger, e: Event)
    requires Conserved(l)
    ensures Conserved(Step(l, e)) <==> Reported(l, e) == Ids(TakenRows(l, e), Table)
  {
    hide Ids, RowsAfter, TakenRows, GivenRows, Reported;
    StepIds(l, e, Table);
    Cancel(l.committed, Ids(l.rows, Table), l.reported, Ids(RowsAfter(l, e), Table), Ids(TakenRows(l, e), Table),
           Ids(GivenRows(l, e), Table), Reported(l, e));
  }

  // ---- Between two points of a run

  function TakenAt(es: seq<Event>, i: nat, scope: Scope): multiset<int>
    requires i < |es|
  {
    Ids(TakenRows(At(es, i), es[i]), scope)
  }

  function GivenAt(es: seq<Event>, i: nat, scope: Scope): multiset<int>
    requires i < |es|
  {
    Ids(GivenRows(At(es, i), es[i]), scope)
  }

  function HeldAt(es: seq<Event>, k: nat, scope: Scope): multiset<int>
    requires k <= |es|
  {
    Ids(At(es, k).rows, scope)
  }

  /** The ids taken from the scope by the events from `j` up to `k`. */
  function Taken(es: seq<Event>, j: nat, k: nat, scope: Scope): multiset<int>
    requires j <= k <= |es|
  {
    if j == k then multiset{} else Taken(es, j, k - 1, scope) + TakenAt(es, k - 1, scope)
  }

  function Given(es: seq<Event>, j: nat, k: nat, scope: Scope): multiset<int>
    requires j <= k <= |es|
  {
    if j == k then multiset{} else Given(es, j, k - 1, scope) + GivenAt(es, k - 1, scope)
  }

  lemma StepHeld(es: seq<Event>, k: nat, scope: Scope)
    requires k < |es|
    ensures HeldAt(es, k + 1, scope) + TakenAt(es, k, scope) == HeldAt(es, k, scope) + GivenAt(es, k, scope)
    ensures At(es, k + 1).committed == At(es, k).committed + GivenAt(es, k, Table)
  {
    hide Ids, At, RowsAfter, TakenRows, GivenRows;
    Next(es, k);
    StepIds(At(es, k), es[k], scope);
  }

  lemma {:induction false} Telescope(es: seq<Event>, j: nat, k: nat, scope: Scope)
    requires j <= k <= |es|
    ensures HeldAt(es, k, scope) + Taken(es, j, k, scope) == HeldAt(es, j, scope) + Given(es, j, k, scope)
    decreases k
  {
    hide *;
    if j == k {
      NothingBetween(es, j, scope);
    } else {
      Telescope(es, j, k - 1, scope);
      StepHeld(es, k - 1, scope);
      OneMore(es, j, k - 1, scope);
      var taken, given, took, gave :=
        Taken(es, j, k - 1, scope), Given(es, j, k - 1, scope), TakenAt(es, k - 1, scope), GivenAt(es, k - 1, scope);
      Chain(HeldAt(es, k - 1, scope), taken, HeldAt(es, j, scope), given, HeldAt(es, k, scope), took, gave);
    }
  }

  lemma NothingBetween(es: seq<Event>, j: nat, scope: Scope)
    requires j <= |es|
    ensures Taken(es, j, j, scope) == multiset{} == Given(es, j, j, scope)
  {
  }

  lemma OneMore(es: seq<Event>, j: nat, k: nat, scope: Scope)
    requires j <= k < |es|
    ensures Taken(es, j, k + 1, scope) == Taken(es, j, k, scope) + TakenAt(es, k, scope)
    ensures Given(es, j, k + 1, scope) == Given(es, j, k, scope) + GivenAt(es, k, scope)
  {
    hide TakenAt, GivenAt;
  }

  lemma Chain(mid: multiset<int>, taken: multiset<int>, start: multiset<int>, given: multiset<int>,
        end: multiset<int>, took: multiset<int>, gave: multiset<int>)
    requires mid + taken == start + given && end + took == mid + gave
    ensures end + (taken + took) == start + (given + gave)
  {
    assert end + (taken + took) == (end + took) + taken;
    assert (mid + gave) + taken == (mid + taken) + gave;
  }

  lemma {:induction false} CommittedSince(es: seq<Event>, j: nat, k: nat)
    requires j <= k <= |es|
    ensures At(es, k).committed == At(es, j).committed + Given(es, j, k, Table)
    decreases k
  {
    hide At, GivenAt;
    if j < k {
      CommittedSince(es, j, k - 1);
      StepHeld(es, k - 1, Table);
      assert At(es, k).committed == At(es, j).committed + (Given(es, j, k - 1, Table) + GivenAt(es, k - 1, Table));
    }
  }

  lemma {:induction false} GivenWithinTable(es: seq<Event>, j: nat, k: nat, scope: Scope)
    requires j <= k <= |es|
    ensures Given(es, j, k, scope) <= Given(es, j, k, Table)
    decreases k
  {
    if j < k {
      GivenWithinTable(es, j, k - 1, scope);
      ScopeWithinTable(GivenRows(At(es, k - 1), es[k - 1]), scope);
    }
  }

  lemma AtNone(es: seq<Event>)
    ensures At(es, 0) == EMPTY_LEDGER
  {
  }

  /** What the table holds was committed, whatever was reported. */
  lemma HeldWasCommitted(es: seq<Event>, k: nat)
    requires k <= |es|
    ensures HeldAt(es, k, Table) <= At(es, k).committed
  {
    hide HeldAt, At, Taken, Given;
    AtNone(es);
    Telescope(es, 0, k, Table);
    CommittedSince(es, 0, k);
    assert HeldAt(es, 0, Table) == multiset{} by { NoneHeld(es); }
    assert HeldAt(es, k, Table) + Taken(es, 0, k, Table) == At(es, k).committed;
  }

  lemma NoneHeld(es: seq<Event>)
    ensures HeldAt(es, 0, Table) == multiset{}
  {
    AtNone(es);
    NoIds(Table);
  }

  // ---- Deletions

  /** A deletion that reports exactly the ids it deletes. */
  predicate ExactAt(es: seq<Event>, k: nat)
    requires k < |es|
  {
    es[k].Delete? ==> Reported(At(es, k), es[k]) == TakenAt(es, k, Table)
  }

  /** What the deletion at `k` reports was read from the table after `j` events. */
  predicate ReadAt(es: seq<Event>, k: nat, j: nat)
    requires k < |es|
  {
    es[k].Delete? ==> j <= k && es[k].found == Found(At(es, j).rows, es[k].album, es[k].which)
  }

  function ScopeOf(e: Event): Scope {
    if e.Delete? then Of(e.album, e.which) else Table
  }

  lemma DeletionReports(es: seq<Event>, j: nat, k: nat)
    requires k < |es| && es[k].Delete? && es[k].found != [] && ReadAt(es, k, j)
    ensures Reported(At(es, k), es[k]) == HeldAt(es, j, ScopeOf(es[k]))
    ensures TakenAt(es, k, Table) == HeldAt(es, k, ScopeOf(es[k]))
  {
    hide At, Ids, Found;
    IdsAreMessageIds(At(es, j).rows, es[k].album, es[k].which);
    IdsAreMessageIds(At(es, k).rows, es[k].album, es[k].which);
  }

  lemma Balance(end: multiset<int>, taken: multiset<int>, start: multiset<int>, given: multiset<int>)
    requires end + taken == start + given
    ensures start == end <==> taken == given
  {
    if start == end {
      forall x ensures taken[x] == given[x] {
        assert (end + taken)[x] == (start + given)[x];
      }
    }
    if taken == given {
      forall x ensures start[x] == end[x] {
        assert (end + taken)[x] == (start + given)[x];
      }
    }
  }

  /**
   A deletion is exact exactly when, between its read and its delete, the other calls took from
   the selected rows the ids they gave to them.
   */
  lemma DeletionBalances(es: seq<Event>, j: nat, k: nat)
    requires k < |es| && es[k].Delete? && es[k].found != [] && ReadAt(es, k, j)
    ensures ExactAt(es, k) <==> Taken(es, j, k, ScopeOf(es[k])) == Given(es, j, k, ScopeOf(es[k]))
  {
    hide HeldAt, TakenAt, Reported, Taken, Given, At;
    var scope := ScopeOf(es[k]);
    DeletionReports(es, j, k);
    Telescope(es, j, k, scope);
    Balance(HeldAt(es, k, scope), Taken(es, j, k, scope), HeldAt(es, j, scope), Given(es, j, k, scope));
  }

  // ---- With fresh ids

  /** No message id is committed twice. */
  predicate Once(ids: multiset<int>) {
    forall m :: m in ids ==> ids[m] == 1
  }

  /**
   No call between `j` and `k` takes an id the scope held at `j`, and each id given to the
   scope between them is also taken from it between them.
   */
  ghost predicate Undisturbed(es: seq<Event>, j: nat, k: nat, scope: Scope)
    requires j <= k <= |es|
  {
    && (forall i, m :: j <= i < k && m in TakenAt(es, i, scope) ==> m !in HeldAt(es, j, scope))
    && (forall i, m :: j <= i < k && m in GivenAt(es, i, scope) ==> TakenBetween(es, j, k, scope, m))
  }

  ghost predicate TakenBetween(es: seq<Event>, j: nat, k: nat, scope: Scope, m: int)
    requires j <= k <= |es|
  {
    exists i :: j <= i < k && m in TakenAt(es, i, scope)
  }

  ghost predicate GivenBetween(es: seq<Event>, j: nat, k: nat, scope: Scope, m: int)
    requires j <= k <= |es|
  {
    exists i :: j <= i < k && m in GivenAt(es, i, scope)
  }

  lemma {:induction false} TakenBy(es: seq<Event>, j: nat, k: nat, scope: Scope, m: int)
    requires j <= k <= |es|
    ensures m in Taken(es, j, k, scope) <==> TakenBetween(es, j, k, scope, m)
    decreases k
  {
    hide TakenAt;
    if j < k {
      TakenBy(es, j, k - 1, scope, m);
      assert m in Taken(es, j, k, scope) <==> m in Taken(es, j, k - 1, scope) || m in TakenAt(es, k - 1, scope);
    }
  }

  lemma {:induction false} GivenBy(es: seq<Event>, j: nat, k: nat, scope: Scope, m: int)
    requires j <= k <= |es|
    ensures m in Given(es, j, k, scope) <==> GivenBetween(es, j, k, scope, m)
    decreases k
  {
    hide GivenAt;
    if j < k {
      GivenBy(es, j, k - 1, scope, m);
      assert m in Given(es, j, k, scope) <==> m in Given(es, j, k - 1, scope) || m in GivenAt(es, k - 1, scope);
    }
  }

  /** With fresh ids, what a scope held and what it was given since are different ids. */
  lemma HeldOrGivenOnce(es: seq<Event>, j: nat, k: nat, scope: Scope)
    requires j <= k <= |es| && Once(At(es, k).committed)
    ensures Once(HeldAt(es, j, scope) + Given(es, j, k, scope))
  {
    hide At, Given;
    CommittedSince(es, j, k);
    HeldWasCommitted(es, j);
    GivenWithinTable(es, j, k, scope);
    ScopeWithinTable(At(es, j).rows, scope);
    assert HeldAt(es, j, scope) + Given(es, j, k, scope) <= At(es, k).committed;
    OnceBelow(HeldAt(es, j, scope) + Given(es, j, k, scope), At(es, k).committed);
  }

  lemma OnceBelow(a: multiset<int>, b: multiset<int>)
    requires a <= b && Once(b)
    ensures Once(a)
  {
    forall m | m in a ensures a[m] == 1 {
      assert 1 <= a[m] <= b[m];
      assert m in b;
    }
  }

  /** Of distinct ids, as many are taken as given exactly when none of the held and all of the given are taken. */
  lemma BalanceOnce(end: multiset<int>, taken: multiset<int>, held: multiset<int>, given: multiset<int>)
    requires end + taken == held + given && Once(held + given)
    ensures taken == given <==> (forall m :: m in taken ==> m !in held) && (forall m :: m in given ==> m in taken)
  {
    forall m ensures (held + given)[m] <= 1 && taken[m] <= held[m] + given[m] {
      assert (end + taken)[m] == (held + given)[m];
    }
    if (forall m :: m in taken ==> m !in held) && (forall m :: m in given ==> m in taken) {
      forall m ensures taken[m] == given[m] {
        assert m in taken ==> taken[m] >= 1;
      }
    }
  }

  /**
   When no message id is committed twice, a deletion reports exactly what it deletes if and only
   if no call between its read and its delete disturbs the rows it selects.
   */
  lemma DeletionExactly(es: seq<Event>, j: nat, k: nat)
    requires k < |es| && es[k].Delete? && es[k].found != [] && ReadAt(es, k, j)
    requires Once(At(es, k).committed)
    ensures ExactAt(es, k) <==> Undisturbed(es, j, k, ScopeOf(es[k]))
  {
    var scope := ScopeOf(es[k]);
    DeletionBalances(es, j, k);
    UndisturbedBalances(es, j, k, scope);
  }

  lemma UndisturbedBalances(es: seq<Event>, j: nat, k: nat, scope: Scope)
    requires j <= k <= |es| && Once(At(es, k).committed)
    ensures Taken(es, j, k, scope) == Given(es, j, k, scope) <==> Undisturbed(es, j, k, scope)
  {
    hide Taken, Given, HeldAt, TakenAt, GivenAt, Once, At;
    Telescope(es, j, k, scope);
    HeldOrGivenOnce(es, j, k, scope);
    BalanceOnce(HeldAt(es, k, scope), Taken(es, j, k, scope), HeldAt(es, j, scope), Given(es, j, k, scope));
    forall m ensures m in Taken(es, j, k, scope) <==> TakenBetween(es, j, k, scope, m) {
      TakenBy(es, j, k, scope, m);
    }
    forall m ensures m in Given(es, j, k, scope) <==> GivenBetween(es, j, k, scope, m) {
      GivenBy(es, j, k, scope, m);
    }
  }

  lemma NoneWithin(rows: seq<Row>, scope: Scope)
    requires forall i :: 0 <= i < |rows| ==> !Within(rows[i], scope)
    ensures Ids(rows, scope) == multiset{}
  {
    if rows != [] {
      NoneWithin(rows[..|rows| - 1], scope);
    }
  }

  function AlbumOf(e: Event): string {
    match e
    case Replace(albumId, _, _, _) => albumId
    case Delete(album, _, _) => album
    case Save(part) => part.albumId
  }

  lemma OtherAlbum(l: Ledger, e: Event, album: string, which: Option<Codec>)
    requires AlbumOf(e) != album
    ensures Ids(TakenRows(l, e), Of(album, which)) == multiset{} == Ids(GivenRows(l, e), Of(album, which))
  {
    hide Ids, Members, Found, SameGroup, Matches, Insertable;
    var taken, given := TakenRows(l, e), GivenRows(l, e);
    forall i | 0 <= i < |taken| ensures taken[i].part.albumId == AlbumOf(e) {
      if e.Replace? {
        MembersInGroup(l.rows, e.albumId, e.codec, i);
      } else if e.Delete? {
        FoundSelected(l.rows, e.album, e.which, i);
      }
    }
    forall i | 0 <= i < |given| ensures given[i].part.albumId == AlbumOf(e) {
      assert e.Replace? ==> given[i].part == e.uploads[i] && WellAddressed(e.uploads[i], e.albumId, e.codec);
    }
    NoneWithin(taken, Of(album, which));
    NoneWithin(given, Of(album, which));
  }

  lemma {:induction false} NothingExchanged(es: seq<Event>, j: nat, k: nat, album: string, which: Option<Codec>)
    requires j <= k <= |es| && forall i :: j <= i < k ==> AlbumOf(es[i]) != album
    ensures Taken(es, j, k, Of(album, which)) == multiset{} == Given(es, j, k, Of(album, which))
    decreases k
  {
    hide At, TakenRows, GivenRows, Ids;
    if j < k {
      NothingExchanged(es, j, k - 1, album, which);
      OtherAlbum(At(es, k - 1), es[k - 1], album, which);
    }
  }

  /** Calls on other albums never make a deletion inexact, whatever ids they use. */
  lemma OtherAlbumsDoNotDisturb(es: seq<Event>, j: nat, k: nat)
    requires k < |es| && es[k].Delete? && es[k].found != [] && ReadAt(es, k, j)
    requires forall i :: j <= i < k ==> AlbumOf(es[i]) != es[k].album
    ensures ExactAt(es, k)
  {
    DeletionBalances(es, j, k);
    NothingExchanged(es, j, k, es[k].album, es[k].which);
  }

  // ---- The account of a whole run

  /**
   The `k`-th call keeps the account: a replacement, an upsert that does not overwrite another
   message id, or a deletion, read after `j` events, of nothing or of a selection from which the
   calls since then took the ids they gave to it.
   */
  ghost predicate Balances(es: seq<Event>, j: nat, k: nat)
    requires j <= k < |es|
  {
    match es[k]
    case Replace(_, _, _, _) => true
    case Save(part) => !Overwrites(At(es, k).rows, part)
    case Delete(_, _, found) => found == [] || Taken(es, j, k, ScopeOf(es[k])) == Given(es, j, k, ScopeOf(es[k]))
  }

  /** The same, with undisturbed rows for the deletion. */
  ghost predicate Keeps(es: seq<Event>, j: nat, k: nat)
    requires j <= k < |es|
  {
    match es[k]
    case Replace(_, _, _, _) => true
    case Save(part) => !Overwrites(At(es, k).rows, part)
    case Delete(_, _, found) => found == [] || Undisturbed(es, j, k, ScopeOf(es[k]))
  }

  lemma SaveReports(l: Ledger, part: Upload)
    ensures Reported(l, Save(part)) == Ids(TakenRows(l, Save(part)), Table) <==> !Overwrites(l.rows, part)
  {
    hide Ids, Saves, KeyAt;
    NoIds(Table);
    if Overwrites(l.rows, part) {
      var row := l.rows[KeyAt(l.rows, part)];
      IdsOne(row, Table);
      assert row.part.messageId in IdOf(row, Table);
    }
  }

  lemma NothingFound(l: Ledger, e: Event)
    requires e.Delete? && e.found == []
    ensures Reported(l, e) == Ids(TakenRows(l, e), Table)
  {
  }

  lemma StepKeepsExactly(es: seq<Event>, j: nat, k: nat)
    requires j <= k < |es| && ReadAt(es, k, j) && Conserved(At(es, k))
    ensures Conserved(At(es, k + 1)) <==> Balances(es, j, k)
  {
    hide Conserved, Taken, Given, Overwrites, TakenRows, Ids, At;
    Next(es, k);
    StepConserves(At(es, k), es[k]);
    match es[k]
    case Replace(_, _, _, _) =>
    case Save(part) => SaveReports(At(es, k), part);
    case Delete(_, _, found) =>
      if found == [] {
        NothingFound(At(es, k), es[k]);
      } else {
        DeletionBalances(es, j, k);
      }
  }

  lemma FreshBalances(es: seq<Event>, j: nat, k: nat)
    requires j <= k < |es| && Once(At(es, k).committed)
    ensures Balances(es, j, k) <==> Keeps(es, j, k)
  {
    hide Taken, Given, Once, Undisturbed, Overwrites, At;
    UndisturbedBalances(es, j, k, ScopeOf(es[k]));
  }

  lemma OnceBefore(es: seq<Event>, j: nat, k: nat)
    requires j <= k <= |es| && Once(At(es, k).committed)
    ensures Once(At(es, j).committed)
  {
    hide At, Once;
    CommittedSince(es, j, k);
    OnceBelow(At(es, j).committed, At(es, k).committed);
  }

  ghost predicate ConservedUpTo(es: seq<Event>, n: nat)
    requires n <= |es|
  {
    forall k :: 0 <= k <= n ==> Conserved(At(es, k))
  }

  ghost predicate BalancesUpTo(es: seq<Event>, seen: seq<nat>, n: nat)
    requires n <= |es| == |seen| && forall k :: 0 <= k < |es| ==> seen[k] <= k
  {
    forall k :: 0 <= k < n ==> Balances(es, seen[k], k)
  }

  ghost predicate KeepsUpTo(es: seq<Event>, seen: seq<nat>, n: nat)
    requires n <= |es| == |seen| && forall k :: 0 <= k < |es| ==> seen[k] <= k
  {
    forall k :: 0 <= k < n ==> Keeps(es, seen[k], k)
  }

  lemma ConservedAtStart(es: seq<Event>)
    ensures Conserved(At(es, 0))
  {
    AtNone(es);
    NoIds(Table);
  }

  /**
   From an empty table, when each deletion's rows were read after `seen[k]` events, no id is ever
   lost or reported twice if and only if no upsert overwrites one and every deletion's selection
   was taken from, since its read, exactly what it was given.
   */
  lemma {:induction false} RunConserves(es: seq<Event>, seen: seq<nat>, n: nat)
    requires n <= |es| == |seen|
    requires forall k :: 0 <= k < |es| ==> seen[k] <= k && ReadAt(es, k, seen[k])
    ensures ConservedUpTo(es, n) <==> BalancesUpTo(es, seen, n)
  {
    hide Conserved, Balances, At, ReadAt;
    if n == 0 {
      ConservedAtStart(es);
    } else {
      RunConserves(es, seen, n - 1);
      if Conserved(At(es, n - 1)) {
        StepKeepsExactly(es, seen[n - 1], n - 1);
      }
    }
  }

  /** The same when no message id is committed twice: no deletion is disturbed. */
  lemma RunConservesExactly(es: seq<Event>, seen: seq<nat>, n: nat)
    requires n <= |es| == |seen| && Once(At(es, n).committed)
    requires forall k :: 0 <= k < |es| ==> seen[k] <= k && ReadAt(es, k, seen[k])
    ensures ConservedUpTo(es, n) <==> KeepsUpTo(es, seen, n)
  {
    hide ConservedUpTo, Once, Balances, Keeps, At, ReadAt;
    RunConserves(es, seen, n);
    forall k | 0 <= k < n ensures Balances(es, seen[k], k) <==> Keeps(es, seen[k], k) {
      OnceBefore(es, k, n);
      FreshBalances(es, seen[k], k);
    }
  }

  /** Replacements alone always keep the account, whatever ids they use. */
  lemma ReplacementsConserve(es: seq<Event>)
    requires forall k :: 0 <= k < |es| ==> es[k].Replace?
    ensures Conserved(Run(es))
  {
    hide Conserved, Run;
    RunConserves(es, seq(|es|, _ => 0), |es|);
    assert Conserved(At(es, |es|));
    assert es[..|es|] == es;
  }

  // ---- Runs that lose an id

  lemma RunOne(e: Event)
    ensures Run([e]) == Step(EMPTY_LEDGER, e)
  {
    assert [e][..0] == [];
  }

  lemma RunTwo(first: Event, second: Event)
    ensures Run([first, second]) == Step(Run([first]), second)
  {
    hide Step;
    assert [first, second][..1] == [first];
  }

  lemma RunThree(first: Event, second: Event, third: Event)
    ensures Run([first, second, third]) == Step(Run([first, second]), third)
  {
    hide Step;
    assert [first, second, third][..2] == [first, second];
  }

  lemma SaveCommits(l: Ledger, part: Upload)
    requires Saves(l.rows, part) && !Resaves(l.rows, part)
    ensures Step(l, Save(part)).committed == l.committed + multiset{part.messageId}
  {
    hide Ids, Saves, Resaves;
    IdsOne(SavedRow(l.rows, l.nextId, part), Table);
  }

  lemma FirstSave(a: Upload)
    requires Checked(a) && a.messageId <= I32_MAX
    ensures var l := Run([Save(a)]);
            l.rows == [Row(1, a)] && l.nextId == 2 && l.committed == multiset{a.messageId} && Conserved(l)
  {
    RunOne(Save(a));
    ConservedAtStart([]);
    StepConserves(EMPTY_LEDGER, Save(a));
    SaveReports(EMPTY_LEDGER, a);
    SaveCommits(EMPTY_LEDGER, a);
  }

  /** An upsert over a row with another message id loses that id: nothing is reported. */
  lemma UpsertLosesAnId() returns (es: seq<Event>)
    ensures Once(Run(es).committed) && (forall k :: 0 <= k < |es| ==> es[k].Save?) && !Conserved(Run(es))
  {
    hide Ids, Conserved, Run;
    var a := Upload("1", Alac, 1, 1, 10, "a", 5, "g");
    var b := Upload("1", Alac, 1, 1, 11, "b", 5, "g");
    es := [Save(a), Save(b)];
    FirstSave(a);
    RunTwo(Save(a), Save(b));
    OverwriteLoses(Run([Save(a)]), Row(1, a), b);
  }

  lemma OverwriteLoses(l: Ledger, row: Row, part: Upload)
    requires Conserved(l) && l.rows == [row] && SameKey(row.part, part)
    requires Checked(part) && part.messageId <= I32_MAX && part.messageId != row.part.messageId
    ensures !Conserved(Step(l, Save(part)))
    ensures Step(l, Save(part)).committed == l.committed + multiset{part.messageId}
  {
    hide Ids, Conserved, Step;
    StepConserves(l, Save(part));
    SaveReports(l, part);
    SaveCommits(l, part);
  }

  lemma CommitOverOne(a: Upload, b: Upload)
    requires Checked(b) && WellAddressed(a, a.albumId, Alac) && WellAddressed(b, a.albumId, Alac)
    ensures Commits([Row(1, a)], a.albumId, Alac, Generation(a.generation), [b])
    ensures After([Row(1, a)], 2, a.albumId, Alac, Generation(a.generation), [b]) == [Row(2, b)]
  {
    OneMember(Row(1, a), a.albumId, Alac);
    assert Insertable([], [b]);
    assert Inserted(2, [b]) == [Row(2, b)];
  }

  lemma OneMember(row: Row, albumId: string, codec: Codec)
    requires InGroup(row, albumId, codec)
    ensures Members([row], albumId, codec) == [row] && Others([row], albumId, codec) == []
  {
    assert [row][..0] == [];
    assert Members([], albumId, codec) == [] && Others([], albumId, codec) == [];
  }

  lemma OneFound(row: Row)
    ensures Found([row], row.part.albumId, None) == [row]
  {
    assert [row][..0] == [];
    assert Found([], row.part.albumId, None) == [];
  }

  /** A replacement between a deletion's read and its delete makes the new id vanish unreported. */
  lemma StaleDeleteLosesAnId() returns (es: seq<Event>)
    ensures |es| == 3 && ReadAt(es, 2, 1) && Conserved(At(es, 2)) && !Conserved(At(es, 3))
  {
    hide Run, Step, Conserved, Found;
    var a := Upload("1", Alac, 1, 1, 10, "a", 5, "g");
    var b := Upload("1", Alac, 1, 1, 11, "b", 5, "h");
    var first, second := Save(a), Replace("1", Alac, Generation("g"), [b]);
    var del := Delete("1", None, [Row(1, a)]);
    es := [first, second, del];
    assert es[..1] == [first] && es[..2] == [first, second] && es[..3] == es;
    OneFound(Row(1, a));
    SavedThenReplaced(a, b, first, second);
    RunThree(first, second, del);
    LostByDelete(Run([first, second]), a, b);
  }

  lemma SavedThenReplaced(a: Upload, b: Upload, first: Event, second: Event)
    requires Checked(a) && Checked(b) && WellAddressed(a, a.albumId, Alac) && WellAddressed(b, a.albumId, Alac)
    requires first == Save(a) && second == Replace(a.albumId, Alac, Generation(a.generation), [b])
    ensures Run([first]).rows == [Row(1, a)]
    ensures Run([first, second]).rows == [Row(2, b)] && Conserved(Run([first, second]))
  {
    hide Run, Ids, Commits, After, Conserved;
    FirstSave(a);
    CommitOverOne(a, b);
    RunTwo(first, second);
    StepConserves(Run([first]), second);
  }

  lemma LostByDelete(l: Ledger, a: Upload, b: Upload)
    requires Conserved(l) && l.rows == [Row(2, b)] && a.albumId == b.albumId && a.messageId != b.messageId
    ensures !Conserved(Step(l, Delete(a.albumId, None, [Row(1, a)])))
  {
    hide Ids;
    OneFound(Row(2, b));
    IdsOne(Row(1, a), Table);
    IdsOne(Row(2, b), Table);
    assert a.messageId in IdOf(Row(1, a), Table) && a.messageId !in IdOf(Row(2, b), Table);
    StepConserves(l, Delete(a.albumId, None, [Row(1, a)]));
  }

  // ---- Invariants of every run

  /** In every run keys and files are unique and the checks hold. */
  lemma {:induction false} RunIsUnique(es: seq<Event>)
    ensures Unique(Run(es).rows)
  {
    hide Unique, Ids;
    if es == [] {
      assert Unique([]) by { NoneClash(); }
    } else {
      RunIsUnique(es[..|es| - 1]);
      StepKeepsUnique(Run(es[..|es| - 1]), es[|es| - 1]);
    }
  }

  lemma NoneClash()
    ensures Unique([]) && Renditions([])
  {
  }

  lemma StepKeepsUnique(l: Ledger, e: Event)
    requires Unique(l.rows)
    ensures Unique(Step(l, e).rows)
  {
    hide Unique, Ids, After, Saved;
    match e
    case Replace(albumId, codec, expected, uploads) =>
      ReplaceKeepsUnique(l.rows, l.nextId, albumId, codec, expected, uploads);
    case Delete(album, which, _) => DeleteKeepsUnique(l.rows, album, which);
    case Save(part) => SaveKeepsUnique(l.rows, l.nextId, part);
  }

  predicate MixesAt(es: seq<Event>, k: nat)
    requires k < |es|
  {
    es[k].Save? && Mixes(At(es, k).rows, es[k].part)
  }

  ghost predicate RenditionsUpTo(es: seq<Event>, n: nat)
    requires n <= |es|
  {
    forall k :: 0 <= k <= n ==> Renditions(At(es, k).rows)
  }

  ghost predicate NeverMixes(es: seq<Event>, n: nat)
    requires n <= |es|
  {
    forall k :: 0 <= k < n ==> !MixesAt(es, k)
  }

  lemma StepRenditions(l: Ledger, e: Event)
    requires Renditions(l.rows)
    ensures Renditions(Step(l, e).rows) <==> !(e.Save? && Mixes(l.rows, e.part))
  {
    hide Renditions, Ids, After, Saved, Mixes;
    match e
    case Replace(albumId, codec, expected, uploads) =>
      ReplaceKeepsRenditions(l.rows, l.nextId, albumId, codec, expected, uploads);
    case Delete(album, which, _) => DeleteKeepsRenditions(l.rows, album, which);
    case Save(part) => SaveRenditions(l.rows, l.nextId, part);
  }

  /** No album ever has both ALAC and AAC rows if and only if no upsert puts one beside the other. */
  lemma {:induction false} RunRenditions(es: seq<Event>, n: nat)
    requires n <= |es|
    ensures RenditionsUpTo(es, n) <==> NeverMixes(es, n)
  {
    hide Renditions, At, Step, Mixes;
    if n == 0 {
      AtNone(es);
      NoneClash();
    } else {
      RunRenditions(es, n - 1);
      Next(es, n - 1);
      if Renditions(At(es, n - 1).rows) {
        StepRenditions(At(es, n - 1), es[n - 1]);
        assert Renditions(At(es, n).rows) <==> !MixesAt(es, n - 1);
      }
      assert RenditionsUpTo(es, n) <==> RenditionsUpTo(es, n - 1) && Renditions(At(es, n).rows);
      assert NeverMixes(es, n) <==> NeverMixes(es, n - 1) && !MixesAt(es, n - 1);
    }
  }

  /** Two upserts leave an album with both renditions. */
  lemma UpsertsMixRenditions() returns (es: seq<Event>)
    ensures !Renditions(Run(es).rows)
  {
    var a := Upload("1", Alac, 1, 1, 10, "a", 5, "g");
    var b := Upload("1", Aac, 1, 1, 11, "b", 5, "h");
    es := [Save(a), Save(b)];
    hide Run, Step, Renditions;
    FirstSave(a);
    RunTwo(Save(a), Save(b));
    OneRow(Row(1, a));
    assert !OneRendition(a, b);
    StepRenditions(Run([Save(a)]), Save(b));
  }

  lemma OneRow(row: Row)
    ensures Renditions([row])
  {
  }

  // ---- First uploads

  /** An event that may leave the group empty: a commit of nothing to it, or a deletion that selects from it. */
  predicate Emptying(l: Ledger, e: Event, albumId: string, codec: Codec) {
    match e
    case Replace(a, c, expected, uploads) =>
      Commits(l.rows, a, c, expected, uploads) && uploads == [] && a == albumId && SameGroup(c, codec)
    case Delete(a, which, found) => found != [] && a == albumId && (which.Some? ==> SameGroup(which.value, codec))
    case Save(_) => false
  }

  lemma StaysFilled(l: Ledger, e: Event, albumId: string, codec: Codec)
    requires Members(l.rows, albumId, codec) != [] && !Emptying(l, e, albumId, codec)
    ensures Members(Step(l, e).rows, albumId, codec) != []
  {
    match e
    case Replace(a, c, expected, uploads) =>
      ReplaceIsLocal(l.rows, l.nextId, a, c, expected, uploads, albumId, codec);
    case Delete(a, which, found) =>
      if found != [] {
        RemainingMembers(l.rows, albumId, codec, a, which);
      }
    case Save(part) => SaveKeepsFilled(l.rows, l.nextId, part, albumId, codec);
  }

  /** The `k`-th event of the run commits to the group. */
  predicate CommitsAt(es: seq<Event>, k: nat, albumId: string, codec: Codec)
    requires k < |es|
  {
    && es[k].Replace? && es[k].albumId == albumId && SameGroup(es[k].codec, codec)
    && Commits(At(es, k).rows, es[k].albumId, es[k].codec, es[k].expected, es[k].uploads)
  }

  predicate EmptyingAt(es: seq<Event>, k: nat, albumId: string, codec: Codec)
    requires k < |es|
  {
    Emptying(At(es, k), es[k], albumId, codec)
  }

  /** The group has rows after the first `k` events. */
  predicate FilledAt(es: seq<Event>, k: nat, albumId: string, codec: Codec)
    requires k <= |es|
  {
    Members(At(es, k).rows, albumId, codec) != []
  }

  lemma FilledByCommit(l: Ledger, e: Event, albumId: string, codec: Codec)
    requires e.Replace? && e.albumId == albumId && SameGroup(e.codec, codec) && e.uploads != []
    requires Commits(l.rows, e.albumId, e.codec, e.expected, e.uploads)
    ensures Members(Step(l, e).rows, albumId, codec) != []
  {
    ReplaceIsLocal(l.rows, l.nextId, e.albumId, e.codec, e.expected, e.uploads, albumId, codec);
  }

  lemma FilledAfter(es: seq<Event>, i: nat, albumId: string, codec: Codec)
    requires i < |es| && CommitsAt(es, i, albumId, codec) && es[i].uploads != []
    ensures FilledAt(es, i + 1, albumId, codec)
  {
    Next(es, i);
    FilledByCommit(At(es, i), es[i], albumId, codec);
  }

  lemma StaysFilledAt(es: seq<Event>, k: nat, albumId: string, codec: Codec)
    requires k < |es| && FilledAt(es, k, albumId, codec) && !EmptyingAt(es, k, albumId, codec)
    ensures FilledAt(es, k + 1, albumId, codec)
  {
    Next(es, k);
    StaysFilled(At(es, k), es[k], albumId, codec);
  }

  /** Between a point where the group has rows and one where it has none, an event takes away the last. */
  lemma {:induction false} LastFilled(es: seq<Event>, i: nat, j: nat, albumId: string, codec: Codec) returns (k: nat)
    requires i <= j <= |es| && FilledAt(es, i, albumId, codec) && !FilledAt(es, j, albumId, codec)
    ensures i <= k < j && FilledAt(es, k, albumId, codec) && !FilledAt(es, k + 1, albumId, codec)
    decreases j
  {
    hide FilledAt;
    if FilledAt(es, j - 1, albumId, codec) {
      k := j - 1;
    } else {
      k := LastFilled(es, i, j - 1, albumId, codec);
    }
  }

  lemma EmptyForCommit(es: seq<Event>, j: nat, albumId: string, codec: Codec)
    requires j < |es| && CommitsAt(es, j, albumId, codec) && es[j].expected == Empty
    ensures !FilledAt(es, j, albumId, codec)
  {
    SameMembers(At(es, j).rows, albumId, codec, es[j].codec);
  }

  /**
   Two uploads that both expect an empty group cannot both commit unless some event between them
   takes away its last rows: a commit of nothing, or a deletion that selects from it.
   */
  lemma NoTwoFirstUploads(es: seq<Event>, i: nat, j: nat, albumId: string, codec: Codec) returns (k: nat)
    requires i < j < |es| && CommitsAt(es, i, albumId, codec) && CommitsAt(es, j, albumId, codec)
    requires es[i].uploads != [] && es[j].expected == Empty
    ensures i < k < j && FilledAt(es, k, albumId, codec) && !FilledAt(es, k + 1, albumId, codec)
    ensures EmptyingAt(es, k, albumId, codec)
  {
    hide FilledAt, EmptyingAt, CommitsAt;
    EmptyForCommit(es, j, albumId, codec);
    FilledAfter(es, i, albumId, codec);
    k := LastFilled(es, i + 1, j, albumId, codec);
    if !EmptyingAt(es, k, albumId, codec) {
      StaysFilledAt(es, k, albumId, codec);
    }
  }

  // ---- Lost updates

  /** After `k` events the group is not empty and all of generation `hash`. */
  ghost predicate OnlyAt(es: seq<Event>, k: nat, albumId: string, codec: Codec, hash: string)
    requires k <= |es|
  {
    AsExpected(At(es, k).rows, albumId, codec, Generation(hash))
  }

  lemma SameBelongs(row: Row, albumId: string, a: Codec, b: Codec)
    requires SameGroup(a, b)
    ensures Belongs(row, albumId, a) <==> Belongs(row, albumId, b)
  {
  }

  lemma SameExpected(rows: seq<Row>, albumId: string, a: Codec, b: Codec, expected: Expectation)
    requires SameGroup(a, b)
    ensures AsExpected(rows, albumId, a, expected) <==> AsExpected(rows, albumId, b, expected)
  {
    hide Belongs;
    forall x ensures Belongs(x, albumId, a) <==> Belongs(x, albumId, b) {
      SameBelongs(x, albumId, a, b);
    }
  }

  /** A commit of an upload of another generation leaves the group not all of `hash`. */
  lemma OtherGeneration(l: Ledger, e: Event, u: nat, codec: Codec, hash: string)
    requires e.Replace? && Commits(l.rows, e.albumId, e.codec, e.expected, e.uploads) && SameGroup(e.codec, codec)
    requires u < |e.uploads| && e.uploads[u].generation != hash
    ensures !AsExpected(Step(l, e).rows, e.albumId, codec, Generation(hash))
  {
    hide Members, Others, Insertable, Matches;
    var rows, others := Step(l, e).rows, Others(l.rows, e.albumId, e.codec);
    var x := Row(l.nextId + u, e.uploads[u]);
    assert WellAddressed(e.uploads[u], e.albumId, e.codec);
    assert rows == others + Inserted(l.nextId, e.uploads);
    assert rows[|others| + u] == x;
    assert x in rows && Belongs(x, e.albumId, codec);
  }

  lemma {:induction false} FirstOnly(es: seq<Event>, i: nat, j: nat, albumId: string, codec: Codec, hash: string)
    returns (k: nat)
    requires i <= j <= |es| && !OnlyAt(es, i, albumId, codec, hash) && OnlyAt(es, j, albumId, codec, hash)
    ensures i <= k < j && !OnlyAt(es, k, albumId, codec, hash) && OnlyAt(es, k + 1, albumId, codec, hash)
    decreases j
  {
    hide OnlyAt;
    if !OnlyAt(es, j - 1, albumId, codec, hash) {
      k := j - 1;
    } else {
      k := FirstOnly(es, i, j - 1, albumId, codec, hash);
    }
  }

  /**
   No update is lost: when one commit to a group brings in another generation and a later commit
   expects generation `hash`, some event between them makes the group all of `hash` again.
   */
  lemma NoLostUpdate(es: seq<Event>, i: nat, j: nat, albumId: string, codec: Codec, hash: string, u: nat)
    returns (k: nat)
    requires i < j < |es| && CommitsAt(es, i, albumId, codec) && CommitsAt(es, j, albumId, codec)
    requires u < |es[i].uploads| && es[i].uploads[u].generation != hash && es[j].expected == Generation(hash)
    ensures i < k < j && !OnlyAt(es, k, albumId, codec, hash) && OnlyAt(es, k + 1, albumId, codec, hash)
  {
    hide At, Step, AsExpected, Commits;
    Next(es, i);
    OtherGeneration(At(es, i), es[i], u, codec, hash);
    OutcomeExactly(At(es, j).rows, es[j].albumId, es[j].codec, es[j].expected, es[j].uploads);
    SameExpected(At(es, j).rows, albumId, es[j].codec, codec, Generation(hash));
    k := FirstOnly(es, i + 1, j, albumId, codec, hash);
  }
}
