/**
 Login codes, sessions and the token cache, from crates/db/src/session.rs and
 crates/server/src/auth.rs: one call as one step. A token stands for its own hash.
 */
module Sessions {
  import opened Prelude
  import opened Text

  const CODE_SECS: nat := 300
  const SESSION_SECS: nat := 259200
  const CACHE_SECS: nat := 60

  datatype Code = Code(user: int, expires: nat)

  datatype Session = Session(id: string, user: int, expires: nat, revoked: bool)

  datatype Cached = Cached(user: int, id: string, at: nat)

  /** Sessions are filed under their trimmed token, as its hash is. */
  datatype Store = Store(
    users: set<int>, admin: int, codes: map<string, Code>, sessions: map<string, Session>, cache: map<string, Cached>)

  datatype AuthError = Unauthorized | Validation | UniqueViolation

  // ---- The calls as functions of the store

  predicate Authorized(s: Store, user: int) {
    user == s.admin || user in s.users
  }

  function CodesFor(s: Store, user: int, now: nat): map<string, Code> {
    map c | c in s.codes && s.codes[c].user != user && s.codes[c].expires >= now :: s.codes[c]
  }

  /** `create_login_code`; its statements are not one transaction, so a clash keeps the deletions. */
  function WithCode(s: Store, now: nat, user: int, newCode: string): Store {
    if !Authorized(s, user) then s
    else
      var known := if user == s.admin then s.(users := s.users + {user}) else s;
      var codes := CodesFor(s, user, now);
      known.(codes := if newCode in codes then codes else codes[newCode := Code(user, now + CODE_SECS)])
  }

  function CodeResult(s: Store, now: nat, user: int, newCode: string): Result<string, AuthError> {
    if !Authorized(s, user) then Err(Unauthorized)
    else if newCode in CodesFor(s, user, now) then Err(UniqueViolation)
    else Ok(newCode)
  }

  predicate Redeemable(s: Store, now: nat, code: string) {
    code in s.codes && s.codes[code].expires > now
  }

  /** What `exchange_code` reads first: the code, if it is open. */
  function ReadCode(s: Store, now: nat, code: string): Option<Code> {
    if Redeemable(s, now, code) then Some(s.codes[code]) else None
  }

  predicate Redeems(s: Store, found: Option<Code>) {
    found.Some? && Authorized(s, found.value.user)
  }

  /** The rest of `exchange_code`, given what it read, and the cache entry its handler adds. */
  function WithExchange(s: Store, now: nat, code: string, found: Option<Code>, token: string, id: string): Store {
    if found.None? then s
    else if !Authorized(s, found.value.user) then s.(codes := s.codes - {code})
    else
      var user := found.value.user;
      s.(codes := s.codes - {code},
         sessions := s.sessions[token := Session(id, user, now + SESSION_SECS, false)],
         cache := s.cache[token := Cached(user, id, now)])
  }

  /** A session that is there, not revoked and not expired. */
  predicate Standing(s: Store, now: nat, token: string) {
    token in s.sessions && !s.sessions[token].revoked && s.sessions[token].expires > now
  }

  predicate Verifies(s: Store, now: nat, token: string) {
    Standing(s, now, token) && Authorized(s, s.sessions[token].user)
  }

  /** `verify_and_slide`: push the expiry out, or revoke the session of a user no longer known. */
  function Slid(s: Store, now: nat, token: string): Store {
    if !Standing(s, now, token) then s
    else if !Authorized(s, s.sessions[token].user) then
      s.(sessions := s.sessions[token := s.sessions[token].(revoked := true)])
    else s.(sessions := s.sessions[token := s.sessions[token].(expires := now + SESSION_SECS)])
  }

  predicate CacheHit(s: Store, now: nat, token: string) {
    token in s.cache && now < s.cache[token].at + CACHE_SECS
  }

  predicate Accepts(s: Store, now: nat, raw: string) {
    CacheHit(s, now, Trim(raw)) || Verifies(s, now, Trim(raw))
  }

  /** Whom an accepted request is taken to be from: the cached identity, else that of the session. */
  function Identity(s: Store, now: nat, raw: string): (int, string)
    requires Accepts(s, now, raw)
  {
    var token := Trim(raw);
    if CacheHit(s, now, token) then (s.cache[token].user, s.cache[token].id)
    else (s.sessions[token].user, s.sessions[token].id)
  }

  /** Verify `raw` against the store and, on success, cache it under `key`. */
  function Admitted(s: Store, now: nat, raw: string, key: string): Store {
    var token := Trim(raw);
    var slid := Slid(s, now, token);
    if Verifies(s, now, token)
    then slid.(cache := slid.cache[key := Cached(s.sessions[token].user, s.sessions[token].id, now)])
    else slid
  }

  /** The request extractor: the cache first. */
  function WithRequest(s: Store, now: nat, raw: string): Store {
    if CacheHit(s, now, Trim(raw)) then s else Admitted(s, now, raw, Trim(raw))
  }

  /** `logout` of a token in the body: the cache is cleared of the text as given. */
  function WithLogout(s: Store, raw: string): Store {
    var token := Trim(raw);
    s.(cache := s.cache - {raw},
       sessions := if token in s.sessions then s.sessions[token := s.sessions[token].(revoked := true)] else s.sessions)
  }

  function WithLogoutAll(s: Store, user: int): Store {
    s.(cache := map[],
       sessions := map t | t in s.sessions ::
         if s.sessions[t].user == user then s.sessions[t].(revoked := true) else s.sessions[t])
  }

  function Purged(s: Store, now: nat): Store {
    s.(sessions := map t | t in s.sessions && s.sessions[t].expires >= now && !s.sessions[t].revoked :: s.sessions[t])
  }

  function PurgedCodes(s: Store, now: nat): Store {
    s.(codes := map c | c in s.codes && s.codes[c].expires >= now :: s.codes[c])
  }

  function WithUser(s: Store, user: int): Store {
    s.(users := s.users + {user})
  }

  /** Removing a user takes their codes and sessions along. */
  function WithoutUser(s: Store, user: int): Store {
    s.(users := s.users - {user},
       codes := map c | c in s.codes && s.codes[c].user != user :: s.codes[c],
       sessions := map t | t in s.sessions && s.sessions[t].user != user :: s.sessions[t])
  }

  // ---- The server's state in place

  class AuthServer {
    var users: set<int>
    const admin: int
    var codes: map<string, Code>
    var sessions: map<string, Session>
    var cache: map<string, Cached>

    constructor (admin: int)
      ensures Value() == Store({}, admin, map[], map[], map[])
    {
      this.admin := admin;
      users, codes, sessions, cache := {}, map[], map[], map[];
    }

    function Value(): Store
      reads this
    {
      Store(users, admin, codes, sessions, cache)
    }

    method CreateLoginCode(now: nat, user: int, newCode: string) returns (r: Result<string, AuthError>)
      modifies this`users, this`codes
      ensures Value() == WithCode(old(Value()), now, user, newCode)
      ensures r == CodeResult(old(Value()), now, user, newCode)
      ensures r == Err(Unauthorized) <==> user != admin && user !in old(users)
      ensures r == Err(Unauthorized) ==> codes == old(codes)
      ensures r.Ok? ==> r.value == newCode && newCode in codes && codes[newCode] == Code(user, now + 300)
      ensures r != Err(Unauthorized) ==> forall c :: c in codes && (r.Ok? ==> c != newCode) <==>
                c in old(codes) && old(codes)[c].user != user && old(codes)[c].expires >= now
                  && (r.Ok? ==> c != newCode)
      ensures users == if user == admin then old(users) + {user} else old(users)
    {
      if user == admin {
        users := users + {user};
      } else if user !in users {
        return Err(Unauthorized);
      }
      codes := map c | c in codes && codes[c].user != user && codes[c].expires >= now :: codes[c];
      if newCode in codes {
        return Err(UniqueViolation);
      }
      codes := codes[newCode := Code(user, now + CODE_SECS)];
      return Ok(newCode);
    }

    /** An exchange with no other call between its read of the code and the rest. */
    method Exchange(now: nat, code: string, token: string, id: string) returns (r: Result<int, AuthError>)
      modifies this`codes, this`sessions, this`cache
      ensures Value() == WithExchange(old(Value()), now, code, ReadCode(old(Value()), now, code), token, id)
      ensures r.Ok? <==> Redeems(old(Value()), ReadCode(old(Value()), now, code))
      ensures r.Ok? ==> r.value == old(codes)[code].user
      ensures r == Err(Validation) <==> code !in old(codes) || old(codes)[code].expires <= now
      ensures r == Err(Unauthorized) ==> old(codes)[code].user != admin && old(codes)[code].user !in users
      ensures r == Err(Validation) ==> Value() == old(Value())
      ensures r != Err(Validation) ==> codes == old(codes) - {code}
      ensures r.Ok? ==>
                && sessions == old(sessions)[token := Session(id, r.value, now + 259200, false)]
                && cache == old(cache)[token := Cached(r.value, id, now)]
      ensures r.Err? ==> sessions == old(sessions) && cache == old(cache)
    {
      if code !in codes || codes[code].expires <= now {
        return Err(Validation);
      }
      var user := codes[code].user;
      codes := codes - {code};
      if user != admin && user !in users {
        return Err(Unauthorized);
      }
      sessions := sessions[token := Session(id, user, now + SESSION_SECS, false)];
      cache := cache[token := Cached(user, id, now)];
      return Ok(user);
    }

    method VerifyAndSlide(now: nat, raw: string) returns (r: Result<(int, string), AuthError>)
      modifies this`sessions
      ensures Value() == Slid(old(Value()), now, Trim(raw))
      ensures r.Ok? <==> Verifies(old(Value()), now, Trim(raw))
      ensures r.Ok? ==> r.value == (old(sessions)[Trim(raw)].user, old(sessions)[Trim(raw)].id)
      ensures r.Ok? ==>
                && !old(sessions)[Trim(raw)].revoked && old(sessions)[Trim(raw)].expires > now
                && (r.value.0 == admin || r.value.0 in users)
                && sessions == old(sessions)[Trim(raw) := Session(r.value.1, r.value.0, now + 259200, false)]
    {
      var token := Trim(raw);
      if token !in sessions || sessions[token].revoked {
        return Err(Unauthorized);
      }
      var session := sessions[token];
      if session.expires <= now {
        return Err(Unauthorized);
      }
      if session.user != admin && session.user !in users {
        sessions := sessions[token := session.(revoked := true)];
        return Err(Unauthorized);
      }
      sessions := sessions[token := session.(expires := now + SESSION_SECS)];
      return Ok((session.user, session.id));
    }

    method Request(now: nat, raw: string) returns (r: Result<(int, string), AuthError>)
      modifies this`sessions, this`cache
      ensures Value() == WithRequest(old(Value()), now, raw)
      ensures r.Ok? <==> Accepts(old(Value()), now, raw)
      ensures r.Ok? ==>
                var token := Trim(raw);
                if token in old(cache) && now < old(cache)[token].at + 60
                then r.value == (old(cache)[token].user, old(cache)[token].id)
                else token in old(sessions) && r.value == (old(sessions)[token].user, old(sessions)[token].id)
      ensures r.Ok? ==> r.value == Identity(old(Value()), now, raw)
    {
      var token := Trim(raw);
      if token in cache && now < cache[token].at + CACHE_SECS {
        return Ok((cache[token].user, cache[token].id));
      }
      r := VerifyAndSlide(now, raw);
      if r.Ok? {
        cache := cache[token := Cached(r.value.0, r.value.1, now)];
      }
    }

    method Refresh(now: nat, raw: string) returns (r: Result<(int, string), AuthError>)
      modifies this`sessions, this`cache
      ensures Value() == Admitted(old(Value()), now, raw, raw)
      ensures r.Ok? <==> Verifies(old(Value()), now, Trim(raw))
      ensures r.Ok? ==>
                && r.value == (old(sessions)[Trim(raw)].user, old(sessions)[Trim(raw)].id)
                && cache == old(cache)[raw := Cached(r.value.0, r.value.1, now)]
    {
      r := VerifyAndSlide(now, raw);
      if r.Ok? {
        cache := cache[raw := Cached(r.value.0, r.value.1, now)];
      }
    }

    method Logout(raw: string)
      modifies this`sessions, this`cache
      ensures Value() == WithLogout(old(Value()), raw)
      ensures raw !in cache && (Trim(raw) in sessions ==> sessions[Trim(raw)].revoked)
      ensures forall t :: t != Trim(raw) ==>
                (t in sessions <==> t in old(sessions)) && (t in sessions ==> sessions[t] == old(sessions)[t])
      ensures forall c :: c != raw ==> (c in cache <==> c in old(cache)) && (c in cache ==> cache[c] == old(cache)[c])
    {
      cache := cache - {raw};
      var token := Trim(raw);
      if token in sessions {
        sessions := sessions[token := sessions[token].(revoked := true)];
      }
    }

    method LogoutAll(user: int)
      modifies this`sessions, this`cache
      ensures Value() == WithLogoutAll(old(Value()), user)
      ensures cache == map[] && sessions.Keys == old(sessions).Keys
      ensures forall t :: t in sessions ==>
                var before := old(sessions)[t];
                sessions[t] == if before.user == user then before.(revoked := true) else before
    {
      cache := map[];
      sessions := map t | t in sessions ::
        if sessions[t].user == user then sessions[t].(revoked := true) else sessions[t];
    }

    method PurgeExpiredSessions(now: nat)
      modifies this`sessions
      ensures Value() == Purged(old(Value()), now)
      ensures forall t :: t in sessions <==>
                t in old(sessions) && now <= old(sessions)[t].expires && !old(sessions)[t].revoked
      ensures forall t :: t in sessions ==> sessions[t] == old(sessions)[t]
    {
      sessions := map t | t in sessions && sessions[t].expires >= now && !sessions[t].revoked :: sessions[t];
    }

    method PurgeExpiredCodes(now: nat)
      modifies this`codes
      ensures Value() == PurgedCodes(old(Value()), now)
      ensures forall c :: c in codes <==> c in old(codes) && now <= old(codes)[c].expires
      ensures forall c :: c in codes ==> codes[c] == old(codes)[c]
    {
      codes := map c | c in codes && codes[c].expires >= now :: codes[c];
    }

    /** `authorize`: whether the user is new. */
    method AddUser(user: int) returns (added: bool)
      modifies this`users
      ensures Value() == WithUser(old(Value()), user)
      ensures (added <==> user !in old(users)) && forall u :: u in users <==> u == user || u in old(users)
    {
      added := user !in users;
      users := users + {user};
    }

    /** `revoke` of a user, with the deletions that the foreign keys add. */
    method RemoveUser(user: int) returns (removed: bool)
      modifies this`users, this`codes, this`sessions
      ensures Value() == WithoutUser(old(Value()), user)
      ensures (removed <==> user in old(users)) && forall u :: u in users <==> u != user && u in old(users)
      ensures forall c :: c in codes <==> c in old(codes) && old(codes)[c].user != user
      ensures forall c :: c in codes ==> codes[c] == old(codes)[c]
      ensures forall t :: t in sessions <==> t in old(sessions) && old(sessions)[t].user != user
      ensures forall t :: t in sessions ==> sessions[t] == old(sessions)[t]
    {
      removed := user in users;
      users := users - {user};
      codes := map c | c in codes && codes[c].user != user :: codes[c];
      sessions := map t | t in sessions && sessions[t].user != user :: sessions[t];
    }
  }

  // ---- Runs

  /** The store, the clock in seconds, and what was handed out: tokens, codes, and codes redeemed. */
  datatype State = State(store: Store, now: nat, tokens: set<string>, issued: multiset<string>,
        redeemed: multiset<string>)

  /** An exchange carries what its earlier read found; other calls may lie between the two. */
  datatype Event =
    | Tick(secs: nat)
    | CreateCode(owner: int, newCode: string)
    | Exchange(code: string, token: string, id: string, found: Option<Code>)
    | Request(raw: string)
    | Refresh(raw: string)
    | VerifyOnly(raw: string)
    | Logout(raw: string)
    | LogoutAll(user: int)
    | Purge
    | PurgeCodes
    | AddUser(user: int)
    | RemoveUser(user: int)
    | Evict(key: string)

  /** Tokens are never handed out twice, and hold no outer whitespace. */
  predicate Enabled(st: State, e: Event) {
    e.Exchange? ==> e.token !in st.tokens && Trim(e.token) == e.token
  }

  function Step(st: State, e: Event): State {
    var s := st.store;
    match e
    case Tick(secs) => st.(now := st.now + secs)
    case CreateCode(owner, newCode) =>
      st.(store := WithCode(s, st.now, owner, newCode),
          issued := st.issued + if CodeResult(s, st.now, owner, newCode).Ok? then multiset{newCode} else multiset{})
    case Exchange(code, token, id, found) =>
      st.(store := WithExchange(s, st.now, code, found, token, id),
          tokens := st.tokens + {token},
          redeemed := st.redeemed + if Redeems(s, found) then multiset{code} else multiset{})
    case Request(raw) => st.(store := WithRequest(s, st.now, raw))
    case Refresh(raw) => st.(store := Admitted(s, st.now, raw, raw))
    case VerifyOnly(raw) => st
    case Logout(raw) => st.(store := WithLogout(s, raw))
    case LogoutAll(user) => st.(store := WithLogoutAll(s, user))
    case Purge => st.(store := Purged(s, st.now))
    case PurgeCodes => st.(store := PurgedCodes(s, st.now))
    case AddUser(user) => st.(store := WithUser(s, user))
    case RemoveUser(user) => st.(store := WithoutUser(s, user))
    case Evict(key) => st.(store := s.(cache := s.cache - {key}))
  }

  predicate Initial(st: State) {
    && st.store.codes == map[] && st.store.sessions == map[] && st.store.cache == map[]
    && st.tokens == {} && st.issued == multiset{} && st.redeemed == multiset{}
  }

  ghost predicate IsRun(states: seq<State>, es: seq<Event>) {
    && |states| == |es| + 1 && Initial(states[0])
    && forall i :: 0 <= i < |es| ==> Enabled(states[i], es[i]) && states[i + 1] == Step(states[i], es[i])
  }

  lemma {:induction false} ClockRises(states: seq<State>, es: seq<Event>, i: nat, j: nat)
    requires IsRun(states, es) && i <= j <= |es|
    ensures states[i].now <= states[j].now
    decreases j
  {
    if i < j {
      ClockRises(states, es, i, j - 1);
    }
  }

  // ---- Codes

  ghost predicate OnePerUser(codes: map<string, Code>) {
    forall c, d :: c in codes && d in codes && codes[c].user == codes[d].user ==> c == d
  }

  /** Each code was issued once more than redeemed if it is open, and at least as often if not. */
  ghost predicate Counted(codes: map<string, Code>, issued: multiset<string>, redeemed: multiset<string>) {
    forall c: string :: redeemed[c] + Open(codes, c) <= issued[c]
  }

  function Open(codes: map<string, Code>, c: string): nat {
    if c in codes then 1 else 0
  }

  ghost predicate CodesInv(st: State) {
    OnePerUser(st.store.codes) && Counted(st.store.codes, st.issued, st.redeemed)
  }

  lemma FewerCodes(codes: map<string, Code>, fewer: map<string, Code>, issued: multiset<string>,
        redeemed: multiset<string>)
    requires OnePerUser(codes) && Counted(codes, issued, redeemed)
    requires forall c :: c in fewer ==> c in codes && fewer[c] == codes[c]
    ensures OnePerUser(fewer) && Counted(fewer, issued, redeemed)
  {
    forall c: string ensures redeemed[c] + Open(fewer, c) <= issued[c] {
      assert redeemed[c] + Open(codes, c) <= issued[c];
    }
  }

  lemma OneMoreCode(codes: map<string, Code>, code: string, entry: Code, issued: multiset<string>,
        redeemed: multiset<string>)
    requires OnePerUser(codes) && Counted(codes, issued, redeemed)
    requires code !in codes && forall c :: c in codes ==> codes[c].user != entry.user
    ensures OnePerUser(codes[code := entry]) && Counted(codes[code := entry], issued + multiset{code}, redeemed)
  {
    forall c: string ensures redeemed[c] + Open(codes[code := entry], c) <= (issued + multiset{code})[c] {
      assert redeemed[c] + Open(codes, c) <= issued[c];
    }
  }

  lemma RedeemCode(codes: map<string, Code>, code: string, issued: multiset<string>, redeemed: multiset<string>)
    requires OnePerUser(codes) && Counted(codes, issued, redeemed) && code in codes
    ensures OnePerUser(codes - {code}) && Counted(codes - {code}, issued, redeemed + multiset{code})
  {
    forall c: string ensures (redeemed + multiset{code})[c] + Open(codes - {code}, c) <= issued[c] {
      assert redeemed[c] + Open(codes, c) <= issued[c];
    }
  }

  lemma CreateKeepsCodes(st: State, e: Event)
    requires CodesInv(st) && e.CreateCode?
    ensures CodesInv(Step(st, e))
  {
    var s := st.store;
    if Authorized(s, e.owner) {
      var codes := CodesFor(s, e.owner, st.now);
      FewerCodes(s.codes, codes, st.issued, st.redeemed);
      if e.newCode !in codes {
        OneMoreCode(codes, e.newCode, Code(e.owner, st.now + CODE_SECS), st.issued, st.redeemed);
      }
    }
  }

  lemma ExchangeKeepsCodes(st: State, e: Event)
    requires CodesInv(st) && Prompt(st, e) && e.Exchange?
    ensures CodesInv(Step(st, e))
  {
    var s := st.store;
    if Redeems(s, e.found) {
      RedeemCode(s.codes, e.code, st.issued, st.redeemed);
    } else {
      FewerCodes(s.codes, s.codes - {e.code}, st.issued, st.redeemed);
    }
  }

  /** An exchange with nothing between its read and the rest. */
  predicate Prompt(st: State, e: Event) {
    e.Exchange? ==> e.found == ReadCode(st.store, st.now, e.code)
  }

  lemma StepKeepsCodes(st: State, e: Event)
    requires CodesInv(st) && Prompt(st, e)
    ensures CodesInv(Step(st, e))
  {
    match e
    case CreateCode(_, _) => CreateKeepsCodes(st, e);
    case Exchange(_, _, _, _) => ExchangeKeepsCodes(st, e);
    case _ => FewerCodes(st.store.codes, Step(st, e).store.codes, st.issued, st.redeemed);
  }

  /** With exchanges one at a time, no code is redeemed more often than it was issued. */
  lemma {:induction false} RunKeepsCodes(states: seq<State>, es: seq<Event>, k: nat)
    requires IsRun(states, es) && k <= |es| && forall i :: 0 <= i < k ==> Prompt(states[i], es[i])
    ensures CodesInv(states[k])
  {
    if k > 0 {
      RunKeepsCodes(states, es, k - 1);
      StepKeepsCodes(states[k - 1], es[k - 1]);
    }
  }

  // ---- Exchanges that overlap

  /** What the `k`-th event, if an exchange, found was read in the `j`-th state. */
  predicate ReadIn(states: seq<State>, es: seq<Event>, k: nat, j: nat)
    requires k < |es| <= |states|
  {
    es[k].Exchange? ==> j <= k && es[k].found == ReadCode(states[j].store, states[j].now, es[k].code)
  }

  predicate RedeemsAt(states: seq<State>, es: seq<Event>, i: nat, code: string)
    requires i < |es| <= |states|
  {
    es[i].Exchange? && es[i].code == code && Redeems(states[i].store, es[i].found)
  }

  /** In every run a user has at most one code. */
  lemma {:induction false} RunKeepsOnePerUser(states: seq<State>, es: seq<Event>, k: nat)
    requires IsRun(states, es) && k <= |es|
    ensures OnePerUser(states[k].store.codes)
  {
    if k > 0 {
      RunKeepsOnePerUser(states, es, k - 1);
      StepKeepsOnePerUser(states[k - 1], es[k - 1]);
    }
  }

  lemma StepKeepsOnePerUser(st: State, e: Event)
    requires OnePerUser(st.store.codes)
    ensures OnePerUser(Step(st, e).store.codes)
  {
    if e.CreateCode? {
      CreateKeepsOnePerUser(st.store, st.now, e.owner, e.newCode);
    } else {
      assert forall c :: c in Step(st, e).store.codes ==>
          c in st.store.codes && Step(st, e).store.codes[c] == st.store.codes[c];
    }
  }

  lemma CreateKeepsOnePerUser(s: Store, now: nat, owner: int, newCode: string)
    requires OnePerUser(s.codes)
    ensures OnePerUser(WithCode(s, now, owner, newCode).codes)
  {
    assert forall c :: c in CodesFor(s, owner, now) ==> c in s.codes && s.codes[c].user != owner;
  }

  lemma {:induction false} IssuedRises(states: seq<State>, es: seq<Event>, i: nat, j: nat)
    requires IsRun(states, es) && i <= j <= |es|
    ensures states[i].issued <= states[j].issued
    decreases j
  {
    hide WithCode, CodeResult;
    if i < j {
      IssuedRises(states, es, i, j - 1);
      assert states[j - 1].issued <= Step(states[j - 1], es[j - 1]).issued;
    }
  }

  /** A code in the table comes from the call that issued it. */
  lemma StepCode(st: State, e: Event, code: string)
    requires code in Step(st, e).store.codes
    ensures code in st.store.codes || Step(st, e).issued == st.issued + multiset{code}
  {
    hide Admitted, Slid, Trim, Verifies, Standing, Redeems;
    AdmittedKeeps(st.store, st.now, e);
  }

  lemma {:induction false} CodesWereIssued(states: seq<State>, es: seq<Event>, k: nat, code: string)
    requires IsRun(states, es) && k <= |es| && code in states[k].store.codes
    ensures code in states[k].issued
  {
    hide Step;
    if k > 0 {
      IssuedRises(states, es, k - 1, k);
      StepCode(states[k - 1], es[k - 1], code);
      if code in states[k - 1].store.codes {
        CodesWereIssued(states, es, k - 1, code);
      }
    }
  }

  lemma FoundWasIssued(states: seq<State>, es: seq<Event>, j: nat, k: nat)
    requires IsRun(states, es) && k < |es| && es[k].Exchange? && es[k].found.Some? && ReadIn(states, es, k, j)
    ensures es[k].code in states[j].store.codes && es[k].code in states[k].issued
  {
    hide Step;
    CodesWereIssued(states, es, j, es[k].code);
    IssuedRises(states, es, j, k);
  }

  lemma StepSpends(st: State, e: Event)
    requires e.Exchange? && Redeems(st.store, e.found)
    ensures e.code !in Step(st, e).store.codes
  {
  }

  /** A code that was issued once is not in the table again after it was redeemed. */
  lemma {:induction false} SpentCode(states: seq<State>, es: seq<Event>, j: nat, i: nat, k: nat, code: string)
    requires IsRun(states, es) && i < k <= |es| && RedeemsAt(states, es, i, code) && ReadIn(states, es, i, j)
    requires states[k].issued[code] <= 1
    ensures code !in states[k].store.codes
    decreases k
  {
    hide Step;
    if k == i + 1 {
      StepSpends(states[i], es[i]);
    } else {
      IssuedRises(states, es, k - 1, k);
      SpentCode(states, es, j, i, k - 1, code);
      FoundWasIssued(states, es, j, i);
      IssuedRises(states, es, i, k - 1);
      if code in states[k].store.codes {
        StepCode(states[k - 1], es[k - 1], code);
        assert false;
      }
    }
  }

  ghost predicate RedeemedBefore(states: seq<State>, es: seq<Event>, k: nat, code: string)
    requires k <= |es| <= |states|
  {
    exists i :: 0 <= i < k && RedeemsAt(states, es, i, code)
  }

  lemma StepRedeems(st: State, e: Event, code: string)
    ensures Step(st, e).redeemed[code] ==
            st.redeemed[code] + if e.Exchange? && e.code == code && Redeems(st.store, e.found) then 1 else 0
  {
  }

  lemma {:induction false} RedeemedBy(states: seq<State>, es: seq<Event>, k: nat, code: string)
    requires IsRun(states, es) && k <= |es|
    ensures states[k].redeemed[code] > 0 <==> RedeemedBefore(states, es, k, code)
  {
    hide Step;
    if k > 0 {
      RedeemedBy(states, es, k - 1, code);
      StepRedeems(states[k - 1], es[k - 1], code);
      assert RedeemedBefore(states, es, k, code) <==>
             RedeemedBefore(states, es, k - 1, code) || RedeemsAt(states, es, k - 1, code);
    }
  }

  /** The exchange at `k`, which read after `j` events, redeems a code that another one redeemed since. */
  ghost predicate Overtaken(states: seq<State>, es: seq<Event>, j: nat, k: nat)
    requires k < |es| <= |states|
  {
    es[k].Exchange? && RedeemsAt(states, es, k, es[k].code)
    && exists i :: j <= i < k && RedeemsAt(states, es, i, es[k].code)
  }

  ghost predicate EachReadIn(states: seq<State>, es: seq<Event>, seen: seq<nat>)
    requires |seen| == |es| <= |states|
  {
    forall k :: 0 <= k < |es| ==> ReadIn(states, es, k, seen[k])
  }

  /** No code has made more than one session. */
  ghost predicate OneSessionEach(st: State) {
    forall c: string :: st.redeemed[c] <= 1
  }

  ghost predicate IssuedOnce(st: State) {
    forall c: string :: st.issued[c] <= 1
  }

  lemma IssuedOnceBefore(states: seq<State>, es: seq<Event>, j: nat, k: nat)
    requires IsRun(states, es) && j <= k <= |es| && IssuedOnce(states[k])
    ensures IssuedOnce(states[j])
  {
    hide Step;
    IssuedRises(states, es, j, k);
    forall c: string ensures states[j].issued[c] <= 1 {
      assert states[j].issued[c] <= states[k].issued[c];
    }
  }

  lemma OneMoreSession(st: State, e: Event)
    requires OneSessionEach(st)
    ensures OneSessionEach(Step(st, e)) <==>
            !(e.Exchange? && Redeems(st.store, e.found) && st.redeemed[e.code] > 0)
  {
    hide Step, Redeems;
    var next := Step(st, e);
    forall c: string ensures next.redeemed[c] ==
        st.redeemed[c] + if e.Exchange? && e.code == c && Redeems(st.store, e.found) then 1 else 0 {
      StepRedeems(st, e, c);
    }
    if e.Exchange? {
      assert next.redeemed[e.code] == st.redeemed[e.code] + if Redeems(st.store, e.found) then 1 else 0;
      if Redeems(st.store, e.found) && st.redeemed[e.code] > 0 {
        assert next.redeemed[e.code] > 1;
      }
    }
  }

  lemma ExchangeExactly(states: seq<State>, es: seq<Event>, seen: seq<nat>, k: nat)
    requires IsRun(states, es) && k < |es| == |seen| && EachReadIn(states, es, seen)
    requires OneSessionEach(states[k]) && IssuedOnce(states[k])
    ensures OneSessionEach(states[k + 1]) <==> !Overtaken(states, es, seen[k], k)
  {
    hide Step, Redeems, OneSessionEach, IssuedOnce;
    OneMoreSession(states[k], es[k]);
    if es[k].Exchange? && RedeemsAt(states, es, k, es[k].code) {
      RedeemedBy(states, es, k, es[k].code);
      RedeemedSince(states, es, seen, k);
    }
  }

  /** What redeemed an exchange's code before it did so after its read. */
  lemma RedeemedSince(states: seq<State>, es: seq<Event>, seen: seq<nat>, k: nat)
    requires IsRun(states, es) && k < |es| == |seen| && EachReadIn(states, es, seen)
    requires es[k].Exchange? && RedeemsAt(states, es, k, es[k].code)
    requires IssuedOnce(states[k])
    ensures forall i :: 0 <= i < k && RedeemsAt(states, es, i, es[k].code) ==> seen[k] <= i
  {
    hide Step;
    var code, j := es[k].code, seen[k];
    FoundWasIssued(states, es, j, k);
    forall i | 0 <= i < k && RedeemsAt(states, es, i, code) ensures j <= i {
      if i < j {
        IssuedRises(states, es, j, k);
        SpentCode(states, es, seen[i], i, j, code);
      }
    }
  }

  /**
   In a run whose codes are issued once each, no code makes two sessions if and only if no
   exchange finishes between another one's read of the same code and its finish.
   */
  lemma {:induction false} OneSessionPerCode(states: seq<State>, es: seq<Event>, seen: seq<nat>, n: nat)
    requires IsRun(states, es) && n <= |es| == |seen| && EachReadIn(states, es, seen)
    requires IssuedOnce(states[n])
    ensures (forall k :: 0 <= k <= n ==> OneSessionEach(states[k])) <==>
            forall k :: 0 <= k < n ==> !Overtaken(states, es, seen[k], k)
  {
    hide Step, Overtaken, EachReadIn;
    if n > 0 {
      IssuedOnceBefore(states, es, n - 1, n);
      OneSessionPerCode(states, es, seen, n - 1);
      if OneSessionEach(states[n - 1]) {
        ExchangeExactly(states, es, seen, n - 1);
      }
    }
  }

  /** Two exchanges that both read a code before either deletes it make two sessions. */
  lemma TwoSessionsFromOneCode() returns (states: seq<State>, es: seq<Event>)
    ensures IsRun(states, es) && |es| == 3 && EachReadIn(states, es, [0, 1, 1])
    ensures IssuedOnce(states[3]) && states[3].redeemed["A"] == 2
  {
    var e0, e1, e2 := CreateCode(7, "A"), Exchange("A", "t", "1", FOUND), Exchange("A", "u", "2", FOUND);
    FirstExchange();
    es := [e0, e1, e2];
    states := [START, CODE_ISSUED, CODE_REDEEMED, Step(CODE_REDEEMED, e2)];
    assert states[3].redeemed == multiset{"A", "A"};
  }

  // An administrator with one code, before and after it is exchanged.
  const FOUND: Option<Code> := Some(Code(7, CODE_SECS))
  const START := State(Store({}, 7, map[], map[], map[]), 0, {}, multiset{}, multiset{})
  const CODE_ISSUED :=
    State(Store({7}, 7, map["A" := Code(7, CODE_SECS)], map[], map[]), 0, {}, multiset{"A"}, multiset{})
  const CODE_REDEEMED :=
    State(Store({7}, 7, map[], map["t" := Session("1", 7, SESSION_SECS, false)], map["t" := Cached(7, "1", 0)]),
          0, {"t"}, multiset{"A"}, multiset{"A"})

  lemma FirstExchange()
    ensures CODE_ISSUED == Step(START, CreateCode(7, "A"))
    ensures ReadCode(CODE_ISSUED.store, 0, "A") == FOUND && Trim("t") == "t" && Trim("u") == "u"
    ensures CODE_REDEEMED == Step(CODE_ISSUED, Exchange("A", "t", "1", FOUND))
  {
    assert CodesFor(START.store, 7, 0) == map[];
    assert map["A" := Code(7, CODE_SECS)] - {"A"} == map[];
  }

  // ---- Dead sessions

  /** The token was handed out, and its session is gone, revoked or expired. */
  predicate Dead(st: State, token: string) {
    token in st.tokens && !Standing(st.store, st.now, token)
  }

  lemma StepKeepsDead(st: State, e: Event, token: string)
    requires Dead(st, token) && Enabled(st, e)
    ensures Dead(Step(st, e), token)
  {
  }

  /** Once revoked, expired or purged, a session is never verified again. */
  lemma {:induction false} DeadForGood(states: seq<State>, es: seq<Event>, i: nat, j: nat, token: string)
    requires IsRun(states, es) && i <= j <= |es| && Dead(states[i], token)
    ensures Dead(states[j], token) && !Verifies(states[j].store, states[j].now, token)
    decreases j
  {
    hide Step, Enabled, Standing, Authorized;
    if i < j {
      DeadForGood(states, es, i, j - 1, token);
      StepKeepsDead(states[j - 1], es[j - 1], token);
    }
  }

  lemma StepIssues(st: State, e: Event)
    requires st.store.sessions.Keys <= st.tokens
    ensures Step(st, e).store.sessions.Keys <= Step(st, e).tokens
  {
  }

  /** Every session in the table belongs to a token that was handed out. */
  lemma {:induction false} SessionsWereIssued(states: seq<State>, es: seq<Event>, k: nat)
    requires IsRun(states, es) && k <= |es|
    ensures states[k].store.sessions.Keys <= states[k].tokens
  {
    if k > 0 {
      SessionsWereIssued(states, es, k - 1);
      StepIssues(states[k - 1], es[k - 1]);
    }
  }

  /** What each way of revoking leaves dead. */
  lemma RevokingKills(st: State, e: Event, token: string)
    requires token in st.tokens
    requires match e
      case Logout(raw) => Trim(raw) == token
      case LogoutAll(user) => token in st.store.sessions ==> st.store.sessions[token].user == user
      case RemoveUser(user) => token in st.store.sessions ==> st.store.sessions[token].user == user
      case _ => false
    ensures Dead(Step(st, e), token)
  {
  }

  // ---- The cache

  /** The event verified, or created, the session of the cached key, at the cached time. */
  predicate Vouches(st: State, e: Event, key: string, c: Cached) {
    && c.at == st.now
    && match e
       case Exchange(code, token, id, found) =>
         token == key && Redeems(st.store, found) && c.user == found.value.user && c.id == id
       case Request(raw) => VouchedBy(st, Trim(raw), c) && key == Trim(raw)
       case Refresh(raw) => VouchedBy(st, Trim(raw), c) && key == raw
       case _ => false
  }

  predicate VouchedBy(st: State, token: string, c: Cached) {
    Verifies(st.store, st.now, token) && c.user == st.store.sessions[token].user && c.id == st.store.sessions[token].id
  }

  ghost predicate Vouched(states: seq<State>, es: seq<Event>, k: nat, key: string, c: Cached)
    requires IsRun(states, es) && k <= |es|
  {
    exists i :: 0 <= i < k && Vouches(states[i], es[i], key, c)
  }

  lemma CacheStep(st: State, e: Event, key: string)
    requires key in Step(st, e).store.cache
    ensures var c := Step(st, e).store.cache[key];
            Vouches(st, e, key, c) || (key in st.store.cache && st.store.cache[key] == c)
  {
    hide Admitted, Authorized, Slid, CodesFor, Trim;
    match e
    case Request(raw) =>
      if !CacheHit(st.store, st.now, Trim(raw)) {
        AdmittedCache(st, raw, Trim(raw), key);
      }
    case Refresh(raw) => AdmittedCache(st, raw, raw, key);
    case _ =>
  }

  /** Admitting a token changes the cache under one key at most, and only on success. */
  lemma AdmittedCache(st: State, raw: string, under: string, key: string)
    requires key in Admitted(st.store, st.now, raw, under).cache
    ensures var c := Admitted(st.store, st.now, raw, under).cache[key];
            || (key == under && c.at == st.now && VouchedBy(st, Trim(raw), c))
            || (key in st.store.cache && st.store.cache[key] == c)
  {
    hide Authorized, Trim;
  }

  lemma {:induction false} CacheOrigin(states: seq<State>, es: seq<Event>, k: nat, key: string)
    requires IsRun(states, es) && k <= |es| && key in states[k].store.cache
    ensures Vouched(states, es, k, key, states[k].store.cache[key])
  {
    if k > 0 {
      CacheStep(states[k - 1], es[k - 1], key);
      if !Vouches(states[k - 1], es[k - 1], key, states[k].store.cache[key]) {
        CacheOrigin(states, es, k - 1, key);
      }
    }
  }

  /**
   A request accepted through the cache gets the identity of a session that was verified or
   created less than 60 s before.
   */
  lemma CachedAcceptance(states: seq<State>, es: seq<Event>, k: nat, token: string) returns (i: nat)
    requires IsRun(states, es) && k <= |es| && CacheHit(states[k].store, states[k].now, token)
    ensures i < k && Vouches(states[i], es[i], token, states[k].store.cache[token])
    ensures states[i].now <= states[k].now < states[i].now + 60
  {
    CacheOrigin(states, es, k, token);
    i :| 0 <= i < k && Vouches(states[i], es[i], token, states[k].store.cache[token]);
    ClockRises(states, es, i, k);
  }

  /** A dead token is refused from 60 s after its death on. */
  lemma RefusedSoon(states: seq<State>, es: seq<Event>, j: nat, k: nat, raw: string)
    requires IsRun(states, es) && j <= k <= |es| && Dead(states[j], Trim(raw))
    requires Accepts(states[k].store, states[k].now, raw)
    ensures states[k].now < states[j].now + 60
  {
    var token := Trim(raw);
    DeadForGood(states, es, j, k, token);
    var i := CachedAcceptance(states, es, k, token);
    if j <= i {
      DeadForGood(states, es, j, i, token);
      assert es[i].Refresh? && es[i].raw == token;
      TrimTwice(raw);
      assert false;
    }
    ClockRises(states, es, i, j);
  }

  lemma TrimTwice(s: string)
    ensures Trim(Trim(s)) == Trim(s)
  {
    TrimEndKeepsStart(TrimStart(s));
    TrimStartDone(s);
    TrimEndDone(TrimStart(s));
  }

  lemma {:induction false} TrimStartDone(s: string)
    ensures TrimStart(s) == [] || !IsWhitespace(TrimStart(s)[0])
  {
    if s != [] && IsWhitespace(s[0]) {
      TrimStartDone(s[1..]);
    }
  }

  lemma {:induction false} TrimEndDone(s: string)
    ensures TrimEnd(s) == [] || !IsWhitespace(TrimEnd(s)[|TrimEnd(s)| - 1])
  {
    if s != [] && IsWhitespace(s[|s| - 1]) {
      TrimEndDone(s[..|s| - 1]);
    }
  }

  lemma {:induction false} TrimEndKeepsStart(s: string)
    ensures TrimEnd(s) == [] || TrimEnd(s)[0] == s[0]
  {
    if s != [] && IsWhitespace(s[|s| - 1]) {
      TrimEndKeepsStart(s[..|s| - 1]);
    }
  }

  /**
   A logout takes effect at once exactly when its text is the trimmed token or the cache held
   none: the cache is asked for the text as given, while the session is found by the trimmed one.
   */
  lemma LogoutAtOnce(s: Store, now: nat, raw: string)
    ensures Accepts(WithLogout(s, raw), now, raw) <==> raw != Trim(raw) && CacheHit(s, now, Trim(raw))
  {
  }

  /** A token logged out with a trailing blank is accepted by the next request. */
  lemma LogoutLeavesAccess() returns (states: seq<State>, es: seq<Event>)
    ensures IsRun(states, es) && |es| == 3 && EachReadIn(states, es, [0, 1, 2])
    ensures es[2].Logout? && Accepts(states[3].store, states[3].now, es[2].raw)
    ensures Dead(states[3], Trim(es[2].raw)) && Accepts(states[3].store, states[3].now, Trim(es[2].raw))
  {
    var e0, e1, e2 := CreateCode(7, "A"), Exchange("A", "t", "1", FOUND), Logout("t ");
    FirstExchange();
    es := [e0, e1, e2];
    states := [START, CODE_ISSUED, CODE_REDEEMED, Step(CODE_REDEEMED, e2)];
    TrimBlank();
    LogoutAtOnce(CODE_REDEEMED.store, 0, "t ");
  }

  lemma TrimBlank()
    ensures Trim("t ") == "t" == Trim("t")
  {
  }

  // ---- Whose token it is

  /** The `i`-th event handed out the token, with session id `id`, to the user whose code it was. */
  predicate Grants(states: seq<State>, es: seq<Event>, i: nat, token: string, user: int, id: string)
    requires i < |es| <= |states|
  {
    && es[i].Exchange? && es[i].token == token && es[i].id == id
    && es[i].found.Some? && es[i].found.value.user == user
    && (user == states[i].store.admin || user in states[i].store.users)
  }

  ghost predicate Granted(states: seq<State>, es: seq<Event>, k: nat, token: string, user: int, id: string)
    requires k <= |es| <= |states|
  {
    exists i :: 0 <= i < k && Grants(states, es, i, token, user, id)
  }

  lemma GrantedLater(states: seq<State>, es: seq<Event>, k: nat, token: string, user: int, id: string)
    requires k < |es| <= |states| && Granted(states, es, k, token, user, id)
    ensures Granted(states, es, k + 1, token, user, id)
  {
  }

  /** Sessions come from a grant or stay with their user and id. */
  lemma SessionStep(st: State, e: Event, token: string)
    requires token in Step(st, e).store.sessions
    ensures var s := Step(st, e).store.sessions[token];
            || (token in st.store.sessions && st.store.sessions[token].user == s.user
                && st.store.sessions[token].id == s.id)
            || (e.Exchange? && e.token == token && e.id == s.id && Redeems(st.store, e.found)
                && e.found.value.user == s.user)
  {
    hide Admitted, Slid, Trim, Verifies, Standing, WithExchange, CodesFor, CodeResult, Redeems;
    AdmittedKeeps(st.store, st.now, e);
    if e.Exchange? {
      ExchangedSession(st.store, st.now, e.code, e.found, e.token, e.id, token);
    }
  }

  lemma ExchangedSession(s: Store, now: nat, code: string, found: Option<Code>, token: string, id: string, x: string)
    requires x in WithExchange(s, now, code, found, token, id).sessions
    ensures var r := WithExchange(s, now, code, found, token, id).sessions[x];
            || (x in s.sessions && s.sessions[x] == r)
            || (x == token && Redeems(s, found) && r == Session(id, found.value.user, now + SESSION_SECS, false))
  {
  }

  /** Letting a request in or refreshing it leaves codes, users, and all sessions but its own token's expiry. */
  lemma AdmittedKeeps(s: Store, now: nat, e: Event)
    ensures e.Request? || e.Refresh? ==>
              forall key: string ::
                var t, token := Admitted(s, now, e.raw, key), Trim(e.raw);
                && t.codes == s.codes && t.users == s.users && t.sessions.Keys == s.sessions.Keys
                && (forall x :: x in s.sessions && x != token ==> t.sessions[x] == s.sessions[x])
                && (token in s.sessions ==>
                      var before, after := s.sessions[token], t.sessions[token];
                      && after.user == before.user && after.id == before.id
                      && (after.expires == before.expires
                          || (Verifies(s, now, token) && after.expires == now + SESSION_SECS)))
  {
    hide Trim;
  }

  lemma {:induction false} SessionGranted(states: seq<State>, es: seq<Event>, k: nat, token: string)
    requires IsRun(states, es) && k <= |es| && token in states[k].store.sessions
    ensures var s := states[k].store.sessions[token]; Granted(states, es, k, token, s.user, s.id)
  {
    hide Step, Enabled;
    if k > 0 {
      SessionStep(states[k - 1], es[k - 1], token);
      var s := states[k].store.sessions[token];
      if es[k - 1].Exchange? && es[k - 1].token == token && es[k - 1].id == s.id
         && Redeems(states[k - 1].store, es[k - 1].found) && es[k - 1].found.value.user == s.user {
        assert Grants(states, es, k - 1, token, s.user, s.id);
      } else {
        SessionGranted(states, es, k - 1, token);
        GrantedLater(states, es, k - 1, token, s.user, s.id);
      }
    }
  }

  lemma VouchedIsGranted(states: seq<State>, es: seq<Event>, i: nat, key: string, c: Cached)
    requires IsRun(states, es) && i < |es| && Vouches(states[i], es[i], key, c)
    ensures Granted(states, es, i + 1, Trim(key), c.user, c.id)
  {
    hide Step;
    if es[i].Exchange? {
      assert Enabled(states[i], es[i]);
      assert Grants(states, es, i, key, c.user, c.id);
    } else {
      TrimTwice(es[i].raw);
      SessionGranted(states, es, i, Trim(es[i].raw));
      GrantedLater(states, es, i, Trim(key), c.user, c.id);
    }
  }

  lemma GrantedUpTo(states: seq<State>, es: seq<Event>, i: nat, k: nat, token: string, user: int, id: string)
    requires i <= k <= |es| <= |states| && Granted(states, es, i, token, user, id)
    ensures Granted(states, es, k, token, user, id)
  {
  }

  /**
   Whoever a request is taken to be from is the user whose login code was exchanged for that very
   token, with the session id made then, whether the answer came from the cache or the table.
   */
  lemma RequestIdentity(states: seq<State>, es: seq<Event>, k: nat, raw: string)
    requires IsRun(states, es) && k <= |es| && Accepts(states[k].store, states[k].now, raw)
    ensures var who := Identity(states[k].store, states[k].now, raw);
            Granted(states, es, k, Trim(raw), who.0, who.1)
  {
    hide Step, Granted, Vouches, Verifies;
    var token := Trim(raw);
    if CacheHit(states[k].store, states[k].now, token) {
      var i := CachedAcceptance(states, es, k, token);
      VouchedIsGranted(states, es, i, token, states[k].store.cache[token]);
      TrimTwice(raw);
      GrantedUpTo(states, es, i + 1, k, token, states[k].store.cache[token].user, states[k].store.cache[token].id);
    } else {
      assert token in states[k].store.sessions by { VerifiedHasSession(states[k].store, states[k].now, token); }
      SessionGranted(states, es, k, token);
    }
  }

  lemma VerifiedHasSession(s: Store, now: nat, token: string)
    requires Verifies(s, now, token)
    ensures token in s.sessions
  {
  }

  // ---- How long codes and sessions last

  /** The `i`-th event issued the code to its owner. */
  predicate IssuesAt(states: seq<State>, es: seq<Event>, i: nat, code: string, user: int)
    requires i < |es| <= |states|
  {
    es[i].CreateCode? && es[i].newCode == code && es[i].owner == user
    && (user == states[i].store.admin || user in states[i].store.users)
  }

  lemma CodeStep(st: State, e: Event, code: string)
    requires code in Step(st, e).store.codes
    ensures var c := Step(st, e).store.codes[code];
            || (code in st.store.codes && st.store.codes[code] == c)
            || (e == CreateCode(c.user, code) && Authorized(st.store, c.user) && c.expires == st.now + 300)
  {
    hide Admitted, Slid, Trim, Verifies, Standing;
    AdmittedKeeps(st.store, st.now, e);
  }

  lemma {:induction false} CodeOrigin(states: seq<State>, es: seq<Event>, k: nat, code: string) returns (i: nat)
    requires IsRun(states, es) && k <= |es| && code in states[k].store.codes
    ensures i < k && IssuesAt(states, es, i, code, states[k].store.codes[code].user)
    ensures states[k].store.codes[code].expires == states[i].now + 300
  {
    hide Step, Enabled;
    assert k > 0;
    CodeStep(states[k - 1], es[k - 1], code);
    if code in states[k - 1].store.codes && states[k - 1].store.codes[code] == states[k].store.codes[code] {
      i := CodeOrigin(states, es, k - 1, code);
    } else {
      i := k - 1;
    }
  }

  /** An exchange finds a code only in the 300 s after it was issued, and for the user it was issued to. */
  lemma CodesLastFiveMinutes(states: seq<State>, es: seq<Event>, k: nat, code: string) returns (i: nat)
    requires IsRun(states, es) && k <= |es| && ReadCode(states[k].store, states[k].now, code).Some?
    ensures i < k && IssuesAt(states, es, i, code, ReadCode(states[k].store, states[k].now, code).value.user)
    ensures states[i].now <= states[k].now < states[i].now + 300
  {
    hide Step, Enabled;
    i := CodeOrigin(states, es, k, code);
    ClockRises(states, es, i, k);
  }

  /** A new code is found for its owner throughout those 300 s, as long as nobody takes it. */
  lemma NewCodeIsOpen(s: Store, now: nat, user: int, code: string, later: nat)
    requires CodeResult(s, now, user, code).Ok? && now <= later
    ensures ReadCode(WithCode(s, now, user, code), later, code) ==
            if later < now + 300 then Some(Code(user, now + 300)) else None
  {
  }

  /** The event makes or verifies the session of the token. */
  predicate Renews(st: State, e: Event, token: string) {
    match e
    case Exchange(_, t, _, found) => t == token && Redeems(st.store, found)
    case Request(raw) => Trim(raw) == token && Verifies(st.store, st.now, token)
    case Refresh(raw) => Trim(raw) == token && Verifies(st.store, st.now, token)
    case _ => false
  }

  lemma ExpiryStep(st: State, e: Event, token: string)
    requires token in Step(st, e).store.sessions
    ensures var s := Step(st, e).store.sessions[token];
            || (token in st.store.sessions && st.store.sessions[token].expires == s.expires)
            || (Renews(st, e, token) && s.expires == st.now + 259200)
  {
    hide Admitted, Slid, Trim, Verifies, Standing, WithExchange, CodesFor, CodeResult, Redeems;
    AdmittedKeeps(st.store, st.now, e);
    if e.Exchange? {
      ExchangedSession(st.store, st.now, e.code, e.found, e.token, e.id, token);
    }
  }

  lemma {:induction false} ExpiryOrigin(states: seq<State>, es: seq<Event>, k: nat, token: string) returns (i: nat)
    requires IsRun(states, es) && k <= |es| && token in states[k].store.sessions
    ensures i < k && Renews(states[i], es[i], token)
    ensures states[k].store.sessions[token].expires == states[i].now + 259200
  {
    hide Step, Enabled, Renews;
    assert k > 0;
    ExpiryStep(states[k - 1], es[k - 1], token);
    if token in states[k - 1].store.sessions
       && states[k - 1].store.sessions[token].expires == states[k].store.sessions[token].expires {
      i := ExpiryOrigin(states, es, k - 1, token);
    } else {
      i := k - 1;
    }
  }

  /** A session verifies only within three days of being made or last verified. */
  lemma SessionsLastThreeDays(states: seq<State>, es: seq<Event>, k: nat, token: string) returns (i: nat)
    requires IsRun(states, es) && k <= |es| && Verifies(states[k].store, states[k].now, token)
    ensures i < k && Renews(states[i], es[i], token)
    ensures states[i].now <= states[k].now < states[i].now + 259200
  {
    hide Step, Enabled, Renews;
    i := ExpiryOrigin(states, es, k, token);
    ClockRises(states, es, i, k);
  }

  /** A session made by an exchange verifies throughout those three days, as long as its user is known. */
  lemma NewSessionStands(s: Store, now: nat, code: string, found: Code, token: string, id: string, later: nat)
    requires Redeems(s, Some(found)) && now <= later
    ensures Verifies(WithExchange(s, now, code, Some(found), token, id), later, token) <==> later < now + 259200
  {
  }

  /** A token of a user the server no longer knows is refused, and its session revoked. */
  lemma UnknownUserRefused(s: Store, now: nat, token: string)
    requires token in s.sessions && s.sessions[token].user != s.admin && s.sessions[token].user !in s.users
    ensures !Verifies(s, now, token)
    ensures Standing(s, now, token) ==> Slid(s, now, token).sessions[token].revoked
  {
  }
}
