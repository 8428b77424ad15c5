/**
 Refresh-token rotation and the per-account auth version
 (internal/service/auth.go, internal/repository/token.go, internal/repository/user.go,
 internal/middleware/auth.go, internal/service/user.go, internal/service/admin.go).

 Access tokens are the claims they were signed with; a signature that verifies is taken
 for granted. Refresh tokens are known by their hash, which the table keeps unique.
 Clock readings are nanoseconds, stored expiry times are whole seconds.
 */
module Sessions {
  import opened Options

  const SECOND := 1_000_000_000

  datatype User = User(status: int, passwordHash: string)

  datatype RefreshRow = RefreshRow(user: int, expiresAt: int, revoked: bool)

  type Tokens = map<string, RefreshRow>
  type Versions = map<int, int>

  /** The `auth_version` claim as JSON delivers it. */
  datatype VersionClaim = Missing | NotANumber | Number(value: real)

  /** The claims the check reads; a `sub` that is not a number counts as 0. */
  datatype Claims = Claims(sub: real, authVersion: VersionClaim)

  datatype State = State(users: map<int, User>, versions: Versions, tokens: Tokens, minted: set<Claims>)

  datatype Event =
    | Register(id: int, user: User)
    | UpdateStatus(id: int, status: int)
    | UpdatePassword(id: int, hash: string)
    | RevokeAll(id: int)
    | Login(id: int, admitted: bool, hash: string, expiresAt: int)
    | Refresh(spent: string, now: int, admitted: bool, hash: string, expiresAt: int)
    | Logout(hash: string)
    | Sign(id: int)

  datatype Outcome = Done | Refused | LoggedIn(id: int) | Redeemed(hash: string)

  /** `AuthVersion`, and the version column of `TokenState`: 1 without a row. */
  function Version(versions: Versions, id: int): int {
    if id in versions then versions[id] else 1
  }

  function Bumped(versions: Versions, id: int): Versions {
    versions[id := Version(versions, id) + 1]
  }

  /** The claims `generateAccessToken` signs. */
  function Minted(versions: Versions, id: int): Claims {
    Claims(id as real, Number(Version(versions, id) as real))
  }

  /** The decision of the `Auth` middleware on claims whose signature is valid. */
  predicate Accepted(s: State, c: Claims) {
    c.sub > 0.0
    && (c.authVersion.Missing? || (c.authVersion.Number? && c.authVersion.value >= 1.0))
    && (var version := if c.authVersion.Missing? then 1 else c.authVersion.value.Floor;
        var id := c.sub.Floor;
        id in s.users && s.users[id].status != 0 && Version(s.versions, id) == version)
  }

  function Inserted(tokens: Tokens, hash: string, row: RefreshRow): Tokens {
    if hash in tokens then tokens else tokens[hash := row]
  }

  function RevokedOne(tokens: Tokens, hash: string): Tokens {
    if hash in tokens then tokens[hash := tokens[hash].(revoked := true)] else tokens
  }

  function RevokedFor(tokens: Tokens, id: int): Tokens {
    map h | h in tokens :: if tokens[h].user == id then tokens[h].(revoked := true) else tokens[h]
  }

  predicate MayHoldSession(users: map<int, User>, id: int) { id in users && users[id].status == 1 }

  /** Registration picks a new id; `admitted` stands for the password, lockout and access
      checks of a login, and for the access check of a refresh. `Sign` is a login or
      refresh that passed its checks at some earlier moment and reads the version now. */
  function Step(s: State, e: Event): (State, Outcome) {
    match e
    case Register(id, user) =>
      if id in s.users || id in s.versions || id <= 0 then (s, Refused)
      else (s.(users := s.users[id := user], versions := s.versions[id := 1]), Done)
    case UpdateStatus(id, status) =>
      if id !in s.users then (s, Refused)
      else (s.(users := s.users[id := s.users[id].(status := status)],
               versions := if status == 0 then Bumped(s.versions, id) else s.versions), Done)
    case UpdatePassword(id, hash) =>
      if id !in s.users then (s, Refused)
      else (s.(users := s.users[id := s.users[id].(passwordHash := hash)],
               versions := Bumped(s.versions, id)), Done)
    case RevokeAll(id) => (s.(tokens := RevokedFor(s.tokens, id)), Done)
    case Login(id, admitted, hash, expiresAt) =>
      if !MayHoldSession(s.users, id) || !admitted then (s, Refused)
      else if hash in s.tokens then (s.(minted := s.minted + {Minted(s.versions, id)}), Refused)
      else (s.(minted := s.minted + {Minted(s.versions, id)},
               tokens := Inserted(s.tokens, hash, RefreshRow(id, expiresAt, false))), LoggedIn(id))
    case Refresh(spent, now, admitted, hash, expiresAt) =>
      if spent !in s.tokens || s.tokens[spent].revoked then (s, Refused)
      else
        var id := s.tokens[spent].user;
        var tokens := RevokedOne(s.tokens, spent);
        if now > s.tokens[spent].expiresAt * SECOND || !MayHoldSession(s.users, id) || !admitted
        then (s.(tokens := tokens), Refused)
        else if hash in tokens then (s.(tokens := tokens, minted := s.minted + {Minted(s.versions, id)}), Refused)
        else (s.(tokens := Inserted(tokens, hash, RefreshRow(id, expiresAt, false)),
                 minted := s.minted + {Minted(s.versions, id)}), Redeemed(spent))
    case Logout(hash) => (s.(tokens := RevokedOne(s.tokens, hash)), Done)
    case Sign(id) => (s.(minted := s.minted + {Minted(s.versions, id)}), Done)
  }

  class AccountStore {
    var users: map<int, User>
    var versions: Versions
    var tokens: Tokens
    ghost var minted: set<Claims>

    ghost function View(): State
      reads this
    {
      State(users, versions, tokens, minted)
    }

    constructor ()
      ensures View() == State(map[], map[], map[], {})
    {
      users, versions, tokens, minted := map[], map[], map[], {};
    }

    method Register(id: int, user: User)
      requires id > 0 && id !in users && id !in versions
      modifies this
      ensures View() == Step(old(View()), Event.Register(id, user)).0
    {
      users := users[id := user];
      versions := versions[id := 1];
    }

    /** `UserRepo.UpdateStatus`: one transaction. */
    method UpdateStatus(id: int, status: int)
      requires id in users
      modifies this
      ensures View() == Step(old(View()), Event.UpdateStatus(id, status)).0
    {
      users := users[id := users[id].(status := status)];
      if status == 0 {
        BumpVersion(id);
      }
    }

    /** `UserRepo.UpdatePassword`: one transaction. */
    method UpdatePassword(id: int, hash: string)
      requires id in users
      modifies this
      ensures View() == Step(old(View()), Event.UpdatePassword(id, hash)).0
    {
      users := users[id := users[id].(passwordHash := hash)];
      BumpVersion(id);
    }

    /** `INSERT OR IGNORE` of version 1, then the increment. */
    method BumpVersion(id: int)
      modifies this`versions
      ensures versions == Bumped(old(versions), id)
    {
      if id !in versions {
        versions := versions[id := 1];
      }
      versions := versions[id := versions[id] + 1];
    }

    /** `AdminService.UpdateUserStatus`: the status first, then the tokens of a disabled user. */
    method UpdateUserStatus(id: int, status: int) returns (found: bool)
      modifies this
      ensures found <==> id in old(users)
      ensures var s := Step(old(View()), Event.UpdateStatus(id, status)).0;
              View() == if found && status == 0 then Step(s, Event.RevokeAll(id)).0 else s
    {
      found := id in users;
      if found {
        UpdateStatus(id, status);
        if status == 0 {
          RevokeAllForUser(id);
        }
      }
    }

    /** `UserService.ChangePassword`; `verified` stands for the SMS code or the old password. */
    method ChangePassword(id: int, verified: bool, hash: string) returns (changed: bool)
      modifies this
      ensures changed <==> id in old(users) && verified
      ensures View() == if !changed then old(View())
                        else Step(Step(old(View()), Event.UpdatePassword(id, hash)).0, Event.RevokeAll(id)).0
    {
      changed := id in users && verified;
      if changed {
        UpdatePassword(id, hash);
        RevokeAllForUser(id);
      }
    }

    method RevokeAllForUser(id: int)
      modifies this`tokens
      ensures View() == Step(old(View()), Event.RevokeAll(id)).0
    {
      tokens := map h | h in tokens ::
        if tokens[h].user == id && !tokens[h].revoked then tokens[h].(revoked := true) else tokens[h];
    }

    method Revoke(hash: string)
      modifies this`tokens
      ensures tokens == RevokedOne(old(tokens), hash)
    {
      if hash in tokens {
        tokens := tokens[hash := tokens[hash].(revoked := true)];
      }
    }

    method Login(id: int, admitted: bool, hash: string, expiresAt: int) returns (access: Option<Claims>)
      modifies this
      ensures View() == Step(old(View()), Event.Login(id, admitted, hash, expiresAt)).0
      ensures access.Some? <==> Step(old(View()), Event.Login(id, admitted, hash, expiresAt)).1 == LoggedIn(id)
      ensures access.Some? ==> access.value == Minted(versions, id)
    {
      if id !in users || users[id].status != 1 || !admitted {
        return None;
      }
      var claims := GenerateAccessToken(id);
      if hash in tokens {
        return None;
      }
      tokens := tokens[hash := RefreshRow(id, expiresAt, false)];
      access := Some(claims);
    }

    method GenerateAccessToken(id: int) returns (claims: Claims)
      modifies this`minted
      ensures claims == Minted(versions, id) && minted == old(minted) + {claims}
    {
      var version := if id in versions then versions[id] else 1;
      claims := Claims(id as real, Number(version as real));
      minted := minted + {claims};
    }

    method RefreshToken(hash: string, now: int, admitted: bool, newHash: string, expiresAt: int)
      returns (access: Option<Claims>)
      modifies this
      ensures View() == Step(old(View()), Refresh(hash, now, admitted, newHash, expiresAt)).0
      ensures access.Some? <==> Step(old(View()), Refresh(hash, now, admitted, newHash, expiresAt)).1 == Redeemed(hash)
      ensures access.Some? ==> access.value == Minted(versions, old(tokens)[hash].user)
    {
      if hash !in tokens {
        return None;
      }
      var stored := tokens[hash];
      if stored.revoked {
        return None;
      }
      if now > stored.expiresAt * SECOND {
        Revoke(hash);
        return None;
      }
      Revoke(hash);
      if stored.user !in users || users[stored.user].status != 1 || !admitted {
        return None;
      }
      var claims := GenerateAccessToken(stored.user);
      if newHash in tokens {
        return None;
      }
      tokens := tokens[newHash := RefreshRow(stored.user, expiresAt, false)];
      access := Some(claims);
    }

    method Logout(hash: string)
      modifies this`tokens
      ensures View() == Step(old(View()), Event.Logout(hash)).0
    {
      Revoke(hash);
    }
  }

  // ---------------------------------------------------------------- auth version

  /** No token was signed with a version above its account's current one. */
  ghost predicate Invariant(s: State) {
    && (forall id :: id in s.versions ==> s.versions[id] >= 1)
    && (forall c :: c in s.minted ==> c.authVersion.Number? && c.sub == c.sub.Floor as real
                                      && c.authVersion.value.Floor <= Version(s.versions, c.sub.Floor))
  }

  lemma StepKeepsInvariant(s: State, e: Event)
    requires Invariant(s)
    ensures Invariant(Step(s, e).0)
    ensures s.minted <= Step(s, e).0.minted
    ensures forall id :: Version(s.versions, id) <= Version(Step(s, e).0.versions, id)
  {
  }

  function Run(s: State, run: seq<Event>): State
    decreases |run|
  {
    if run == [] then s else Run(Step(s, run[0]).0, run[1..])
  }

  lemma {:induction false} RunKeepsInvariant(s: State, run: seq<Event>, id: int)
    requires Invariant(s)
    ensures Invariant(Run(s, run)) && Version(s.versions, id) <= Version(Run(s, run).versions, id)
    decreases |run|
  {
    if run != [] {
      StepKeepsInvariant(s, run[0]);
      RunKeepsInvariant(Step(s, run[0]).0, run[1..], id);
    }
  }

  /** The version a token claims; 1 for a token without the claim. */
  function Claimed(c: Claims): int {
    if c.authVersion.Number? then c.authVersion.value.Floor else 1
  }

  /** Once an account is disabled or its password changed, no token that existed before,
      whether signed here or claiming no version at all, is accepted ever again. */
  lemma OldTokensRefused(start: State, before: seq<Event>, e: Event, after: seq<Event>, c: Claims)
    requires start.minted == {} && forall id :: id in start.versions ==> start.versions[id] >= 1
    requires e == UpdateStatus(c.sub.Floor, 0) || (e.UpdatePassword? && e.id == c.sub.Floor)
    requires c.sub.Floor in Run(start, before).users
    requires c in Run(start, before).minted || c.authVersion.Missing?
    ensures !Accepted(Run(Step(Run(start, before), e).0, after), c)
  {
    var s := Run(start, before);
    RunKeepsInvariant(start, before, c.sub.Floor);
    StepKeepsInvariant(s, e);
    RunKeepsInvariant(Step(s, e).0, after, c.sub.Floor);
  }

  /** A token signed after the last bump is accepted while the account stays enabled. */
  lemma CurrentTokenAccepted(s: State, id: int)
    requires Invariant(s) && id > 0 && id in s.users
    ensures Accepted(s, Minted(s.versions, id)) <==> s.users[id].status != 0
  {
  }

  /** Two states that differ at most in whether an account of version 1 has a row. */
  ghost predicate SameVersions(s: State, t: State) {
    && s.users == t.users && s.tokens == t.tokens && s.minted == t.minted
    && s.versions.Keys <= s.users.Keys && t.versions.Keys <= t.users.Keys
    && forall id :: Version(s.versions, id) == Version(t.versions, id)
  }

  lemma BumpedSame(v: Versions, w: Versions, id: int)
    requires forall k :: Version(v, k) == Version(w, k)
    ensures forall k :: Version(Bumped(v, id), k) == Version(Bumped(w, id), k)
  {
    forall k ensures Version(Bumped(v, id), k) == Version(Bumped(w, id), k) {
      assert Version(v, k) == Version(w, k) && Version(v, id) == Version(w, id);
    }
  }

  lemma RegisterSame(s: State, t: State, e: Event)
    requires SameVersions(s, t) && e.Register?
    ensures SameVersions(Step(s, e).0, Step(t, e).0) && Step(s, e).1 == Step(t, e).1
  {
    var v, w := s.versions[e.id := 1], t.versions[e.id := 1];
    forall k ensures Version(v, k) == Version(w, k) {
      assert Version(s.versions, k) == Version(t.versions, k);
    }
  }

  lemma StepSameVersions(s: State, t: State, e: Event)
    requires SameVersions(s, t)
    ensures SameVersions(Step(s, e).0, Step(t, e).0) && Step(s, e).1 == Step(t, e).1
  {
    match e
    case Register(_, _) => RegisterSame(s, t, e);
    case UpdateStatus(id, _) => BumpedSame(s.versions, t.versions, id);
    case UpdatePassword(id, _) => BumpedSame(s.versions, t.versions, id);
    case Login(id, _, _, _) => assert Minted(s.versions, id) == Minted(t.versions, id);
    case Sign(id) => assert Minted(s.versions, id) == Minted(t.versions, id);
    case Refresh(spent, _, _, _, _) =>
      if spent in s.tokens {
        assert Minted(s.versions, s.tokens[spent].user) == Minted(t.versions, s.tokens[spent].user);
      }
    case _ =>
  }

  lemma {:induction false} RunSameVersions(s: State, t: State, run: seq<Event>, c: Claims)
    requires SameVersions(s, t)
    ensures Outcomes(s, run) == Outcomes(t, run)
    ensures Accepted(Run(s, run), c) <==> Accepted(Run(t, run), c)
    decreases |run|
  {
    if run != [] {
      StepSameVersions(s, t, run[0]);
      RunSameVersions(Step(s, run[0]).0, Step(t, run[0]).0, run[1..], c);
    }
  }

  /** A token without the claim is one with claim 1, and an account without a version row
      is one with version 1: no run tells them apart. */
  lemma AbsentIsOne(s: State, id: int, run: seq<Event>, c: Claims)
    requires id in s.users && id !in s.versions && s.versions.Keys <= s.users.Keys
    ensures c.authVersion.Missing? ==> (Accepted(s, c) <==> Accepted(s, c.(authVersion := Number(1.0))))
    ensures var t := s.(versions := s.versions[id := 1]);
            Outcomes(s, run) == Outcomes(t, run) && (Accepted(Run(s, run), c) <==> Accepted(Run(t, run), c))
  {
    RunSameVersions(s, s.(versions := s.versions[id := 1]), run, c);
  }

  // ---------------------------------------------------------------- refresh tokens

  /** The outcomes of a run, in order. */
  function Outcomes(s: State, run: seq<Event>): seq<Outcome>
    decreases |run|
  {
    if run == [] then [] else [Step(s, run[0]).1] + Outcomes(Step(s, run[0]).0, run[1..])
  }

  function Redemptions(outcomes: seq<Outcome>, hash: string): nat {
    if outcomes == [] then 0 else
      (if outcomes[0] == Redeemed(hash) then 1 else 0) + Redemptions(outcomes[1..], hash)
  }

  /** Rows are never removed and never become valid again. */
  lemma StepKeepsRevoked(s: State, e: Event, hash: string)
    ensures hash in s.tokens ==> hash in Step(s, e).0.tokens
    ensures hash in s.tokens && s.tokens[hash].revoked ==> Step(s, e).0.tokens[hash].revoked
    ensures Step(s, e).1 == Redeemed(hash) ==>
              hash in s.tokens && !s.tokens[hash].revoked && hash in Step(s, e).0.tokens && Step(s, e).0.tokens[hash].revoked
  {
  }

  /** A refresh token is redeemed at most once, and never after it was revoked. */
  lemma {:induction false} RedeemedOnce(s: State, run: seq<Event>, hash: string)
    ensures Redemptions(Outcomes(s, run), hash) <= if hash in s.tokens && s.tokens[hash].revoked then 0 else 1
    decreases |run|
  {
    if run != [] {
      StepKeepsRevoked(s, run[0], hash);
      RedeemedOnce(Step(s, run[0]).0, run[1..], hash);
      assert Outcomes(s, run)[1..] == Outcomes(Step(s, run[0]).0, run[1..]);
    }
  }

  function Unrevoked(tokens: Tokens, id: int): set<string> {
    set h | h in tokens && tokens[h].user == id && !tokens[h].revoked
  }

  /** Successful logins of `id` since its last revoke-all, after `earlier` of them. */
  function LoginsSince(s: State, run: seq<Event>, id: int, earlier: nat): nat
    decreases |run|
  {
    if run == [] then earlier else
      var (s', outcome) := Step(s, run[0]);
      LoginsSince(s', run[1..], id,
                  if run[0] == RevokeAll(id) then 0 else if outcome == LoggedIn(id) then earlier + 1 else earlier)
  }

  lemma InsertUnrevoked(tokens: Tokens, hash: string, row: RefreshRow, id: int)
    ensures Unrevoked(Inserted(tokens, hash, row), id) <= Unrevoked(tokens, id) + {hash}
    ensures row.user != id ==> Unrevoked(Inserted(tokens, hash, row), id) == Unrevoked(tokens, id)
  {
  }

  lemma RevokeUnrevoked(tokens: Tokens, hash: string, id: int)
    ensures Unrevoked(RevokedOne(tokens, hash), id) == Unrevoked(tokens, id) - {hash}
  {
  }

  lemma LoginUnrevoked(tokens: Tokens, hash: string, row: RefreshRow, id: int)
    ensures |Unrevoked(Inserted(tokens, hash, row), id)| <= |Unrevoked(tokens, id)| + if row.user == id then 1 else 0
  {
    InsertUnrevoked(tokens, hash, row, id);
    Smaller(Unrevoked(Inserted(tokens, hash, row), id), Unrevoked(tokens, id) + if row.user == id then {hash} else {});
  }

  lemma RotateUnrevoked(tokens: Tokens, spent: string, hash: string, row: RefreshRow, id: int)
    requires spent in tokens && !tokens[spent].revoked && row.user == tokens[spent].user
    ensures |Unrevoked(Inserted(RevokedOne(tokens, spent), hash, row), id)| <= |Unrevoked(tokens, id)|
  {
    var before := Unrevoked(tokens, id);
    var revoked := RevokedOne(tokens, spent);
    RevokeUnrevoked(tokens, spent, id);
    InsertUnrevoked(revoked, hash, row, id);
    if row.user == id {
      assert spent in before;
      Smaller(Unrevoked(Inserted(revoked, hash, row), id), before - {spent} + {hash});
    } else {
      Smaller(before - {spent}, before);
    }
  }

  lemma RefreshUnrevoked(s: State, e: Event, id: int)
    requires e.Refresh?
    ensures |Unrevoked(Step(s, e).0.tokens, id)| <= |Unrevoked(s.tokens, id)|
  {
    var before := Unrevoked(s.tokens, id);
    RevokeUnrevoked(s.tokens, e.spent, id);
    Smaller(before - {e.spent}, before);
    if Step(s, e).1 == Redeemed(e.spent) {
      RotateUnrevoked(s.tokens, e.spent, e.hash, RefreshRow(s.tokens[e.spent].user, e.expiresAt, false), id);
    }
  }

  lemma StepUnrevoked(s: State, e: Event, id: int)
    ensures var before, after := Unrevoked(s.tokens, id), Unrevoked(Step(s, e).0.tokens, id);
            && (e == RevokeAll(id) ==> after == {})
            && |after| <= |before| + if Step(s, e).1 == LoggedIn(id) then 1 else 0
  {
    var before, after := Unrevoked(s.tokens, id), Unrevoked(Step(s, e).0.tokens, id);
    match e
    case Login(user, _, hash, expiresAt) =>
      LoginUnrevoked(s.tokens, hash, RefreshRow(user, expiresAt, false), id);
    case Refresh(_, _, _, _, _) => RefreshUnrevoked(s, e, id);
    case RevokeAll(user) =>
      assert after == if user == id then {} else before;
    case Logout(hash) =>
      RevokeUnrevoked(s.tokens, hash, id);
      Smaller(after, before);
    case _ =>
  }

  lemma {:induction false} Smaller(small: set<string>, large: set<string>)
    requires small <= large
    ensures |small| <= |large|
  {
    if small != {} {
      var h :| h in small;
      Smaller(small - {h}, large - {h});
    }
  }

  /** Rotation never multiplies sessions: a user's valid refresh tokens never outnumber
      the successful logins since the last revoke-all. */
  lemma {:induction false} SessionsBounded(s: State, run: seq<Event>, id: int, earlier: nat)
    requires |Unrevoked(s.tokens, id)| <= earlier
    ensures |Unrevoked(Run(s, run).tokens, id)| <= LoginsSince(s, run, id, earlier)
    decreases |run|
  {
    if run != [] {
      StepUnrevoked(s, run[0], id);
      var (s', outcome) := Step(s, run[0]);
      SessionsBounded(s', run[1..], id,
                      if run[0] == RevokeAll(id) then 0 else if outcome == LoggedIn(id) then earlier + 1 else earlier);
    }
  }

  // ---------------------------------------------------------------- every step exactly

  /** The rows of `before` are all in `after`, unchanged but for those in `spent`, which are revoked. */
  ghost predicate Kept(before: Tokens, after: Tokens, spent: set<string>) {
    forall h :: h in before ==>
      h in after && after[h] == RefreshRow(before[h].user, before[h].expiresAt, before[h].revoked || h in spent)
  }

  /** A refresh is redeemed if and only if its row exists, is not revoked and not past its
      expiry, its user is there with status 1, the access check admits, and the new hash is
      fresh. The row spent is revoked in any case, an expired one too, and the only new row
      is the replacement: for the same user, with the expiry given. */
  lemma RefreshExactly(s: State, spent: string, now: int, admitted: bool, hash: string, expiresAt: int)
    ensures var (s', outcome) := Step(s, Refresh(spent, now, admitted, hash, expiresAt));
            && (outcome == Redeemed(spent) <==>
                  && spent in s.tokens && !s.tokens[spent].revoked && now <= s.tokens[spent].expiresAt * SECOND
                  && s.tokens[spent].user in s.users && s.users[s.tokens[spent].user].status == 1
                  && admitted && hash !in s.tokens)
            && (outcome == Redeemed(spent) || outcome == Refused)
            && Kept(s.tokens, s'.tokens, {spent})
            && (forall h :: h in s'.tokens && h !in s.tokens ==> outcome == Redeemed(spent) && h == hash)
            && (outcome == Redeemed(spent) ==>
                  && hash in s'.tokens && s'.tokens[hash] == RefreshRow(s.tokens[spent].user, expiresAt, false)
                  && Minted(s.versions, s.tokens[spent].user) in s'.minted)
            && s'.users == s.users && s'.versions == s.versions
  {
  }

  /** A login succeeds if and only if the account has status 1, the other checks admit it and
      the hash is fresh, and then adds one valid row for it and touches no other. */
  lemma LoginExactly(s: State, id: int, admitted: bool, hash: string, expiresAt: int)
    ensures var (s', outcome) := Step(s, Login(id, admitted, hash, expiresAt));
            && (outcome == LoggedIn(id) <==> id in s.users && s.users[id].status == 1 && admitted && hash !in s.tokens)
            && (outcome == LoggedIn(id) || outcome == Refused)
            && Kept(s.tokens, s'.tokens, {})
            && (forall h :: h in s'.tokens && h !in s.tokens ==> outcome == LoggedIn(id) && h == hash)
            && (outcome == LoggedIn(id) ==>
                  && hash in s'.tokens && s'.tokens[hash] == RefreshRow(id, expiresAt, false)
                  && Minted(s.versions, id) in s'.minted)
            && s'.users == s.users && s'.versions == s.versions
  {
  }

  /** A logout revokes the one token given, and a revoke-all exactly those of its user. */
  lemma RevokeExactly(s: State, hash: string, id: int)
    ensures var s' := Step(s, Logout(hash)).0;
            Kept(s.tokens, s'.tokens, {hash}) && s' == s.(tokens := s'.tokens) && s'.tokens.Keys == s.tokens.Keys
    ensures var s' := Step(s, RevokeAll(id)).0;
            && Kept(s.tokens, s'.tokens, set h | h in s.tokens && s.tokens[h].user == id)
            && s' == s.(tokens := s'.tokens) && s'.tokens.Keys == s.tokens.Keys
  {
  }

  /** The accounts of `before` and no others, unchanged but for `id`, which is `user` now. */
  ghost predicate OnlyChanged(before: map<int, User>, after: map<int, User>, id: int, user: User) {
    && after.Keys == before.Keys + {id} && after[id] == user
    && forall k :: k in before && k != id ==> after[k] == before[k]
  }

  /** Disabling an account and changing its password raise its version by one; enabling it
      raises none. No other account, and no refresh token, is touched. */
  lemma AccountExactly(s: State, e: Event, k: int)
    requires (e.UpdateStatus? || e.UpdatePassword?) && e.id in s.users
    ensures var s' := Step(s, e).0;
            && OnlyChanged(s.users, s'.users, e.id,
                           if e.UpdateStatus? then User(e.status, s.users[e.id].passwordHash)
                           else User(s.users[e.id].status, e.hash))
            && Version(s'.versions, k)
               == Version(s.versions, k) + (if k == e.id && (e.UpdatePassword? || e.status == 0) then 1 else 0)
            && s'.tokens == s.tokens && s'.minted == s.minted
  {
  }

  /** The middleware on any claims: the subject is positive and its whole part names an
      enabled account, and the whole part of the version claimed, or 1, is the account's. */
  lemma AcceptedExactly(s: State, c: Claims)
    ensures Accepted(s, c) <==>
            exists id :: id in s.users && s.users[id].status != 0
              && 0.0 < c.sub && id as real <= c.sub < id as real + 1.0
              && (match c.authVersion
                  case Missing => Version(s.versions, id) == 1
                  case NotANumber => false
                  case Number(v) => 1.0 <= v && Version(s.versions, id) as real <= v < Version(s.versions, id) as real + 1.0)
  {
    if Accepted(s, c) {
      assert c.sub.Floor in s.users;
    }
  }

  /** How often a run disables the account or changes its password. */
  function Bumps(run: seq<Event>, id: int): nat {
    if run == [] then 0 else
      var e := run[0];
      (if (e.UpdateStatus? && e.id == id && e.status == 0) || (e.UpdatePassword? && e.id == id) then 1 else 0)
      + Bumps(run[1..], id)
  }

  lemma StepBumps(s: State, e: Event, id: int)
    requires id in s.users
    ensures id in Step(s, e).0.users
    ensures Version(Step(s, e).0.versions, id) == Version(s.versions, id) + Bumps([e], id)
  {
  }

  lemma {:induction false} RunBumps(s: State, run: seq<Event>, id: int)
    requires id in s.users
    ensures id in Run(s, run).users
    ensures Version(Run(s, run).versions, id) == Version(s.versions, id) + Bumps(run, id)
    decreases |run|
  {
    if run != [] {
      assert Bumps(run, id) == Bumps([run[0]], id) + Bumps(run[1..], id);
      StepBumps(s, run[0], id);
      RunBumps(Step(s, run[0]).0, run[1..], id);
    }
  }

  /** A token signed now is accepted after any further run if and only if that run neither
      disabled its account nor changed its password, and leaves the account enabled. */
  lemma TokenLivesExactly(s: State, run: seq<Event>, id: int)
    requires Invariant(s) && id > 0 && id in s.users
    ensures var end := Run(s, run);
            id in end.users
            && (Accepted(end, Minted(s.versions, id)) <==> Bumps(run, id) == 0 && end.users[id].status != 0)
  {
    RunBumps(s, run, id);
  }
}
