/**
 The writes behind the sign-in, logout and back-channel logout routes and the bearer gate's person
 paths: accounts, sessions and the audit log, each entry serialized by the host.
 */
module SignIn {
  import opened Wrappers
  import opened Collections
  import opened Text
  import opened Admission
  import opened SessionLifetime
  import opened SessionStore

  datatype Account = Account(username: string, role: string)

  type Accounts = map<UserId, Account>

  datatype AccountEvent =
    | UserCreated(subject: UserId, role: string)
    | RoleChanged(subject: UserId, role: string, previousRole: string)
    | BackchannelLogout(subject: UserId)

  /** Whom the issuer vouched for. */
  datatype Claimant = Claimant(subject: UserId, preferredUsername: Option<string>)

  /** The store refused a new account's username. */
  datatype UsernameTaken = UsernameTaken

  datatype UnknownAccount = UnknownAccount

  class UserStore {
    var accounts: Accounts
    const uniqueUsernames: bool

    constructor (uniqueUsernames: bool)
      ensures accounts == map[] && this.uniqueUsernames == uniqueUsernames
    {
      accounts, this.uniqueUsernames := map[], uniqueUsernames;
    }

    method Get(user: UserId) returns (account: Option<Account>)
      ensures account == if user in accounts then Some(accounts[user]) else None
    {
      account := if user in accounts then Some(accounts[user]) else None;
    }

    method CreateForSubject(subject: UserId, username: string, role: string) returns (r: Result<Account, UsernameTaken>)
      requires subject !in accounts
      modifies this
      ensures r.Failure? <==> IsTaken(old(accounts), uniqueUsernames, username)
      ensures r.Failure? ==> accounts == old(accounts)
      ensures r.Success? ==> r.value == Account(username, role) && accounts == old(accounts)[subject := r.value]
    {
      if uniqueUsernames && exists user :: user in accounts && accounts[user].username == username {
        return Failure(UsernameTaken);
      }
      accounts := accounts[subject := Account(username, role)];
      return Success(Account(username, role));
    }

    /** An unknown account raises: the host's own defect, since admission asks only for one it just read. */
    method SetRole(user: UserId, role: string) returns (r: Result<Account, UnknownAccount>)
      modifies this
      ensures r.Failure? <==> user !in old(accounts)
      ensures r.Failure? ==> accounts == old(accounts)
      ensures r.Success? ==>
                accounts == old(accounts)[user := old(accounts)[user].(role := role)] && r.value == accounts[user]
    {
      if user !in accounts {
        return Failure(UnknownAccount);
      }
      accounts := accounts[user := accounts[user].(role := role)];
      return Success(accounts[user]);
    }
  }

  class AuditLog {
    var events: seq<AccountEvent>

    constructor ()
      ensures events == []
    {
      events := [];
    }

    method Record(event: AccountEvent)
      modifies this
      ensures events == old(events) + [event]
    {
      events := events + [event];
    }
  }

  // ----- admitting an account -----

  predicate IsTaken(accounts: Accounts, unique: bool, username: string) {
    unique && exists user :: user in accounts && accounts[user].username == username
  }

  function UsernameFor(claimant: Claimant): string {
    match claimant.preferredUsername
    case Some(suggested) => if !IsBlank(suggested) then suggested else claimant.subject
    case None => claimant.subject
  }

  /** A known subject keeps its account and follows the role; a new one is created unless its name is taken. */
  predicate IsRefusedAsTaken(accounts: Accounts, unique: bool, claimant: Claimant) {
    claimant.subject !in accounts && IsTaken(accounts, unique, UsernameFor(claimant))
  }

  function AdmittedAccounts(accounts: Accounts, claimant: Claimant, role: string): Accounts {
    if claimant.subject in accounts
    then accounts[claimant.subject := accounts[claimant.subject].(role := role)]
    else accounts[claimant.subject := Account(UsernameFor(claimant), role)]
  }

  function AdmissionEvents(accounts: Accounts, claimant: Claimant, role: string): seq<AccountEvent> {
    if claimant.subject !in accounts then [UserCreated(claimant.subject, role)]
    else if accounts[claimant.subject].role == role then []
    else [RoleChanged(claimant.subject, role, accounts[claimant.subject].role)]
  }

  method WithRole(subject: UserId, account: Account, role: string, accounts: UserStore, audit: AuditLog) returns (r: Account)
    requires subject in accounts.accounts && accounts.accounts[subject] == account
    modifies accounts, audit
    ensures r == account.(role := role)
    ensures accounts.accounts == old(accounts.accounts)[subject := r]
    ensures audit.events == old(audit.events) +
            if account.role == role then [] else [RoleChanged(subject, role, account.role)]
  {
    var previousRole := account.role;
    if previousRole == role {
      return account;
    }
    var updated := accounts.SetRole(subject, role);
    r := updated.value;
    audit.Record(RoleChanged(subject, role, previousRole));
  }

  method Provision(claimant: Claimant, role: string, accounts: UserStore, audit: AuditLog)
    returns (r: Result<Account, UsernameTaken>)
    requires claimant.subject !in accounts.accounts
    modifies accounts, audit
    ensures r.Failure? <==> IsTaken(old(accounts.accounts), accounts.uniqueUsernames, UsernameFor(claimant))
    ensures r.Failure? ==> accounts.accounts == old(accounts.accounts) && audit.events == old(audit.events)
    ensures r.Success? ==>
              && r.value == Account(UsernameFor(claimant), role)
              && accounts.accounts == old(accounts.accounts)[claimant.subject := r.value]
              && audit.events == old(audit.events) + [UserCreated(claimant.subject, role)]
  {
    r := accounts.CreateForSubject(claimant.subject, UsernameFor(claimant), role);
    if r.Success? {
      audit.Record(UserCreated(claimant.subject, r.value.role));
    }
  }

  method AdmitAccount(claimant: Claimant, role: string, accounts: UserStore, audit: AuditLog)
    returns (r: Result<Account, UsernameTaken>)
    modifies accounts, audit
    ensures r.Failure? <==> IsRefusedAsTaken(old(accounts.accounts), accounts.uniqueUsernames, claimant)
    ensures r.Failure? ==> accounts.accounts == old(accounts.accounts) && audit.events == old(audit.events)
    ensures r.Success? ==>
              && accounts.accounts == AdmittedAccounts(old(accounts.accounts), claimant, role)
              && r.value == accounts.accounts[claimant.subject]
              && audit.events == old(audit.events) + AdmissionEvents(old(accounts.accounts), claimant, role)
  {
    var account := accounts.Get(claimant.subject);
    if account.None? {
      r := Provision(claimant, role, accounts, audit);
    } else {
      var updated := WithRole(claimant.subject, account.value, role, accounts, audit);
      r := Success(updated);
    }
  }

  // ----- the entries -----

  function AfterReplacing(rows: Rows, replaced: Option<SessionId>): Rows {
    if replaced.Some? then Without(rows, {replaced.value}) else rows
  }

  /** What pruning before a sign-in may end: all but the newest `maxSessions - 1`, or nothing without a cap. */
  ghost predicate ArePruned(rows: Rows, user: UserId, maxSessions: Option<int>, ended: set<SessionId>) {
    if maxSessions.Some? && maxSessions.value > 0 then AreOverflow(rows, user, maxSessions.value - 1, ended) else ended == {}
  }

  /** The replaced session is gone, everybody else's stand, and each that stands is as it was. */
  ghost predicate LeavesOthers(before: Rows, after: Rows, user: UserId, replaced: Option<SessionId>, created: SessionId) {
    && created in after && created !in before
    && (replaced.Some? && replaced.value != created ==> replaced.value !in after)
    && (forall id :: id in after && id != created ==> id in before && after[id] == before[id])
    && (forall id :: id in before && before[id].user != user && replaced != Some(id) ==> id in after)
  }

  /** Of these sessions of the account so many are left, and none that is left is older than one that went. */
  ghost predicate LeavesTheNewest(before: Rows, mine: set<SessionId>, standing: set<SessionId>, maxSessions: Option<int>)
    requires mine <= before.Keys
  {
    && standing <= mine
    && |standing| == (if maxSessions.Some? && maxSessions.value - 1 < |mine| then maxSessions.value - 1 else |mine|)
    && (forall gone, kept :: gone in mine - standing && kept in standing ==> before[gone].createdAt <= before[kept].createdAt)
  }

  /**
   What a sign-in makes of the sessions, told by the rows alone: the replaced one is gone; of the
   account's others the newest `maxSessions - 1` stand, and all of them without a cap; everybody else's
   stand; and each that stands is as it was.
   */
  ghost predicate IsSignedIn(
      before: Rows, after: Rows, user: UserId, replaced: Option<SessionId>, maxSessions: Option<int>, created: SessionId)
  {
    && LeavesOthers(before, after, user, replaced, created)
    && LeavesTheNewest(before, OfUser(before, user) - (if replaced.Some? then {replaced.value} else {}),
                       OfUser(after, user) - {created}, maxSessions)
  }

  /** A row created now, one idle window long. */
  predicate IsOpened(row: Row, lifetime: Lifetime, user: UserId, now: int, refreshToken: Option<Token>, idToken: Option<string>) {
    && row.user == user && row.createdAt == now && row.expiresAt == now + lifetime.idle
    && row.refreshToken == refreshToken && row.idToken == idToken
  }

  lemma SignedInExactly(
      before: Rows, user: UserId, replaced: Option<SessionId>, maxSessions: Option<int>, ended: set<SessionId>,
      created: SessionId, row: Row)
    requires maxSessions.Some? ==> maxSessions.value > 0
    requires created !in before && row.user == user
    requires ArePruned(AfterReplacing(before, replaced), user, maxSessions, ended)
    ensures IsSignedIn(before, Without(AfterReplacing(before, replaced), ended)[created := row], user, replaced, maxSessions, created)
  {
    OthersAreLeft(before, user, replaced, ended, created, row);
    SessionsOfTheUser(before, user, replaced, ended, created, row);
    PrunedLeavesTheNewest(before, AfterReplacing(before, replaced), user, maxSessions, ended);
  }

  lemma OthersAreLeft(
      before: Rows, user: UserId, replaced: Option<SessionId>, ended: set<SessionId>, created: SessionId, row: Row)
    requires created !in before && ended <= OfUser(AfterReplacing(before, replaced), user)
    ensures LeavesOthers(before, Without(AfterReplacing(before, replaced), ended)[created := row], user, replaced, created)
  {
  }

  lemma SessionsOfTheUser(
      before: Rows, user: UserId, replaced: Option<SessionId>, ended: set<SessionId>, created: SessionId, row: Row)
    requires created !in before && row.user == user
    ensures var left := AfterReplacing(before, replaced);
            && OfUser(left, user) == OfUser(before, user) - (if replaced.Some? then {replaced.value} else {})
            && OfUser(Without(left, ended)[created := row], user) - {created} == OfUser(left, user) - ended
  {
  }

  lemma PrunedLeavesTheNewest(before: Rows, left: Rows, user: UserId, maxSessions: Option<int>, ended: set<SessionId>)
    requires maxSessions.Some? ==> maxSessions.value > 0
    requires ArePruned(left, user, maxSessions, ended)
    requires forall id :: id in left ==> id in before && left[id] == before[id]
    ensures LeavesTheNewest(before, OfUser(left, user), OfUser(left, user) - ended, maxSessions)
  {
    if maxSessions.None? {
      assert OfUser(left, user) - ended == OfUser(left, user);
    }
  }

  function NewRow(lifetime: Lifetime, user: UserId, now: int, refreshToken: Option<Token>, idToken: Option<string>): Row {
    Row(user, now, RenewedExpiry(lifetime, now, now), refreshToken, idToken)
  }

  /** One sign-in: the account, the replaced session, the overflow, the new session, in that order. */
  method WriteSignIn(
      claimant: Claimant, role: string, refreshToken: Option<Token>, idToken: string,
      accounts: UserStore, sessions: SessionStore, audit: AuditLog,
      lifetime: Lifetime, now: int, replaced: Option<SessionId>, maxSessions: Option<int>, keepsIdToken: bool)
    returns (r: Result<SessionId, UsernameTaken>, ghost ended: set<SessionId>)
    requires sessions.Valid() && (maxSessions.Some? ==> maxSessions.value > 0)
    modifies accounts, sessions, audit
    ensures sessions.Valid()
    ensures r.Failure? <==> IsRefusedAsTaken(old(accounts.accounts), accounts.uniqueUsernames, claimant)
    ensures r.Failure? ==> accounts.accounts == old(accounts.accounts) && audit.events == old(audit.events)
                           && sessions.rows == old(sessions.rows) && sessions.minted == old(sessions.minted)
    ensures r.Success? ==>
              && accounts.accounts == AdmittedAccounts(old(accounts.accounts), claimant, role)
              && audit.events == old(audit.events) + AdmissionEvents(old(accounts.accounts), claimant, role)
              && r.value == old(sessions.minted) && sessions.minted == old(sessions.minted) + 1
              && IsSignedIn(old(sessions.rows), sessions.rows, claimant.subject, replaced, maxSessions, r.value)
              && IsOpened(sessions.rows[r.value], lifetime, claimant.subject, now, refreshToken,
                          if keepsIdToken then Some(idToken) else None)
              && ArePruned(AfterReplacing(old(sessions.rows), replaced), claimant.subject, maxSessions, ended)
              && sessions.rows ==
                 Without(AfterReplacing(old(sessions.rows), replaced), ended)
                   [r.value := NewRow(lifetime, claimant.subject, now, refreshToken, if keepsIdToken then Some(idToken) else None)]
  {
    ended := {};
    var account := AdmitAccount(claimant, role, accounts, audit);
    if account.Failure? {
      return Failure(account.error), ended;
    }
    var id: SessionId;
    id, ended := OpenSession(
      sessions, claimant.subject, lifetime, now, refreshToken, if keepsIdToken then Some(idToken) else None, replaced, maxSessions);
    r := Success(id);
  }

  /** ... the part on the sessions. */
  method OpenSession(
      sessions: SessionStore, user: UserId, lifetime: Lifetime, now: int, refreshToken: Option<Token>, idToken: Option<string>,
      replaced: Option<SessionId>, maxSessions: Option<int>)
    returns (id: SessionId, ghost ended: set<SessionId>)
    requires sessions.Valid() && (maxSessions.Some? ==> maxSessions.value > 0)
    modifies sessions
    ensures sessions.Valid() && id == old(sessions.minted) && sessions.minted == old(sessions.minted) + 1
    ensures IsSignedIn(old(sessions.rows), sessions.rows, user, replaced, maxSessions, id)
    ensures IsOpened(sessions.rows[id], lifetime, user, now, refreshToken, idToken)
    ensures ArePruned(AfterReplacing(old(sessions.rows), replaced), user, maxSessions, ended)
    ensures sessions.rows ==
            Without(AfterReplacing(old(sessions.rows), replaced), ended)[id := NewRow(lifetime, user, now, refreshToken, idToken)]
  {
    ended := {};
    if replaced.Some? {
      sessions.Delete(replaced.value);
    }
    assert sessions.rows == AfterReplacing(old(sessions.rows), replaced);
    if maxSessions.Some? {
      ended := sessions.PruneOverflow(user, maxSessions.value - 1);
    } else {
      assert Without(sessions.rows, {}) == sessions.rows;
    }
    id := sessions.Create(user, now, RenewedExpiry(lifetime, now, now), refreshToken, idToken);
    SignedInExactly(old(sessions.rows), user, replaced, maxSessions, ended, id, sessions.rows[id]);
  }

  method IdTokenOfEndedSession(sessions: SessionStore, id: SessionId) returns (idToken: Option<string>)
    requires sessions.Valid()
    modifies sessions`rows
    ensures sessions.Valid()
    ensures idToken == if id in old(sessions.rows) then old(sessions.rows)[id].idToken else None
    ensures sessions.rows == Without(old(sessions.rows), {id})
  {
    var record := sessions.Load(id);
    idToken := if record.Some? then record.value.idToken else None;
    sessions.Delete(id);
  }

  function LogoutEvents(accounts: Accounts, rows: Rows, subject: UserId): seq<AccountEvent> {
    if subject in accounts && OfUser(rows, subject) != {} then [BackchannelLogout(subject)] else []
  }

  function AfterBackchannelLogout(accounts: Accounts, rows: Rows, subject: UserId): Rows {
    if subject in accounts then Without(rows, OfUser(rows, subject)) else rows
  }

  /** A known subject's sessions are gone, everybody else's stand as they were, and an unknown subject's logout ends none. */
  ghost predicate IsLoggedOut(accounts: Accounts, before: Rows, after: Rows, subject: UserId) {
    && (forall id :: id in after <==> id in before && !(subject in accounts && before[id].user == subject))
    && (forall id :: id in after ==> after[id] == before[id])
  }

  method ReceiveBackchannelLogout(subject: UserId, accounts: UserStore, sessions: SessionStore, audit: AuditLog)
    requires sessions.Valid()
    modifies sessions`rows, audit
    ensures sessions.Valid()
    ensures sessions.rows == AfterBackchannelLogout(accounts.accounts, old(sessions.rows), subject)
    ensures audit.events == old(audit.events) + LogoutEvents(accounts.accounts, old(sessions.rows), subject)
    ensures IsLoggedOut(accounts.accounts, old(sessions.rows), sessions.rows, subject)
    ensures audit.events ==
            if sessions.rows == old(sessions.rows) then old(audit.events) else old(audit.events) + [BackchannelLogout(subject)]
  {
    var account := accounts.Get(subject);
    if account.Some? {
      var ended := sessions.DeleteForUser(subject);
      if ended != 0 {
        assert exists id :: id in OfUser(old(sessions.rows), subject);
        audit.Record(BackchannelLogout(subject));
      } else {
        assert sessions.rows == old(sessions.rows);
      }
    }
  }

  // ----- runs -----

  datatype State = State(accounts: Accounts, rows: Rows, minted: nat, audit: seq<AccountEvent>)

  const EMPTY := State(map[], map[], 0, [])

  datatype Host = Host(admission: AdmissionConfig, lifetime: Lifetime, uniqueUsernames: bool, maxSessions: Option<int>)

  /** `pruned` are the sessions the store ends where the contract leaves it a choice. */
  datatype Entry =
    | SignInEntry(claimant: Claimant, issuer: string, groups: seq<string>, refreshToken: Option<Token>,
                  idToken: Option<string>, now: int, replaced: Option<SessionId>, pruned: set<SessionId>)
    | TokenEntry(claimant: Claimant, groups: seq<string>)
    | LogoutEntry(session: SessionId)
    | BackchannelEntry(subject: UserId)

  /** The role a sign-in is admitted with: the bound issuer's word, and membership. */
  function DecidedRole(host: Host, issuer: string, groups: seq<string>): Option<string> {
    if issuer != host.admission.boundIssuer then None else AppRole(groups, host.admission)
  }

  /** Whom an entry admits, and as which role. */
  function Admitted(host: Host, s: State, entry: Entry): Option<(Claimant, string)> {
    match entry
    case SignInEntry(claimant, issuer, groups, _, _, _, _, _) =>
      var role := DecidedRole(host, issuer, groups);
      if role.None? || IsRefusedAsTaken(s.accounts, host.uniqueUsernames, claimant) then None
      else Some((claimant, role.value))
    case TokenEntry(claimant, groups) =>
      var role := AppRole(groups, host.admission);
      if role.None? || IsRefusedAsTaken(s.accounts, host.uniqueUsernames, claimant) then None
      else Some((claimant, role.value))
    case _ => None
  }

  function WithAccount(s: State, admitted: (Claimant, string)): State {
    s.(accounts := AdmittedAccounts(s.accounts, admitted.0, admitted.1),
       audit := s.audit + AdmissionEvents(s.accounts, admitted.0, admitted.1))
  }

  /** An entry whose pruning the contract does not allow does not happen. */
  ghost function Act(host: Host, s: State, entry: Entry): State {
    match entry
    case SignInEntry(claimant, _, _, refreshToken, idToken, now, replaced, pruned) =>
      var admitted := Admitted(host, s, entry);
      var left := AfterReplacing(s.rows, replaced);
      if admitted.None? || !ArePruned(left, claimant.subject, host.maxSessions, pruned) then s
      else
        var row := NewRow(host.lifetime, claimant.subject, now, refreshToken, idToken);
        WithAccount(s, admitted.value).(rows := Without(left, pruned)[s.minted := row], minted := s.minted + 1)
    case TokenEntry(_, _) =>
      var admitted := Admitted(host, s, entry);
      if admitted.None? then s else WithAccount(s, admitted.value)
    case LogoutEntry(id) => s.(rows := Without(s.rows, {id}))
    case BackchannelEntry(subject) =>
      s.(rows := AfterBackchannelLogout(s.accounts, s.rows, subject),
         audit := s.audit + LogoutEvents(s.accounts, s.rows, subject))
  }

  ghost function Run(host: Host, entries: seq<Entry>): State {
    if entries == [] then EMPTY
    else Act(host, Run(host, entries[..|entries| - 1]), entries[|entries| - 1])
  }

  // ----- the session cap -----

  ghost predicate KeepsTheCap(s: State, cap: int) {
    && (forall id :: id in s.rows ==> id < s.minted)
    && (forall user :: |OfUser(s.rows, user)| <= cap)
  }

  lemma EndingKeepsTheCap(rows: Rows, ended: set<SessionId>, user: UserId)
    ensures OfUser(Without(rows, ended), user) == OfUser(rows, user) - ended
    ensures |OfUser(Without(rows, ended), user)| <= |OfUser(rows, user)|
  {
    SubsetCount(OfUser(rows, user) - ended, OfUser(rows, user));
  }

  lemma OpenedFor(rows: Rows, id: SessionId, row: Row, user: UserId)
    requires id !in rows
    ensures |OfUser(rows[id := row], user)| == |OfUser(rows, user)| + if user == row.user then 1 else 0
  {
    var created := if user == row.user then {id} else {};
    assert OfUser(rows[id := row], user) == OfUser(rows, user) + created;
  }

  lemma OpeningKeepsTheCap(left: Rows, pruned: set<SessionId>, id: SessionId, row: Row, cap: int, user: UserId)
    requires id !in left && cap > 0
    requires |OfUser(left, user)| <= cap && ArePruned(left, row.user, Some(cap), pruned)
    ensures |OfUser(Without(left, pruned)[id := row], user)| <= cap
  {
    EndingKeepsTheCap(left, pruned, user);
    OpenedFor(Without(left, pruned), id, row, user);
  }

  lemma SignInKeepsTheCap(host: Host, s: State, entry: Entry, user: UserId)
    requires host.maxSessions.Some? && host.maxSessions.value > 0 && KeepsTheCap(s, host.maxSessions.value)
    requires entry.SignInEntry? && Act(host, s, entry) != s
    ensures |OfUser(Act(host, s, entry).rows, user)| <= host.maxSessions.value
  {
    var left := AfterReplacing(s.rows, entry.replaced);
    if entry.replaced.Some? {
      EndingKeepsTheCap(s.rows, {entry.replaced.value}, user);
    }
    var row := NewRow(host.lifetime, entry.claimant.subject, entry.now, entry.refreshToken, entry.idToken);
    OpeningKeepsTheCap(left, entry.pruned, s.minted, row, host.maxSessions.value, user);
  }

  lemma EntryKeepsTheCap(host: Host, s: State, entry: Entry)
    requires host.maxSessions.Some? && host.maxSessions.value > 0 && KeepsTheCap(s, host.maxSessions.value)
    ensures KeepsTheCap(Act(host, s, entry), host.maxSessions.value)
  {
    var t := Act(host, s, entry);
    forall user ensures |OfUser(t.rows, user)| <= host.maxSessions.value {
      match entry {
        case SignInEntry(_, _, _, _, _, _, _, _) =>
          if t != s {
            SignInKeepsTheCap(host, s, entry, user);
          }
        case TokenEntry(_, _) =>
        case LogoutEntry(id) => EndingKeepsTheCap(s.rows, {id}, user);
        case BackchannelEntry(subject) => EndingKeepsTheCap(s.rows, OfUser(s.rows, subject), user);
      }
    }
  }

  /** Over every run from empty stores no account ever holds more sessions than the cap. */
  lemma {:induction false} NoAccountExceedsTheCap(host: Host, entries: seq<Entry>)
    requires host.maxSessions.Some? && host.maxSessions.value > 0
    ensures KeepsTheCap(Run(host, entries), host.maxSessions.value)
  {
    if entries != [] {
      NoAccountExceedsTheCap(host, entries[..|entries| - 1]);
      EntryKeepsTheCap(host, Run(host, entries[..|entries| - 1]), entries[|entries| - 1]);
    } else {
      assert forall user :: OfUser(EMPTY.rows, user) == {};
    }
  }

  /**
   A sign-in ends no session but the one it replaces and its own account's; every other session
   stands unchanged, and of its own account's it ends none newer than one it keeps.
   */
  lemma SignInEndsOnlyItsOwn(host: Host, s: State, entry: Entry, id: SessionId)
    requires entry.SignInEntry? && id in s.rows && forall other :: other in s.rows ==> other < s.minted
    ensures var t := Act(host, s, entry);
            && (id in t.rows ==> t.rows[id] == s.rows[id])
            && (id !in t.rows && entry.replaced != Some(id) ==>
                  && s.rows[id].user == entry.claimant.subject
                  && host.maxSessions.Some?
                  && forall kept :: kept in t.rows && kept in s.rows && s.rows[kept].user == entry.claimant.subject ==>
                       s.rows[id].createdAt <= s.rows[kept].createdAt)
  {
    var left := AfterReplacing(s.rows, entry.replaced);
    var t := Act(host, s, entry);
    if id !in t.rows && entry.replaced != Some(id) {
      assert id in left && id in entry.pruned;
      forall kept | kept in t.rows && kept in s.rows && s.rows[kept].user == entry.claimant.subject
        ensures s.rows[id].createdAt <= s.rows[kept].createdAt
      {
        if kept != s.minted {
          assert kept in OfUser(left, entry.claimant.subject) - entry.pruned;
        }
      }
    }
  }

  predicate HasMintedIds(s: State) {
    forall id :: id in s.rows ==> id < s.minted
  }

  lemma ActKeepsMintedIds(host: Host, s: State, entry: Entry)
    requires HasMintedIds(s)
    ensures HasMintedIds(Act(host, s, entry))
  {
  }

  lemma {:induction false} MintedIdsOnly(host: Host, entries: seq<Entry>)
    ensures HasMintedIds(Run(host, entries))
  {
    if entries != [] {
      MintedIdsOnly(host, entries[..|entries| - 1]);
      ActKeepsMintedIds(host, Run(host, entries[..|entries| - 1]), entries[|entries| - 1]);
    }
  }

  /**
   In every run a sign-in that happens leaves the sessions as told by their rows alone, with its own
   new one; one that does not happen leaves everything as it was, and some pruning lets any admitted one.
   */
  lemma SignInExactly(host: Host, entries: seq<Entry>, entry: Entry) returns (pruned: set<SessionId>)
    requires entry.SignInEntry? && (host.maxSessions.Some? ==> host.maxSessions.value > 0)
    ensures var s, t := Run(host, entries), Act(host, Run(host, entries), entry);
            t == s ||
            (&& t.minted == s.minted + 1
             && IsSignedIn(s.rows, t.rows, entry.claimant.subject, entry.replaced, host.maxSessions, s.minted)
             && IsOpened(t.rows[s.minted], host.lifetime, entry.claimant.subject, entry.now, entry.refreshToken, entry.idToken))
    ensures var s := Run(host, entries);
            Admitted(host, s, entry).Some? ==> Act(host, s, entry.(pruned := pruned)).minted == s.minted + 1
  {
    MintedIdsOnly(host, entries);
    var s, t := Run(host, entries), Act(host, Run(host, entries), entry);
    if t != s {
      SignedInExactly(s.rows, entry.claimant.subject, entry.replaced, host.maxSessions, entry.pruned, s.minted, t.rows[s.minted]);
    }
    pruned := {};
    if host.maxSessions.Some? {
      pruned := SomeOverflow(AfterReplacing(s.rows, entry.replaced), entry.claimant.subject, host.maxSessions.value - 1);
    }
  }

  /** A logout ends the one session it names, a back-channel logout all of a known subject's, and neither any other. */
  lemma LogoutExactly(host: Host, s: State, entry: Entry)
    requires entry.LogoutEntry? || entry.BackchannelEntry?
    ensures var t := Act(host, s, entry);
            && t.accounts == s.accounts && t.minted == s.minted
            && (entry.LogoutEntry? ==>
                  && (forall id :: id in t.rows <==> id in s.rows && id != entry.session)
                  && t.audit == s.audit)
            && (entry.BackchannelEntry? ==>
                  && IsLoggedOut(s.accounts, s.rows, t.rows, entry.subject)
                  && t.audit == if t.rows == s.rows then s.audit else s.audit + [BackchannelLogout(entry.subject)])
            && (forall id :: id in t.rows ==> t.rows[id] == s.rows[id])
  {
    if entry.BackchannelEntry? && entry.subject in s.accounts && OfUser(s.rows, entry.subject) != {} {
      assert exists id :: id in OfUser(s.rows, entry.subject);
    }
  }

  // ----- whom an entry admits, and what of the accounts -----

  /** The suggested name, unless it is missing or all whitespace. */
  lemma UsernameExactly(claimant: Claimant)
    ensures UsernameFor(claimant) ==
            if exists name, i :: claimant.preferredUsername == Some(name) && 0 <= i < |name| && !IsWhitespace(name[i])
            then claimant.preferredUsername.value else claimant.subject
  {
    if claimant.preferredUsername.Some? {
      var name := claimant.preferredUsername.value;
      if !IsBlank(name) {
        var i :| 0 <= i < |name| && !IsWhitespace(name[i]);
        assert claimant.preferredUsername == Some(name);
      }
    }
  }

  /**
   An entry admits exactly whom the bound issuer vouched for, if it is a sign-in, who belongs to the
   login group, and whose name, if the account is new, no other account holds where names are unique;
   the admin group's as admins, all others as users.
   */
  lemma AdmittedExactly(host: Host, s: State, entry: Entry)
    requires entry.SignInEntry? || entry.TokenEntry?
    ensures var config, accounts, subject := host.admission, s.accounts, entry.claimant.subject;
            var isVouchedFor := entry.SignInEntry? ==> entry.issuer == config.boundIssuer;
            var isMember := config.loginGroup.LoginPath? ==> BelongsTo(config.loginGroup.path, entry.groups);
            var isAdmin := config.adminGroup.AdminPath? && BelongsTo(config.adminGroup.path, entry.groups);
            var isTaken := host.uniqueUsernames && subject !in accounts &&
                           exists user :: user in accounts && accounts[user].username == UsernameFor(entry.claimant);
            Admitted(host, s, entry) ==
            if isVouchedFor && isMember && !isTaken then Some((entry.claimant, if isAdmin then "admin" else "user")) else None
  {
    RoleExactly(entry.groups, host.admission);
  }

  /** An admission changes the one account and records what it changed: a new account, or a role that differs. */
  lemma AdmissionExactly(host: Host, s: State, entry: Entry)
    requires Admitted(host, s, entry).Some? && Happens(host, s, entry)
    ensures var t := Act(host, s, entry);
            var (claimant, role) := Admitted(host, s, entry).value;
            var subject := claimant.subject;
            && t.accounts.Keys == s.accounts.Keys + {subject}
            && (forall user :: user in s.accounts && user != subject ==> t.accounts[user] == s.accounts[user])
            && t.accounts[subject].role == role
            && t.accounts[subject].username == (if subject in s.accounts then s.accounts[subject].username else UsernameFor(claimant))
            && (subject !in s.accounts ==> t.audit == s.audit + [UserCreated(subject, role)])
            && (subject in s.accounts && s.accounts[subject].role != role ==>
                  t.audit == s.audit + [RoleChanged(subject, role, s.accounts[subject].role)])
            && (subject in s.accounts && s.accounts[subject].role == role ==> t.audit == s.audit)
  {
  }

  predicate HasUniqueNames(accounts: Accounts) {
    forall a, b :: a in accounts && b in accounts && accounts[a].username == accounts[b].username ==> a == b
  }

  /** Where the store refuses a taken name, no run ever gives two accounts one name. */
  lemma {:induction false} UniqueNamesStayUnique(host: Host, entries: seq<Entry>)
    requires host.uniqueUsernames
    ensures HasUniqueNames(Run(host, entries).accounts)
  {
    if entries != [] {
      UniqueNamesStayUnique(host, entries[..|entries| - 1]);
      var s, entry := Run(host, entries[..|entries| - 1]), entries[|entries| - 1];
      if Admitted(host, s, entry).Some? && Happens(host, s, entry) {
        AdmissionExactly(host, s, entry);
      }
    }
  }

  // ----- the audit log -----

  type Roles = map<UserId, string>

  function RolesOf(accounts: Accounts): Roles {
    map user | user in accounts :: accounts[user].role
  }

  /** Replays the log; `None` when an event does not follow from the ones before it. */
  function Replay(events: seq<AccountEvent>): Option<Roles> {
    if events == [] then Some(map[])
    else
      var before := Replay(events[..|events| - 1]);
      if before.None? then None
      else
        match events[|events| - 1]
        case UserCreated(subject, role) =>
          if subject in before.value then None else Some(before.value[subject := role])
        case RoleChanged(subject, role, previousRole) =>
          if subject in before.value && before.value[subject] == previousRole && role != previousRole
          then Some(before.value[subject := role]) else None
        case BackchannelLogout(subject) => if subject in before.value then before else None
  }

  lemma ReplayOneMore(events: seq<AccountEvent>, event: AccountEvent)
    ensures Replay(events + [event]) ==
            (if Replay(events).None? then None
             else match event
                  case UserCreated(subject, role) =>
                    if subject in Replay(events).value then None else Some(Replay(events).value[subject := role])
                  case RoleChanged(subject, role, previousRole) =>
                    if subject in Replay(events).value && Replay(events).value[subject] == previousRole && role != previousRole
                    then Some(Replay(events).value[subject := role]) else None
                  case BackchannelLogout(subject) =>
                    if subject in Replay(events).value then Replay(events) else None)
  {
    var all := events + [event];
    assert all[..|all| - 1] == events;
  }

  lemma AdmissionKeepsTheReplay(s: State, claimant: Claimant, role: string)
    requires Replay(s.audit) == Some(RolesOf(s.accounts))
    ensures var t := WithAccount(s, (claimant, role)); Replay(t.audit) == Some(RolesOf(t.accounts))
  {
    var events := AdmissionEvents(s.accounts, claimant, role);
    AdmittedRoles(s.accounts, claimant, role);
    if events == [] {
      assert s.audit + events == s.audit;
      assert RolesOf(s.accounts)[claimant.subject := role] == RolesOf(s.accounts);
    } else {
      assert events == [events[0]];
      ReplayOneMore(s.audit, events[0]);
    }
  }

  lemma AdmittedRoles(accounts: Accounts, claimant: Claimant, role: string)
    ensures RolesOf(AdmittedAccounts(accounts, claimant, role)) == RolesOf(accounts)[claimant.subject := role]
  {
  }

  /**
   Over every run the log replays to exactly the stored roles: each account was created once, each
   change names the role it replaces, and nothing changed unrecorded.
   */
  lemma {:induction false} AuditReplaysToTheStoredRoles(host: Host, entries: seq<Entry>)
    ensures Replay(Run(host, entries).audit) == Some(RolesOf(Run(host, entries).accounts))
  {
    if entries != [] {
      var butLast, entry := entries[..|entries| - 1], entries[|entries| - 1];
      AuditReplaysToTheStoredRoles(host, butLast);
      var s := Run(host, butLast);
      match entry {
        case BackchannelEntry(subject) =>
          var events := LogoutEvents(s.accounts, s.rows, subject);
          if events != [] {
            ReplayOneMore(s.audit, events[0]);
          } else {
            assert s.audit + events == s.audit;
          }
        case LogoutEntry(_) =>
        case _ =>
          var admitted := Admitted(host, s, entry);
          if admitted.Some? {
            AdmissionKeepsTheReplay(s, admitted.value.0, admitted.value.1);
          }
      }
    } else {
      assert RolesOf(EMPTY.accounts) == map[];
    }
  }

  /** The role of the subject's latest admission in a run, if there was one. */
  ghost function LatestRole(host: Host, entries: seq<Entry>, subject: UserId): Option<string> {
    if entries == [] then None
    else
      var before := entries[..|entries| - 1];
      var s := Run(host, before);
      var admitted := Admitted(host, s, entries[|entries| - 1]);
      if admitted.Some? && admitted.value.0.subject == subject && Happens(host, s, entries[|entries| - 1])
      then Some(admitted.value.1)
      else LatestRole(host, before, subject)
  }

  ghost predicate Happens(host: Host, s: State, entry: Entry) {
    entry.SignInEntry? ==> ArePruned(AfterReplacing(s.rows, entry.replaced), entry.claimant.subject, host.maxSessions, entry.pruned)
  }

  /**
   An account exists exactly when its subject was once admitted, and its role is what `AppRole`
   made of the groups at its latest admission, sign-in or token alike.
   */
  lemma {:induction false} RoleIsThatOfTheLatestAdmission(host: Host, entries: seq<Entry>, subject: UserId)
    ensures var accounts := Run(host, entries).accounts;
            LatestRole(host, entries, subject) == if subject in accounts then Some(accounts[subject].role) else None
  {
    if entries != [] {
      RoleIsThatOfTheLatestAdmission(host, entries[..|entries| - 1], subject);
    }
  }

  /** A name once given stays: no admission renames an account, and a taken name writes nothing at all. */
  lemma NamesStayAndTakenNamesWriteNothing(host: Host, s: State, entry: Entry)
    ensures forall user :: user in s.accounts ==>
              user in Act(host, s, entry).accounts && Act(host, s, entry).accounts[user].username == s.accounts[user].username
    ensures (entry.SignInEntry? || entry.TokenEntry?) && IsRefusedAsTaken(s.accounts, host.uniqueUsernames, entry.claimant) ==>
              Act(host, s, entry) == s
  {
  }
}
