/**
 The host's sessions, as the library's contracts demand: what each call makes of the stored rows,
 and a store that does it in place. A session id is minted once and never again.
 */
module SessionStore {
  import opened Wrappers
  import opened Collections
  import opened SessionLifetime

  type SessionId = nat
  type UserId = string
  type Token = string

  datatype Row = Row(
    user: UserId,
    createdAt: int,
    expiresAt: int,
    refreshToken: Option<Token>,
    idToken: Option<string>)

  type Rows = map<SessionId, Row>

  function Loaded(rows: Rows, id: SessionId): Option<Row> {
    if id in rows then Some(rows[id]) else None
  }

  // ----- what the calls make of the rows -----

  function Touched(rows: Rows, id: SessionId, expiresAt: int): Rows {
    if id in rows then rows[id := rows[id].(expiresAt := expiresAt)] else rows
  }

  function Rotated(rows: Rows, id: SessionId, refreshToken: Token): Rows {
    if id in rows then rows[id := rows[id].(refreshToken := Some(refreshToken))] else rows
  }

  function Without(rows: Rows, ended: set<SessionId>): Rows {
    rows - ended
  }

  function OfUser(rows: Rows, user: UserId): (ids: set<SessionId>)
    ensures forall id :: id in ids <==> id in rows && rows[id].user == user
  {
    set id | id in rows && rows[id].user == user
  }

  /** `ended` are all but the user's `keepNewest` newest sessions; ties fall either way. */
  ghost predicate AreOverflow(rows: Rows, user: UserId, keepNewest: nat, ended: set<SessionId>) {
    && ended <= OfUser(rows, user)
    && |OfUser(rows, user) - ended| == (if |OfUser(rows, user)| < keepNewest then |OfUser(rows, user)| else keepNewest)
    && (forall gone, kept :: gone in ended && kept in OfUser(rows, user) - ended ==>
          rows[gone].createdAt <= rows[kept].createdAt)
  }

  /** What an admission and a grant may not change: everything but the expiry and the refresh token. */
  predicate SameLogin(a: Row, b: Row) {
    a.user == b.user && a.createdAt == b.createdAt && a.idToken == b.idToken
  }

  // ----- the store -----

  class SessionStore {
    var rows: Rows
    var minted: nat // ids below it have been handed out

    ghost predicate Valid()
      reads this
    {
      forall id :: id in rows ==> id < minted
    }

    constructor ()
      ensures Valid() && rows == map[] && minted == 0
    {
      rows, minted := map[], 0;
    }

    method Create(user: UserId, now: int, expiresAt: int, refreshToken: Option<Token>, idToken: Option<string>)
      returns (id: SessionId)
      requires Valid()
      modifies this
      ensures Valid()
      ensures id == old(minted) && minted == old(minted) + 1 && id !in old(rows)
      ensures rows == old(rows)[id := Row(user, now, expiresAt, refreshToken, idToken)]
    {
      id := minted;
      minted := minted + 1;
      rows := rows[id := Row(user, now, expiresAt, refreshToken, idToken)];
    }

    method Load(id: SessionId) returns (record: Option<Row>)
      ensures record.Some? <==> id in rows
      ensures record.Some? ==> record.value == rows[id]
    {
      record := if id in rows then Some(rows[id]) else None;
    }

    method Touch(id: SessionId, expiresAt: int) returns (renewed: bool)
      requires Valid()
      modifies this`rows
      ensures Valid()
      ensures renewed == (id in old(rows)) && rows == Touched(old(rows), id, expiresAt)
      ensures rows.Keys == old(rows).Keys
      ensures forall other :: other in rows ==>
                rows[other] == if other == id then old(rows)[id].(expiresAt := expiresAt) else old(rows)[other]
    {
      renewed := id in rows;
      if renewed {
        rows := rows[id := rows[id].(expiresAt := expiresAt)];
      }
    }

    method ReplaceRefreshToken(id: SessionId, refreshToken: Token) returns (stored: bool)
      requires Valid()
      modifies this`rows
      ensures Valid()
      ensures stored == (id in old(rows)) && rows == Rotated(old(rows), id, refreshToken)
      ensures rows.Keys == old(rows).Keys
      ensures forall other :: other in rows ==>
                rows[other] == if other == id then old(rows)[id].(refreshToken := Some(refreshToken)) else old(rows)[other]
    {
      stored := id in rows;
      if stored {
        rows := rows[id := rows[id].(refreshToken := Some(refreshToken))];
      }
    }

    method Delete(id: SessionId)
      requires Valid()
      modifies this`rows
      ensures Valid()
      ensures rows == Without(old(rows), {id})
      ensures id !in rows && forall other :: other in old(rows) && other != id ==> other in rows && rows[other] == old(rows)[other]
    {
      rows := rows - {id};
    }

    method DeleteForUser(user: UserId) returns (ended: nat)
      requires Valid()
      modifies this`rows
      ensures Valid()
      ensures rows == Without(old(rows), OfUser(old(rows), user))
      ensures forall id :: id in rows <==> id in old(rows) && old(rows)[id].user != user
      ensures forall id :: id in rows ==> rows[id] == old(rows)[id]
      ensures ended == |OfUser(old(rows), user)|
    {
      var mine := OfUser(rows, user);
      ended := |mine|;
      rows := rows - mine;
    }

    /** The oldest of some of the sessions. */
    method Oldest(among: set<SessionId>) returns (oldest: SessionId)
      requires among != {} && among <= rows.Keys
      ensures oldest in among
      ensures forall id :: id in among ==> rows[oldest].createdAt <= rows[id].createdAt
    {
      oldest :| oldest in among;
      var rest := among - {oldest};
      while rest != {}
        invariant oldest in among && rest <= among
        invariant forall id :: id in among - rest ==> rows[oldest].createdAt <= rows[id].createdAt
        decreases rest
      {
        var id :| id in rest;
        if rows[id].createdAt < rows[oldest].createdAt {
          oldest := id;
        }
        rest := rest - {id};
      }
    }

    method PruneOverflow(user: UserId, keepNewest: nat) returns (ghost ended: set<SessionId>)
      requires Valid()
      modifies this`rows
      ensures Valid()
      ensures AreOverflow(old(rows), user, keepNewest, ended)
      ensures rows == Without(old(rows), ended)
      ensures KeepsTheNewest(old(rows), rows, user, keepNewest)
    {
      var mine := OfUser(rows, user);
      var kept := mine;
      while |kept| > keepNewest
        invariant LeavesNewest(old(rows), user, keepNewest, kept)
        invariant Valid() && rows == Without(old(rows), mine - kept)
        decreases |kept|
      {
        var oldest := Oldest(kept);
        LeavesNewestButOne(old(rows), user, keepNewest, kept, oldest);
        WithoutOneMore(old(rows), mine - kept, oldest);
        assert mine - (kept - {oldest}) == mine - kept + {oldest};
        kept := kept - {oldest};
        rows := rows - {oldest};
      }
      ended := mine - kept;
      NewestAreLeft(old(rows), user, keepNewest, kept);
      OverflowExactly(old(rows), user, keepNewest, ended);
    }
  }

  // ----- pruning -----

  /** These are the user's newest sessions, and all of them where there are too few. */
  ghost predicate LeavesNewest(rows: Rows, user: UserId, keepNewest: nat, kept: set<SessionId>) {
    && kept <= OfUser(rows, user)
    && (|kept| < keepNewest ==> kept == OfUser(rows, user))
    && (forall gone, id :: gone in OfUser(rows, user) - kept && id in kept ==> rows[gone].createdAt <= rows[id].createdAt)
  }

  /**
   Told by the rows alone: nobody else's row goes, of the user's as many stand as there is room for,
   all of them where there is enough, none of those that went is newer than one that stands, and
   every row that stands is as it was.
   */
  ghost predicate KeepsTheNewest(before: Rows, after: Rows, user: UserId, keepNewest: nat) {
    var mine, standing := OfUser(before, user), OfUser(after, user);
    && (forall id :: id in after ==> id in before && after[id] == before[id])
    && (forall id :: id in before && before[id].user != user ==> id in after)
    && |standing| == (if |mine| <= keepNewest then |mine| else keepNewest)
    && (forall gone, kept :: gone in mine && gone !in after && kept in standing ==>
          before[gone].createdAt <= before[kept].createdAt)
  }

  lemma OverflowExactly(rows: Rows, user: UserId, keepNewest: nat, ended: set<SessionId>)
    requires AreOverflow(rows, user, keepNewest, ended)
    ensures KeepsTheNewest(rows, Without(rows, ended), user, keepNewest)
  {
    assert OfUser(Without(rows, ended), user) == OfUser(rows, user) - ended;
  }

  lemma WithoutOneMore(rows: Rows, ended: set<SessionId>, id: SessionId)
    ensures Without(rows, ended) - {id} == Without(rows, ended + {id})
  {
  }

  lemma LeavesNewestButOne(rows: Rows, user: UserId, keepNewest: nat, kept: set<SessionId>, oldest: SessionId)
    requires LeavesNewest(rows, user, keepNewest, kept) && |kept| > keepNewest
    requires oldest in kept && forall id :: id in kept ==> rows[oldest].createdAt <= rows[id].createdAt
    ensures LeavesNewest(rows, user, keepNewest, kept - {oldest})
  {
    assert |kept - {oldest}| == |kept| - 1;
  }

  lemma NewestAreLeft(rows: Rows, user: UserId, keepNewest: nat, kept: set<SessionId>)
    requires LeavesNewest(rows, user, keepNewest, kept) && |kept| <= keepNewest
    ensures AreOverflow(rows, user, keepNewest, OfUser(rows, user) - kept)
  {
    SubsetCount(kept, OfUser(rows, user));
    assert OfUser(rows, user) - (OfUser(rows, user) - kept) == kept;
  }

  /** Some choice of the oldest ends just the overflow. */
  lemma SomeOverflow(rows: Rows, user: UserId, keepNewest: nat) returns (ended: set<SessionId>)
    ensures AreOverflow(rows, user, keepNewest, ended)
  {
    var kept := OfUser(rows, user);
    while |kept| > keepNewest
      invariant LeavesNewest(rows, user, keepNewest, kept)
      decreases |kept|
    {
      var oldest := SomeOldest(rows, kept);
      LeavesNewestButOne(rows, user, keepNewest, kept, oldest);
      kept := kept - {oldest};
    }
    ended := OfUser(rows, user) - kept;
    NewestAreLeft(rows, user, keepNewest, kept);
  }

  lemma SomeOldest(rows: Rows, among: set<SessionId>) returns (oldest: SessionId)
    requires among != {} && among <= rows.Keys
    ensures oldest in among && forall id :: id in among ==> rows[oldest].createdAt <= rows[id].createdAt
    decreases among
  {
    oldest :| oldest in among;
    if among - {oldest} != {} {
      var other := SomeOldest(rows, among - {oldest});
      assert among == among - {oldest} + {oldest};
      if rows[other].createdAt < rows[oldest].createdAt {
        oldest := other;
      }
    } else {
      assert among == {oldest};
    }
  }

  // ----- one admission -----

  /** The decision over a stored row. */
  predicate Admits(lifetime: Lifetime, row: Row, now: int) {
    IsAdmitted(lifetime, row.createdAt, row.expiresAt, now)
  }

  /** What one undisturbed admission makes of the rows. */
  function AfterAdmission(lifetime: Lifetime, rows: Rows, id: SessionId, now: int): Rows {
    if id in rows && Admits(lifetime, rows[id], now)
    then Touched(rows, id, RenewedExpiry(lifetime, now, rows[id].createdAt))
    else rows
  }

  /** Any renewal stays within the cap, whatever the clock says. */
  lemma RenewalStaysWithinTheCap(lifetime: Lifetime, now: int, createdAt: int)
    ensures RenewedExpiry(lifetime, now, createdAt) <= createdAt + lifetime.cap
    ensures RenewedExpiry(lifetime, now, createdAt) <= now + lifetime.idle
    ensures RenewedExpiry(lifetime, now, createdAt) == createdAt + lifetime.cap ||
            RenewedExpiry(lifetime, now, createdAt) == now + lifetime.idle
  {
  }

  /**
   An undisturbed admission answers the account exactly when the row stands and is inside its
   lifetime, and then renews that row alone, never past its cap; a refusal changes nothing.
   */
  method AdmitSession(store: SessionStore, lifetime: Lifetime, id: SessionId, now: int) returns (user: Option<UserId>)
    requires store.Valid()
    modifies store`rows
    ensures store.Valid()
    ensures user.Some? <==>
            id in old(store.rows) &&
            var row := old(store.rows)[id];
            && row.createdAt <= now + 60
            && now <= row.expiresAt <= now + lifetime.idle + 60
            && row.expiresAt <= row.createdAt + lifetime.cap
    ensures user.Some? ==>
              && user.value == old(store.rows)[id].user
              && store.rows.Keys == old(store.rows).Keys
              && (forall other :: other in store.rows && other != id ==> store.rows[other] == old(store.rows)[other])
              && var row := old(store.rows)[id];
                 store.rows[id] == row.(expiresAt := Min(now + lifetime.idle, row.createdAt + lifetime.cap))
    ensures user.None? ==> store.rows == old(store.rows)
    ensures store.rows == AfterAdmission(lifetime, old(store.rows), id, now)
  {
    var record := store.Load(id);
    if record.None? || !Admits(lifetime, record.value, now) {
      return None;
    }
    RenewalStaysWithinTheCap(lifetime, now, record.value.createdAt);
    var renewed := store.Touch(id, RenewedExpiry(lifetime, now, record.value.createdAt));
    if !renewed {
      return None;
    }
    return Some(record.value.user);
  }
}
