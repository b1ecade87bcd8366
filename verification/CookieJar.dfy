/**
 The pending-login cookies a browser holds: each start clears the oldest beyond a cap and adds one
 of its own, each callback takes the one its state names.

 A jar is the cookies a browser sends to the routes, repeated names included. A request carries names
 and values alone, while what the program sets and deletes is the cookie of a name that is host-only
 under `Path=/`, its own; a cookie held elsewhere, under another path or a parent domain, stays where
 it is. The name of a state's cookie is a prefix and sixteen hexadecimal characters of an arbitrary
 digest.
 */
module CookieJar {
  import opened Wrappers
  import opened Collections
  import B = Base64Url
  import P = PendingLogin

  const MAX_PENDING_LOGINS := 5
  const UNRANKED := -1
  const STATE_DIGEST_HEX_CHARS := 16

  /** Where a browser holds a cookie: host-only under `Path=/`, or under some other path and domain. */
  datatype Scope = Own | Elsewhere(place: nat)

  datatype Cookie = Cookie(name: string, value: string, scope: Scope)

  type Jar = seq<Cookie>

  /** The host's settings: whether cookies are secure, its signature, and the state digest. */
  datatype Host = Host(secure: bool, mac: P.Mac, digest: string -> string)

  predicate IsDigest(s: string) {
    |s| == STATE_DIGEST_HEX_CHARS && forall i :: 0 <= i < |s| ==> P.IsHexDigit(s[i])
  }

  ghost predicate IsSound(host: Host) {
    P.IsMac(host.mac) && forall state :: IsDigest(host.digest(state))
  }

  function NamePrefix(secure: bool): string {
    if secure then "__Host-oidc_pending_" else "oidc_pending_"
  }

  function NameOf(host: Host, state: string): string {
    NamePrefix(host.secure) + host.digest(state)
  }

  predicate IsPendingName(host: Host, name: string) {
    NamePrefix(host.secure) <= name && IsDigest(name[|NamePrefix(host.secure)|..])
  }

  /** The names of pending cookies: the prefix, marked for this host alone where it is secure, and sixteen hexadecimal characters. */
  lemma PendingNameExactly(host: Host, name: string)
    ensures var prefix := if host.secure then "__Host-oidc_pending_" else "oidc_pending_";
            IsPendingName(host, name) <==>
            && prefix <= name && |name| == |prefix| + 16
            && forall i :: |prefix| <= i < |name| ==> '0' <= name[i] <= '9' || 'a' <= name[i] <= 'f'
  {
    var prefix := NamePrefix(host.secure);
    if prefix <= name {
      assert forall i :: |prefix| <= i < |name| ==> name[i] == name[|prefix|..][i - |prefix|];
      assert forall i :: 0 <= i < |name[|prefix|..]| ==> name[|prefix|..][i] == name[i + |prefix|];
    }
  }

  /** When the login a value carries began; a value that does not verify ranks below every one that does. */
  function Rank(host: Host, value: string): (rank: int)
    ensures UNRANKED <= rank
  {
    match P.Verify(host.mac, value)
    case Verified(login) => login.issuedAt
    case _ => UNRANKED
  }

  // ----- ranking -----

  datatype Ranking = Ranking(names: seq<string>, ranks: map<string, int>)

  function RankOne(host: Host, ranking: Ranking, cookie: Cookie): Ranking {
    if !IsPendingName(host, cookie.name) then ranking
    else if cookie.name in ranking.ranks then ranking.(ranks := ranking.ranks[cookie.name := UNRANKED])
    else Ranking(ranking.names + [cookie.name], ranking.ranks[cookie.name := Rank(host, cookie.value)])
  }

  function RankAll(host: Host, jar: Jar): Ranking {
    if jar == [] then Ranking([], map[]) else RankOne(host, RankAll(host, jar[..|jar| - 1]), jar[|jar| - 1])
  }

  /** Puts a name behind every name that ranks no higher, so equal ranks keep their order. */
  function Insert(name: string, sorted: seq<string>, ranks: map<string, int>): seq<string>
    requires name in ranks && forall other :: other in sorted ==> other in ranks
  {
    if sorted == [] then [name]
    else
      var last := |sorted| - 1;
      if ranks[sorted[last]] <= ranks[name] then sorted + [name]
      else Insert(name, sorted[..last], ranks) + [sorted[last]]
  }

  /** The stable sort by rank. */
  function OldestFirst(names: seq<string>, ranks: map<string, int>): (sorted: seq<string>)
    requires forall name :: name in names ==> name in ranks
    ensures multiset(sorted) == multiset(names)
  {
    if names == [] then []
    else
      var last := |names| - 1;
      var before := OldestFirst(names[..last], ranks);
      assert names == names[..last] + [names[last]];
      assert forall name :: name in before ==> name in multiset(before);
      InsertKeeps(names[last], before, ranks);
      Insert(names[last], before, ranks)
  }

  lemma {:induction false} InsertKeeps(name: string, sorted: seq<string>, ranks: map<string, int>)
    requires name in ranks && forall other :: other in sorted ==> other in ranks
    ensures multiset(Insert(name, sorted, ranks)) == multiset(sorted) + multiset{name}
  {
    if sorted != [] {
      var last := |sorted| - 1;
      assert sorted == sorted[..last] + [sorted[last]];
      if ranks[sorted[last]] > ranks[name] {
        InsertKeeps(name, sorted[..last], ranks);
      }
    }
  }

  /** The names to clear so that a new login makes at most five. */
  function NamesToEvict(host: Host, jar: Jar): seq<string> {
    RankingIsConsistent(host, jar);
    var ranking := RankAll(host, jar);
    var oldestFirst := OldestFirst(ranking.names, ranking.ranks);
    oldestFirst[..Excess(|oldestFirst|)]
  }

  function Excess(n: nat): (excess: nat)
    ensures excess <= n
  {
    if n < MAX_PENDING_LOGINS then 0 else n - MAX_PENDING_LOGINS + 1
  }

  lemma {:induction false} RankingIsConsistent(host: Host, jar: Jar)
    ensures var ranking := RankAll(host, jar);
            && IsDistinct(ranking.names)
            && (forall name :: name in ranking.names <==> name in ranking.ranks)
            && (forall name :: name in ranking.ranks ==> UNRANKED <= ranking.ranks[name])
  {
    if jar != [] {
      RankingIsConsistent(host, jar[..|jar| - 1]);
    }
  }

  /** The loop as the program runs it. */
  method PendingLoginCookiesToEvict(host: Host, jar: Jar) returns (evicted: seq<string>)
    ensures evicted == NamesToEvict(host, jar)
  {
    var names: seq<string> := [];
    var ranks: map<string, int> := map[];
    for i := 0 to |jar|
      invariant Ranking(names, ranks) == RankAll(host, jar[..i])
    {
      assert jar[..i + 1][..i] == jar[..i];
      var cookie := jar[i];
      if IsPendingName(host, cookie.name) {
        if cookie.name in ranks {
          ranks := ranks[cookie.name := UNRANKED];
        } else {
          ranks := ranks[cookie.name := Rank(host, cookie.value)];
          names := names + [cookie.name];
        }
      }
    }
    assert jar[..|jar|] == jar;
    RankingIsConsistent(host, jar);
    var oldestFirst := OldestFirst(names, ranks);
    evicted := oldestFirst[..Excess(|oldestFirst|)];
  }

  // ----- the reference: what a name's rank means -----

  function ValuesOf(jar: Jar, name: string): seq<string> {
    if jar == [] then []
    else
      ValuesOf(jar[..|jar| - 1], name) + if jar[|jar| - 1].name == name then [jar[|jar| - 1].value] else []
  }

  /** A name held once ranks by its value, one held twice ranks with what does not verify. */
  function RankOfName(host: Host, jar: Jar, name: string): int {
    var values := ValuesOf(jar, name);
    if |values| == 1 then Rank(host, values[0]) else UNRANKED
  }

  predicate Holds(host: Host, jar: Jar, name: string) {
    IsPendingName(host, name) && ValuesOf(jar, name) != []
  }

  lemma {:induction false} RankingExactly(host: Host, jar: Jar, name: string)
    ensures name in RankAll(host, jar).ranks <==> Holds(host, jar, name)
    ensures Holds(host, jar, name) ==> RankAll(host, jar).ranks[name] == RankOfName(host, jar, name)
  {
    if jar != [] {
      RankingExactly(host, jar[..|jar| - 1], name);
    }
  }

  ghost predicate IsSortedBy(sorted: seq<string>, ranks: map<string, int>)
    requires forall name :: name in sorted ==> name in ranks
  {
    forall i, j :: 0 <= i <= j < |sorted| ==> ranks[sorted[i]] <= ranks[sorted[j]]
  }

  lemma {:induction false} InsertMembers(name: string, sorted: seq<string>, ranks: map<string, int>)
    requires name in ranks && forall other :: other in sorted ==> other in ranks
    ensures forall other :: other in Insert(name, sorted, ranks) <==> other == name || other in sorted
  {
    InsertKeeps(name, sorted, ranks);
    forall other ensures other in Insert(name, sorted, ranks) <==> other == name || other in sorted {
      assert other in Insert(name, sorted, ranks) <==> other in multiset(Insert(name, sorted, ranks));
      assert other in sorted <==> other in multiset(sorted);
    }
  }

  lemma SortedWithLast(sorted: seq<string>, last: string, ranks: map<string, int>)
    requires last in ranks && (forall other :: other in sorted ==> other in ranks) && IsSortedBy(sorted, ranks)
    requires forall other :: other in sorted ==> ranks[other] <= ranks[last]
    ensures IsSortedBy(sorted + [last], ranks)
  {
    forall i, j | 0 <= i <= j < |sorted + [last]|
      ensures ranks[(sorted + [last])[i]] <= ranks[(sorted + [last])[j]]
    {
      if i < |sorted| {
        assert sorted[i] in sorted;
      }
    }
  }

  lemma {:induction false} InsertSorts(name: string, sorted: seq<string>, ranks: map<string, int>)
    requires name in ranks && (forall other :: other in sorted ==> other in ranks) && IsSortedBy(sorted, ranks)
    ensures forall other :: other in Insert(name, sorted, ranks) <==> other == name || other in sorted
    ensures IsSortedBy(Insert(name, sorted, ranks), ranks)
  {
    InsertMembers(name, sorted, ranks);
    if sorted == [] {
    } else if ranks[sorted[|sorted| - 1]] > ranks[name] {
      var before, last := sorted[..|sorted| - 1], sorted[|sorted| - 1];
      InsertSorts(name, before, ranks);
      SortedWithLast(Insert(name, before, ranks), last, ranks);
    } else {
      SortedWithLast(sorted, name, ranks);
    }
  }

  lemma {:induction false} OldestFirstSorts(names: seq<string>, ranks: map<string, int>)
    requires forall name :: name in names ==> name in ranks
    ensures forall name :: name in OldestFirst(names, ranks) <==> name in names
    ensures IsSortedBy(OldestFirst(names, ranks), ranks)
  {
    if names != [] {
      var last := |names| - 1;
      OldestFirstSorts(names[..last], ranks);
      InsertSorts(names[last], OldestFirst(names[..last], ranks), ranks);
      assert names == names[..last] + [names[last]];
    }
  }

  lemma DistinctByCount(names: seq<string>, sorted: seq<string>)
    requires IsDistinct(names) && multiset(names) == multiset(sorted)
    ensures IsDistinct(sorted) && |sorted| == |names|
  {
    assert |multiset(names)| == |names| && |multiset(sorted)| == |sorted|;
    forall name ensures multiset(names)[name] <= 1 {
      AtMostOnce(names, name);
    }
    forall i, j | 0 <= i < j < |sorted| && sorted[i] == sorted[j] ensures multiset(sorted)[sorted[i]] >= 2 {
      AtLeastTwice(sorted, i, j);
    }
  }

  lemma AtLeastTwice(names: seq<string>, i: nat, j: nat)
    requires i < j < |names| && names[i] == names[j]
    ensures multiset(names)[names[i]] >= 2
  {
    assert names == names[..i] + [names[i]] + names[i + 1..j] + [names[j]] + names[j + 1..];
  }

  lemma {:induction false} AtMostOnce(names: seq<string>, name: string)
    requires IsDistinct(names)
    ensures multiset(names)[name] <= 1
  {
    if names != [] {
      var before, last := names[..|names| - 1], names[|names| - 1];
      assert names == before + [last];
      AtMostOnce(before, name);
      assert last !in before;
    }
  }

  /**
   Whatever a jar holds, the evicted names are distinct pending names it holds, just enough of them
   to leave room for one below the cap and none below it, and none ranks newer than a name kept.
   */
  lemma EvictionTakesTheOldest(host: Host, jar: Jar)
    ensures var evicted, names := NamesToEvict(host, jar), RankAll(host, jar).names;
            && |evicted| == (if |names| <= 4 then 0 else |names| - 4) && IsDistinct(evicted) && IsDistinct(names)
            && (forall name :: name in names <==> Holds(host, jar, name))
            && (forall name :: name in evicted ==> Holds(host, jar, name))
            && (forall gone, kept :: gone in evicted && Holds(host, jar, kept) && kept !in evicted ==>
                  RankOfName(host, jar, gone) <= RankOfName(host, jar, kept))
  {
    RankingIsConsistent(host, jar);
    var ranking := RankAll(host, jar);
    OldestFirstSorts(ranking.names, ranking.ranks);
    DistinctByCount(ranking.names, OldestFirst(ranking.names, ranking.ranks));
    forall name ensures name in ranking.names <==> Holds(host, jar, name) {
      RankingExactly(host, jar, name);
    }
    forall gone, kept | gone in NamesToEvict(host, jar) && Holds(host, jar, kept) && kept !in NamesToEvict(host, jar)
      ensures RankOfName(host, jar, gone) <= RankOfName(host, jar, kept)
    {
      RankingExactly(host, jar, gone);
      RankingExactly(host, jar, kept);
      FirstRankNoNewer(OldestFirst(ranking.names, ranking.ranks), ranking.ranks, |NamesToEvict(host, jar)|, gone, kept);
    }
  }

  /** A name is genuine when one cookie stands under it and its value verifies. */
  predicate IsGenuine(host: Host, jar: Jar, name: string) {
    var values := ValuesOf(jar, name);
    |values| == 1 && P.Verify(host.mac, values[0]).Verified?
  }

  lemma GenuineExactly(host: Host, jar: Jar, name: string)
    ensures IsGenuine(host, jar, name) <==> RankOfName(host, jar, name) > UNRANKED
  {
  }

  /** A genuine name goes only when every name kept is genuine too, and carries a login begun no earlier. */
  lemma GenuineGoesLast(host: Host, jar: Jar, gone: string, kept: string)
    requires gone in NamesToEvict(host, jar) && Holds(host, jar, kept) && kept !in NamesToEvict(host, jar)
    requires IsGenuine(host, jar, gone)
    ensures IsGenuine(host, jar, kept)
    ensures P.Verify(host.mac, ValuesOf(jar, gone)[0]).login.issuedAt <= P.Verify(host.mac, ValuesOf(jar, kept)[0]).login.issuedAt
  {
    EvictionTakesTheOldest(host, jar);
    GenuineExactly(host, jar, gone);
    GenuineExactly(host, jar, kept);
  }

  /** In a sorted sequence a name cut off at the front ranks no newer than one left. */
  lemma FirstRankNoNewer(sorted: seq<string>, ranks: map<string, int>, cut: nat, gone: string, kept: string)
    requires (forall name :: name in sorted ==> name in ranks) && IsSortedBy(sorted, ranks)
    requires cut <= |sorted| && gone in sorted[..cut] && kept in sorted && kept !in sorted[..cut]
    ensures ranks[gone] <= ranks[kept]
  {
    var i :| 0 <= i < cut && sorted[i] == gone;
    var j :| 0 <= j < |sorted| && sorted[j] == kept;
    assert forall k :: 0 <= k < cut ==> sorted[..cut][k] == sorted[k];
  }

  /** A name stands before another in a sequence. */
  ghost predicate Before(names: seq<string>, a: string, b: string) {
    exists p, q :: 0 <= p < q < |names| && names[p] == a && names[q] == b
  }

  /** Names of one rank keep their order. */
  ghost predicate IsStable(sorted: seq<string>, ranks: map<string, int>, names: seq<string>)
    requires forall name :: name in sorted ==> name in ranks
  {
    forall i, j :: 0 <= i < j < |sorted| && ranks[sorted[i]] == ranks[sorted[j]] ==> Before(names, sorted[i], sorted[j])
  }

  lemma BeforeLasts(names: seq<string>, more: string, a: string, b: string)
    ensures Before(names, a, b) ==> Before(names + [more], a, b)
    ensures a in names ==> Before(names + [more], a, more)
  {
    var all := names + [more];
    if Before(names, a, b) {
      var p, q :| 0 <= p < q < |names| && names[p] == a && names[q] == b;
      assert all[p] == a && all[q] == b;
    }
    if a in names {
      var p :| 0 <= p < |names| && names[p] == a;
      assert all[p] == a && all[|names|] == more;
    }
  }

  /** Behind names that are stable, with one more that ties with none but those before it. */
  lemma StableWithLast(sorted: seq<string>, last: string, ranks: map<string, int>, names: seq<string>)
    requires last in ranks && (forall other :: other in sorted ==> other in ranks) && IsStable(sorted, ranks, names)
    requires forall other :: other in sorted && ranks[other] == ranks[last] ==> Before(names, other, last)
    ensures IsStable(sorted + [last], ranks, names)
  {
    var all := sorted + [last];
    forall i, j | 0 <= i < j < |all| && ranks[all[i]] == ranks[all[j]] ensures Before(names, all[i], all[j]) {
      assert all[i] == sorted[i];
      if j < |sorted| {
        assert all[j] == sorted[j];
      }
    }
  }

  lemma {:induction false} InsertIsStable(name: string, sorted: seq<string>, ranks: map<string, int>, names: seq<string>)
    requires name in ranks && (forall other :: other in sorted ==> other in ranks && Before(names, other, name))
    requires IsStable(sorted, ranks, names)
    ensures forall other :: other in Insert(name, sorted, ranks) <==> other == name || other in sorted
    ensures IsStable(Insert(name, sorted, ranks), ranks, names)
  {
    InsertMembers(name, sorted, ranks);
    if sorted != [] && ranks[sorted[|sorted| - 1]] > ranks[name] {
      var before, last := sorted[..|sorted| - 1], sorted[|sorted| - 1];
      InsertIsStable(name, before, ranks, names);
      forall other | other in Insert(name, before, ranks) && ranks[other] == ranks[last] ensures Before(names, other, last) {
        var i :| 0 <= i < |before| && before[i] == other;
        assert sorted[i] == other && sorted[|sorted| - 1] == last;
      }
      StableWithLast(Insert(name, before, ranks), last, ranks, names);
    } else {
      StableWithLast(sorted, name, ranks, names);
    }
  }

  lemma {:induction false} OldestFirstIsStable(names: seq<string>, ranks: map<string, int>)
    requires forall name :: name in names ==> name in ranks
    ensures forall name :: name in OldestFirst(names, ranks) <==> name in names
    ensures IsStable(OldestFirst(names, ranks), ranks, names)
  {
    OldestFirstSorts(names, ranks);
    if names != [] {
      var before, last := names[..|names| - 1], names[|names| - 1];
      assert names == before + [last];
      OldestFirstIsStable(before, ranks);
      var sorted := OldestFirst(before, ranks);
      forall other | other in sorted ensures Before(names, other, last) {
        BeforeLasts(before, last, other, last);
      }
      forall i, j | 0 <= i < j < |sorted| && ranks[sorted[i]] == ranks[sorted[j]] ensures Before(names, sorted[i], sorted[j]) {
        BeforeLasts(before, last, sorted[i], sorted[j]);
      }
      InsertIsStable(last, sorted, ranks, names);
    }
  }

  /** One name stands in the jar before any cookie of another. */
  ghost predicate SeenBefore(jar: Jar, a: string, b: string) {
    exists i :: 0 <= i < |jar| && jar[i].name == a && forall j :: 0 <= j <= i ==> jar[j].name != b
  }

  lemma SeenBeforeLasts(jar: Jar, more: Cookie, a: string, b: string)
    requires SeenBefore(jar, a, b) || ((exists i :: 0 <= i < |jar| && jar[i].name == a) && forall j :: 0 <= j < |jar| ==> jar[j].name != b)
    ensures SeenBefore(jar + [more], a, b)
  {
    var all := jar + [more];
    var i :| 0 <= i < |jar| && jar[i].name == a && forall j :: 0 <= j <= i ==> jar[j].name != b;
    assert all[i].name == a && forall j :: 0 <= j <= i ==> all[j] == jar[j];
  }

  lemma {:induction false} NamesAsSeen(host: Host, jar: Jar, a: string, b: string)
    requires Before(RankAll(host, jar).names, a, b)
    ensures SeenBefore(jar, a, b)
  {
    var before, last := jar[..|jar| - 1], jar[|jar| - 1];
    assert jar == before + [last];
    var earlier, names := RankAll(host, before).names, RankAll(host, jar).names;
    if Before(earlier, a, b) {
      NamesAsSeen(host, before, a, b);
    } else {
      assert b == last.name && a in earlier by {
        var p, q :| 0 <= p < q < |names| && names[p] == a && names[q] == b;
        assert names[p] == earlier[p];
      }
      RankingIsConsistent(host, before);
      RankingExactly(host, before, a);
      RankingExactly(host, before, b);
      NoneNamed(before, a);
      NoneNamed(before, b);
    }
    SeenBeforeLasts(before, last, a, b);
  }

  /** Of names of one rank the ones the request names first go first. */
  lemma TiesGoAsSeen(host: Host, jar: Jar, gone: string, kept: string)
    requires gone in NamesToEvict(host, jar) && Holds(host, jar, kept) && kept !in NamesToEvict(host, jar)
    requires RankOfName(host, jar, gone) == RankOfName(host, jar, kept)
    ensures SeenBefore(jar, gone, kept)
  {
    RankingIsConsistent(host, jar);
    var ranking := RankAll(host, jar);
    OldestFirstIsStable(ranking.names, ranking.ranks);
    EvictionTakesTheOldest(host, jar);
    RankingExactly(host, jar, gone);
    RankingExactly(host, jar, kept);
    var sorted, cut := OldestFirst(ranking.names, ranking.ranks), |NamesToEvict(host, jar)|;
    var i :| 0 <= i < cut && sorted[..cut][i] == gone;
    assert sorted[i] == gone;
    var j :| 0 <= j < |sorted| && sorted[j] == kept;
    assert forall k :: 0 <= k < cut ==> sorted[..cut][k] == sorted[k];
    NamesAsSeen(host, jar, gone, kept);
  }

  // ----- what a browser holds -----

  /** The cookies of a jar that a test keeps, in order. */
  function Where(jar: Jar, keeps: Cookie -> bool): (kept: Jar)
    ensures forall cookie :: cookie in kept <==> cookie in jar && keeps(cookie)
  {
    if jar == [] then []
    else Where(jar[..|jar| - 1], keeps) + if keeps(jar[|jar| - 1]) then [jar[|jar| - 1]] else []
  }

  predicate IsPending(host: Host, cookie: Cookie) {
    IsPendingName(host, cookie.name)
  }

  /** No two cookies share name, path and domain. */
  predicate IsDistinctByScope(jar: Jar) {
    forall i, j :: 0 <= i < j < |jar| ==> jar[i].name != jar[j].name || jar[i].scope != jar[j].scope
  }

  /** A browser accepts a name that starts with `__Host-` host-only under `Path=/` alone. */
  predicate IsBrowserJar(jar: Jar) {
    && IsDistinctByScope(jar)
    && (forall cookie :: cookie in jar && "__Host-" <= cookie.name ==> cookie.scope.Own?)
  }

  /** The pending cookies that are the program's own to delete, and those held elsewhere. */
  function OwnPending(host: Host, jar: Jar): Jar {
    Where(jar, (cookie: Cookie) => IsPending(host, cookie) && cookie.scope.Own?)
  }

  function PendingElsewhere(host: Host, jar: Jar): Jar {
    Where(jar, (cookie: Cookie) => IsPending(host, cookie) && !cookie.scope.Own?)
  }

  /** How many cookies a jar holds under pending names, repeated ones counted each. */
  function PendingCount(host: Host, jar: Jar): nat {
    |Where(jar, (cookie: Cookie) => IsPending(host, cookie))|
  }

  /** All that is held elsewhere, pending or not. */
  function HeldElsewhere(jar: Jar): Jar {
    Where(jar, (cookie: Cookie) => !cookie.scope.Own?)
  }

  // ----- the jar after a start and after a callback -----

  /** Deleting cookies by name deletes the program's own. */
  predicate IsDeleted(cookie: Cookie, names: set<string>) {
    cookie.scope.Own? && cookie.name in names
  }

  function Cleared(jar: Jar, names: set<string>): Jar {
    Where(jar, cookie => !IsDeleted(cookie, names))
  }

  /** Setting a cookie replaces the program's own one of that name. */
  function Stored(jar: Jar, name: string, value: string): Jar {
    Cleared(jar, {name}) + [Cookie(name, value, Own)]
  }

  /** A start evicts, then hands out the new login's cookie; a login that cannot be signed raises first. */
  function Begin(host: Host, jar: Jar, login: P.PendingLogin): Jar {
    match P.Sign(host.mac, login)
    case None => jar
    case Some(value) => Stored(Cleared(jar, Elements(NamesToEvict(host, jar))), NameOf(host, login.state), value)
  }

  /** What a callback gets for a state: the login its one cookie carries. */
  function TakenLogin(host: Host, jar: Jar, state: string): P.Verification {
    var values := ValuesOf(jar, NameOf(host, state));
    if |values| == 1 then P.Verify(host.mac, values[0]) else P.NotVerified
  }

  /** The jar a callback leaves: the state's own cookie is cleared either way. */
  function Take(host: Host, jar: Jar, state: string): Jar {
    Cleared(jar, {NameOf(host, state)})
  }

  function PendingNames(host: Host, jar: Jar): set<string> {
    set cookie | cookie in jar && IsPendingName(host, cookie.name) :: cookie.name
  }

  lemma {:induction false} HoldsExactly(host: Host, jar: Jar, name: string)
    ensures Holds(host, jar, name) <==> name in PendingNames(host, jar)
  {
    HasValuesExactly(jar, name);
  }

  lemma {:induction false} HasValuesExactly(jar: Jar, name: string)
    ensures ValuesOf(jar, name) != [] <==> exists cookie :: cookie in jar && cookie.name == name
  {
    if jar != [] {
      var before, last := jar[..|jar| - 1], jar[|jar| - 1];
      HasValuesExactly(before, name);
      assert jar == before + [last];
      assert forall cookie :: cookie in jar <==> cookie in before || cookie == last;
    }
  }

  /** How many names a start clears, and that the jar holds every one of them. */
  lemma EvictionCount(host: Host, jar: Jar)
    ensures |NamesToEvict(host, jar)| == Excess(|PendingNames(host, jar)|)
    ensures |Elements(NamesToEvict(host, jar))| == |NamesToEvict(host, jar)|
    ensures Elements(NamesToEvict(host, jar)) <= PendingNames(host, jar)
  {
    EvictionTakesTheOldest(host, jar);
    var names, evicted := RankAll(host, jar).names, NamesToEvict(host, jar);
    DistinctCount(names);
    DistinctCount(evicted);
    forall name ensures Holds(host, jar, name) <==> name in PendingNames(host, jar) {
      HoldsExactly(host, jar, name);
    }
    assert Elements(names) == PendingNames(host, jar);
  }

  lemma StateNamesAPendingCookie(host: Host, state: string)
    requires IsSound(host)
    ensures IsPendingName(host, NameOf(host, state))
  {
    assert NameOf(host, state)[|NamePrefix(host.secure)|..] == host.digest(state);
  }

  // ----- tests on a jar -----

  lemma WhereOneMore(jar: Jar, last: Cookie, keeps: Cookie -> bool)
    ensures Where(jar + [last], keeps) == Where(jar, keeps) + if keeps(last) then [last] else []
  {
    assert (jar + [last])[..|jar|] == jar;
  }

  /** Tests that agree on a jar keep the same of it. */
  lemma {:induction false} WhereAlike(jar: Jar, a: Cookie -> bool, b: Cookie -> bool)
    requires forall cookie :: cookie in jar ==> a(cookie) == b(cookie)
    ensures Where(jar, a) == Where(jar, b)
  {
    if jar != [] {
      WhereAlike(jar[..|jar| - 1], a, b);
    }
  }

  /** One test after another is both. */
  lemma {:induction false} WhereTwice(jar: Jar, a: Cookie -> bool, b: Cookie -> bool, both: Cookie -> bool)
    requires forall cookie :: both(cookie) == (a(cookie) && b(cookie))
    ensures Where(Where(jar, a), b) == Where(jar, both)
  {
    if jar != [] {
      WhereTwice(jar[..|jar| - 1], a, b, both);
      WhereTwiceOneMore(jar[..|jar| - 1], jar[|jar| - 1], a, b, both);
      assert jar == jar[..|jar| - 1] + [jar[|jar| - 1]];
    }
  }

  lemma WhereTwiceOneMore(before: Jar, last: Cookie, a: Cookie -> bool, b: Cookie -> bool, both: Cookie -> bool)
    requires both(last) == (a(last) && b(last)) && Where(Where(before, a), b) == Where(before, both)
    ensures Where(Where(before + [last], a), b) == Where(before + [last], both)
  {
    WhereOneMore(before, last, a);
    WhereOneMore(before, last, both);
    if a(last) {
      WhereOneMore(Where(before, a), last, b);
    } else {
      assert Where(before, a) + [] == Where(before, a) && Where(before, both) + [] == Where(before, both);
    }
  }

  /** What one test or the other keeps adds up, where no cookie meets both. */
  lemma {:induction false} WhereAddsUp(jar: Jar, a: Cookie -> bool, b: Cookie -> bool, either: Cookie -> bool)
    requires forall cookie :: either(cookie) == (a(cookie) || b(cookie)) && !(a(cookie) && b(cookie))
    ensures |Where(jar, either)| == |Where(jar, a)| + |Where(jar, b)|
  {
    if jar != [] {
      WhereAddsUp(jar[..|jar| - 1], a, b, either);
    }
  }

  /** Tests that agree on the cookies of a name leave the same values under it. */
  lemma {:induction false} ValuesAlike(jar: Jar, name: string, a: Cookie -> bool, b: Cookie -> bool)
    requires forall cookie: Cookie :: cookie.name == name ==> a(cookie) == b(cookie)
    ensures ValuesOf(Where(jar, a), name) == ValuesOf(Where(jar, b), name)
  {
    if jar != [] {
      var before, last := jar[..|jar| - 1], jar[|jar| - 1];
      ValuesAlike(before, name, a, b);
      ValuesOfWhere(before, last, name, a);
      ValuesOfWhere(before, last, name, b);
      assert jar == before + [last];
    }
  }

  lemma ValuesOfWhere(jar: Jar, last: Cookie, name: string, keeps: Cookie -> bool)
    ensures ValuesOf(Where(jar + [last], keeps), name)
         == ValuesOf(Where(jar, keeps), name) + if keeps(last) && last.name == name then [last.value] else []
  {
    WhereOneMore(jar, last, keeps);
    LastValue(Where(jar, keeps), last, name);
    assert Where(jar, keeps) + [] == Where(jar, keeps);
  }

  lemma {:induction false} WhereAll(jar: Jar, keeps: Cookie -> bool)
    requires forall cookie :: cookie in jar ==> keeps(cookie)
    ensures Where(jar, keeps) == jar
  {
    if jar != [] {
      var before, last := jar[..|jar| - 1], jar[|jar| - 1];
      assert jar == before + [last];
      assert keeps(last) && forall cookie :: cookie in before ==> cookie in jar;
      WhereAll(before, keeps);
    }
  }

  lemma {:induction false} WhereNone(jar: Jar, keeps: Cookie -> bool)
    requires forall cookie :: cookie in jar ==> !keeps(cookie)
    ensures Where(jar, keeps) == []
  {
    if jar != [] {
      WhereNone(jar[..|jar| - 1], keeps);
    }
  }

  lemma {:induction false} WhereIsDistinct(jar: Jar, keeps: Cookie -> bool)
    requires IsDistinctByScope(jar)
    ensures IsDistinctByScope(Where(jar, keeps))
  {
    if jar != [] {
      var before, last := jar[..|jar| - 1], jar[|jar| - 1];
      WhereIsDistinct(before, keeps);
      forall cookie | cookie in Where(before, keeps) ensures cookie.name != last.name || cookie.scope != last.scope {
        assert cookie in before;
      }
    }
  }

  // ----- how many cookies a start leaves -----

  /** Whether a start under a name leaves this cookie: pending, and not the program's own under that name or an evicted one. */
  predicate IsLeft(host: Host, cookie: Cookie, evicted: set<string>, name: string) {
    IsPending(host, cookie) && !IsDeleted(cookie, evicted + {name})
  }

  /** How many pending cookies a start under a name would leave, told before it from the jar alone. */
  function LeftBeside(host: Host, jar: Jar, name: string): nat {
    var evicted := Elements(NamesToEvict(host, jar));
    |Where(jar, cookie => IsLeft(host, cookie, evicted, name))|
  }

  /** What a test keeps of the jar after a start: of what was neither evicted nor replaced, and of the new cookie. */
  lemma StartedWhere(host: Host, jar: Jar, login: P.PendingLogin, keeps: Cookie -> bool, left: Cookie -> bool)
    requires P.Sign(host.mac, login).Some?
    requires var evicted, name := Elements(NamesToEvict(host, jar)), NameOf(host, login.state);
             forall cookie :: left(cookie) == (keeps(cookie) && !IsDeleted(cookie, evicted + {name}))
    ensures var own := Cookie(NameOf(host, login.state), P.Sign(host.mac, login).value, Own);
            Where(Begin(host, jar, login), keeps) == Where(jar, left) + if keeps(own) then [own] else []
  {
    var evicted, name := Elements(NamesToEvict(host, jar)), NameOf(host, login.state);
    var own := Cookie(name, P.Sign(host.mac, login).value, Own);
    var notEvicted := (cookie: Cookie) => !IsDeleted(cookie, evicted);
    var notReplaced := (cookie: Cookie) => !IsDeleted(cookie, {name});
    var neither := (cookie: Cookie) => !IsDeleted(cookie, evicted + {name});
    WhereTwice(jar, notEvicted, notReplaced, neither);
    WhereOneMore(Where(jar, neither), own, keeps);
    WhereTwice(jar, neither, keeps, left);
  }

  /**
   After a start a browser holds the new cookie and every pending one that was not the program's own
   under an evicted name or the new one; so it holds at most five exactly when at most four of those
   stood before, repeated names and cookies held elsewhere counted each.
   */
  lemma CookiesAfterAStart(host: Host, jar: Jar, login: P.PendingLogin)
    requires IsSound(host) && P.Sign(host.mac, login).Some?
    ensures var left := LeftBeside(host, jar, NameOf(host, login.state));
            && PendingCount(host, Begin(host, jar, login)) == 1 + left
            && (PendingCount(host, Begin(host, jar, login)) <= 5 <==> left <= 4)
  {
    var evicted, name := Elements(NamesToEvict(host, jar)), NameOf(host, login.state);
    StateNamesAPendingCookie(host, login.state);
    StartedWhere(host, jar, login, cookie => IsPending(host, cookie), cookie => IsLeft(host, cookie, evicted, name));
  }

  function NamesIn(jar: Jar): set<string> {
    set cookie | cookie in jar :: cookie.name
  }

  lemma {:induction false} OwnNamesCount(jar: Jar)
    requires IsDistinctByScope(jar) && forall cookie :: cookie in jar ==> cookie.scope.Own?
    ensures |NamesIn(jar)| == |jar|
  {
    if jar == [] {
      assert NamesIn(jar) == {};
    } else {
      var before, last := jar[..|jar| - 1], jar[|jar| - 1];
      assert jar == before + [last];
      assert forall cookie :: cookie in before ==> cookie in jar;
      OwnNamesCount(before);
      assert last.name !in NamesIn(before);
      assert NamesIn(jar) == NamesIn(before) + {last.name};
    }
  }

  /** What a start's jar holds. */
  ghost predicate IsStarted(host: Host, jar: Jar, name: string, after: Jar) {
    && |OwnPending(host, after)| <= 5
    && HeldElsewhere(after) == HeldElsewhere(jar)
    && PendingElsewhere(host, after) == PendingElsewhere(host, jar)
    && PendingCount(host, after) == |OwnPending(host, after)| + |PendingElsewhere(host, jar)|
    && (|PendingNames(host, jar)| < 5 ==>
          forall cookie :: cookie in jar && cookie.name != name ==> cookie in after)
    && (forall cookie :: cookie in jar && !IsPending(host, cookie) ==> cookie in after)
  }

  lemma CountsAddUp(host: Host, jar: Jar)
    ensures PendingCount(host, jar) == |OwnPending(host, jar)| + |PendingElsewhere(host, jar)|
  {
    WhereAddsUp(jar, (cookie: Cookie) => IsPending(host, cookie) && cookie.scope.Own?,
                (cookie: Cookie) => IsPending(host, cookie) && !cookie.scope.Own?, (cookie: Cookie) => IsPending(host, cookie));
  }

  /** Own cookies left beside a new one have names that are neither evicted nor new, and there are at most four. */
  lemma OwnLeftAtMostFour(host: Host, jar: Jar, name: string)
    requires IsDistinctByScope(jar)
    ensures var evicted := Elements(NamesToEvict(host, jar));
            |Where(jar, (cookie: Cookie) => IsLeft(host, cookie, evicted, name) && cookie.scope.Own?)| < MAX_PENDING_LOGINS
  {
    var evicted := Elements(NamesToEvict(host, jar));
    var isLeft := (cookie: Cookie) => IsLeft(host, cookie, evicted, name) && cookie.scope.Own?;
    var left := Where(jar, isLeft);
    WhereIsDistinct(jar, isLeft);
    OwnNamesCount(left);
    EvictionCount(host, jar);
    forall other | other in NamesIn(left) ensures other in PendingNames(host, jar) - evicted {
      var cookie :| cookie in left && cookie.name == other;
      assert cookie in jar && IsLeft(host, cookie, evicted, name);
    }
    SubsetCount(NamesIn(left), PendingNames(host, jar) - evicted);
  }

  /**
   From any jar a browser can hold, forged and repeated cookies included, a start leaves at most five
   pending cookies of the program's own, and every cookie held elsewhere where it was; a jar with
   fewer than five names loses nothing but an own cookie of the new login's name, and no cookie
   under another name than a pending one is touched.
   */
  lemma StartLeavesAtMostFive(host: Host, jar: Jar, login: P.PendingLogin)
    requires IsSound(host) && P.Sign(host.mac, login).Some? && IsDistinctByScope(jar)
    ensures IsStarted(host, jar, NameOf(host, login.state), Begin(host, jar, login))
  {
    var evicted, name := Elements(NamesToEvict(host, jar)), NameOf(host, login.state);
    StateNamesAPendingCookie(host, login.state);
    OwnLeftAtMostFour(host, jar, name);
    StartedWhere(host, jar, login, (cookie: Cookie) => IsPending(host, cookie) && cookie.scope.Own?,
                 (cookie: Cookie) => IsLeft(host, cookie, evicted, name) && cookie.scope.Own?);
    StartLeavesElsewhere(host, jar, login);
    CountsAddUp(host, Begin(host, jar, login));
    StartTouchesNoOther(host, jar, login);
  }

  lemma StartLeavesElsewhere(host: Host, jar: Jar, login: P.PendingLogin)
    requires P.Sign(host.mac, login).Some?
    ensures HeldElsewhere(Begin(host, jar, login)) == HeldElsewhere(jar)
    ensures PendingElsewhere(host, Begin(host, jar, login)) == PendingElsewhere(host, jar)
  {
    var isElsewhere := (cookie: Cookie) => !cookie.scope.Own?;
    var isPendingElsewhere := (cookie: Cookie) => IsPending(host, cookie) && !cookie.scope.Own?;
    StartedWhere(host, jar, login, isElsewhere, isElsewhere);
    StartedWhere(host, jar, login, isPendingElsewhere, isPendingElsewhere);
  }

  lemma StartTouchesNoOther(host: Host, jar: Jar, login: P.PendingLogin)
    requires P.Sign(host.mac, login).Some? && IsSound(host)
    ensures |PendingNames(host, jar)| < 5 ==>
              forall cookie :: cookie in jar && cookie.name != NameOf(host, login.state) ==> cookie in Begin(host, jar, login)
    ensures forall cookie :: cookie in jar && !IsPending(host, cookie) ==> cookie in Begin(host, jar, login)
  {
    EvictionCount(host, jar);
    StateNamesAPendingCookie(host, login.state);
    if |PendingNames(host, jar)| < MAX_PENDING_LOGINS {
      forall cookie | cookie in jar && cookie.name != NameOf(host, login.state) ensures cookie in Begin(host, jar, login) {
        SurvivesAStart(host, jar, login, cookie);
      }
    }
    forall cookie | cookie in jar && !IsPending(host, cookie) ensures cookie in Begin(host, jar, login) {
      assert cookie.name !in PendingNames(host, jar);
      SurvivesAStart(host, jar, login, cookie);
    }
  }

  lemma SurvivesAStart(host: Host, jar: Jar, login: P.PendingLogin, cookie: Cookie)
    requires P.Sign(host.mac, login).Some? && cookie in jar
    requires cookie.name !in Elements(NamesToEvict(host, jar)) && cookie.name != NameOf(host, login.state)
    ensures cookie in Begin(host, jar, login)
  {
  }

  /**
   Where every pending cookie is the program's own, as `__Host-` names force, both promises hold: a
   start leaves at most five, and its login is taken by the next callback, once.
   */
  lemma OwnJarsKeepBothPromises(host: Host, jar: Jar, login: P.PendingLogin)
    requires IsSound(host) && P.Sign(host.mac, login).Some?
    requires IsDistinctByScope(jar) && PendingElsewhere(host, jar) == []
    ensures var started := Begin(host, jar, login);
            && PendingCount(host, started) <= 5
            && TakenLogin(host, started, login.state) == P.Verified(P.Carried(login))
            && TakenLogin(host, Take(host, started, login.state), login.state) == P.NotVerified
  {
    StartLeavesAtMostFive(host, jar, login);
    NoValuesElsewhere(host, jar, login.state);
    TakenOnce(host, jar, login);
  }

  /** Where no pending cookie is the program's own, a start only adds one, however many there are. */
  lemma NothingOwnNothingGoes(host: Host, jar: Jar, login: P.PendingLogin)
    requires IsSound(host) && P.Sign(host.mac, login).Some?
    requires forall cookie :: cookie in jar && IsPending(host, cookie) ==> !cookie.scope.Own?
    ensures PendingCount(host, Begin(host, jar, login)) == PendingCount(host, jar) + 1
  {
    var evicted, name := Elements(NamesToEvict(host, jar)), NameOf(host, login.state);
    CookiesAfterAStart(host, jar, login);
    WhereAlike(jar, cookie => IsPending(host, cookie), cookie => IsLeft(host, cookie, evicted, name));
  }

  // ----- secure hosts, and only those -----

  /** On a secure host no browser holds a pending cookie elsewhere. */
  lemma SecureHoldsNothingElsewhere(host: Host, jar: Jar)
    requires host.secure && IsBrowserJar(jar)
    ensures PendingElsewhere(host, jar) == []
  {
    forall cookie | cookie in jar && IsPending(host, cookie) ensures cookie.scope.Own? {
      assert cookie.name[..7] == NamePrefix(true)[..7] == "__Host-";
    }
    WhereNone(jar, (cookie: Cookie) => IsPending(host, cookie) && !cookie.scope.Own?);
  }

  /** A plain host's pending names may be held anywhere. */
  lemma PlainNamesGoAnywhere(host: Host, name: string)
    requires !host.secure && IsPendingName(host, name)
    ensures !("__Host-" <= name)
  {
    assert name[0] == NamePrefix(false)[0] == 'o';
  }

  /** Cookies of one name and value under as many other paths. */
  function Scattered(name: string, value: string, n: nat): Jar {
    if n == 0 then [] else Scattered(name, value, n - 1) + [Cookie(name, value, Elsewhere(n - 1))]
  }

  lemma {:induction false} ScatteredJar(name: string, value: string, n: nat)
    ensures |Scattered(name, value, n)| == n && IsDistinctByScope(Scattered(name, value, n))
    ensures forall cookie :: cookie in Scattered(name, value, n) ==>
              cookie.name == name && cookie.value == value && cookie.scope.Elsewhere? && cookie.scope.place < n
  {
    if n > 0 {
      ScatteredJar(name, value, n - 1);
      var before := Scattered(name, value, n - 1);
      forall i | 0 <= i < |before| ensures before[i].scope != Elsewhere(n - 1) {
        assert before[i] in before;
      }
    }
  }

  /** A login that can be signed. */
  function Mintable(): P.PendingLogin {
    var secret := seq(P.PENDING_SECRET_CHARS, i => 'A');
    P.PendingLogin(secret, secret, secret, 0, None)
  }

  lemma MintableIsSigned(host: Host)
    ensures P.Sign(host.mac, Mintable()).Some?
  {
    assert forall i :: 0 <= i < P.PENDING_SECRET_CHARS ==> B.IsSymbol(Mintable().state[i]);
    P.SigningSucceedsExactly(host.mac, Mintable());
  }

  /** Five cookies under other paths exceed the cap at the next start: none can be deleted. */
  lemma ScatteredCookiesExceedTheCap(host: Host, name: string, value: string, login: P.PendingLogin)
    requires IsSound(host) && !host.secure && IsPendingName(host, name) && P.Sign(host.mac, login).Some?
    ensures IsBrowserJar(Scattered(name, value, 5))
    ensures PendingCount(host, Begin(host, Scattered(name, value, 5), login)) == 6
  {
    var jar := Scattered(name, value, 5);
    ScatteredJar(name, value, 5);
    PlainNamesGoAnywhere(host, name);
    NothingOwnNothingGoes(host, jar, login);
    WhereAll(jar, cookie => IsPending(host, cookie));
  }

  /** At most five after every start of every browser: that holds on a secure host, and on no other. */
  lemma CapHoldsExactlyOnSecureHosts(host: Host)
    requires IsSound(host)
    ensures host.secure <==>
            forall jar, login :: IsBrowserJar(jar) && P.Sign(host.mac, login).Some? ==>
              PendingCount(host, Begin(host, jar, login)) <= 5
  {
    if host.secure {
      forall jar, login | IsBrowserJar(jar) && P.Sign(host.mac, login).Some?
        ensures PendingCount(host, Begin(host, jar, login)) <= 5
      {
        StartLeavesAtMostFive(host, jar, login);
        SecureHoldsNothingElsewhere(host, jar);
      }
    } else {
      MintableIsSigned(host);
      StateNamesAPendingCookie(host, "");
      ScatteredCookiesExceedTheCap(host, NameOf(host, ""), "", Mintable());
    }
  }

  // ----- runs of starts and callbacks -----

  datatype Visit = Start(login: P.PendingLogin) | Callback(state: string)

  function After(host: Host, jar: Jar, visits: seq<Visit>): Jar {
    if visits == [] then jar
    else
      var before := After(host, jar, visits[..|visits| - 1]);
      match visits[|visits| - 1]
      case Start(login) => Begin(host, before, login)
      case Callback(state) => Take(host, before, state)
  }

  lemma StoredIsABrowserJar(host: Host, jar: Jar, evicted: set<string>, name: string, value: string)
    requires IsBrowserJar(jar)
    ensures IsBrowserJar(Stored(Cleared(jar, evicted), name, value))
  {
    WhereIsDistinct(jar, cookie => !IsDeleted(cookie, evicted));
    WhereIsDistinct(Cleared(jar, evicted), cookie => !IsDeleted(cookie, {name}));
    var kept := Cleared(Cleared(jar, evicted), {name});
    forall i | 0 <= i < |kept| ensures kept[i].name != name || kept[i].scope != Own {
      assert kept[i] in kept;
    }
  }

  lemma TakeLeavesElsewhere(host: Host, jar: Jar, state: string)
    requires IsBrowserJar(jar)
    ensures IsBrowserJar(Take(host, jar, state))
    ensures HeldElsewhere(Take(host, jar, state)) == HeldElsewhere(jar)
    ensures |OwnPending(host, Take(host, jar, state))| <= |OwnPending(host, jar)|
  {
    var names := {NameOf(host, state)};
    var isKept := (cookie: Cookie) => !IsDeleted(cookie, names);
    var isOwn := (cookie: Cookie) => IsPending(host, cookie) && cookie.scope.Own?;
    var isOwnKept := (cookie: Cookie) => isOwn(cookie) && isKept(cookie);
    WhereIsDistinct(jar, isKept);
    WhereTwice(jar, isKept, (cookie: Cookie) => !cookie.scope.Own?, (cookie: Cookie) => !cookie.scope.Own?);
    WhereTwice(jar, isKept, isOwn, isOwnKept);
    WhereTwice(jar, isOwn, isKept, isOwnKept);
    WhereIsShorter(OwnPending(host, jar), isKept);
  }

  lemma {:induction false} WhereIsShorter(jar: Jar, keeps: Cookie -> bool)
    ensures |Where(jar, keeps)| <= |jar|
  {
    if jar != [] {
      WhereIsShorter(jar[..|jar| - 1], keeps);
    }
  }

  /**
   Over every run of starts and callbacks from a jar a browser can hold, the program's own pending
   cookies stay at five or fewer and what is held elsewhere stays as it was; so a jar with nothing
   pending elsewhere, the empty one or any on a secure host, stays at five or fewer in all.
   */
  lemma {:induction false} EveryRunStaysWithinFive(host: Host, jar: Jar, visits: seq<Visit>)
    requires IsSound(host) && IsBrowserJar(jar) && |OwnPending(host, jar)| <= 5
    ensures var after := After(host, jar, visits);
            && IsBrowserJar(after)
            && |OwnPending(host, after)| <= 5
            && HeldElsewhere(after) == HeldElsewhere(jar)
            && PendingCount(host, after) <= 5 + |PendingElsewhere(host, jar)|
  {
    var after := After(host, jar, visits);
    if visits != [] {
      var before := After(host, jar, visits[..|visits| - 1]);
      EveryRunStaysWithinFive(host, jar, visits[..|visits| - 1]);
      match visits[|visits| - 1]
      case Start(login) =>
        if P.Sign(host.mac, login).Some? {
          StartLeavesAtMostFive(host, before, login);
          StoredIsABrowserJar(host, before, Elements(NamesToEvict(host, before)), NameOf(host, login.state),
                              P.Sign(host.mac, login).value);
        }
      case Callback(state) =>
        TakeLeavesElsewhere(host, before, state);
    }
    CountsAddUp(host, after);
    ElsewhereOfHeld(host, after);
    ElsewhereOfHeld(host, jar);
  }

  lemma ElsewhereOfHeld(host: Host, jar: Jar)
    ensures PendingElsewhere(host, jar) == Where(HeldElsewhere(jar), (cookie: Cookie) => IsPending(host, cookie))
  {
    WhereTwice(jar, (cookie: Cookie) => !cookie.scope.Own?, (cookie: Cookie) => IsPending(host, cookie),
               (cookie: Cookie) => IsPending(host, cookie) && !cookie.scope.Own?);
  }

  // ----- what a callback gets -----

  /**
   A callback gets a login exactly when one cookie, and no other, stands under its state's name and
   its value verifies; a repeated name gives nothing, whatever its values.
   */
  lemma {:induction false} TakenExactly(host: Host, jar: Jar, state: string)
    ensures TakenLogin(host, jar, state).Verified? <==>
            exists i :: IsOnlyNamed(jar, NameOf(host, state), i) && P.Verify(host.mac, jar[i].value).Verified?
    ensures forall i :: IsOnlyNamed(jar, NameOf(host, state), i) ==>
              TakenLogin(host, jar, state) == P.Verify(host.mac, jar[i].value)
  {
    var name := NameOf(host, state);
    forall i | IsOnlyNamed(jar, name, i) ensures ValuesOf(jar, name) == [jar[i].value] {
      OnlyNamedValue(jar, name, i);
    }
    if |ValuesOf(jar, name)| == 1 {
      var i := TheOnlyNamed(jar, name);
    }
  }

  predicate IsOnlyNamed(jar: Jar, name: string, i: int) {
    0 <= i < |jar| && forall j :: 0 <= j < |jar| ==> (jar[j].name == name <==> j == i)
  }

  lemma {:induction false} NoneNamed(jar: Jar, name: string)
    ensures ValuesOf(jar, name) == [] <==> forall j :: 0 <= j < |jar| ==> jar[j].name != name
  {
    if jar != [] {
      var before, last := jar[..|jar| - 1], jar[|jar| - 1];
      NoneNamed(before, name);
      assert forall j :: 0 <= j < |before| ==> before[j] == jar[j];
      assert last.name == name ==> jar[|jar| - 1].name == name;
    }
  }

  lemma {:induction false} OnlyNamedValue(jar: Jar, name: string, i: int)
    requires IsOnlyNamed(jar, name, i)
    ensures ValuesOf(jar, name) == [jar[i].value]
  {
    var before := jar[..|jar| - 1];
    if i == |jar| - 1 {
      NoneNamed(before, name);
    } else {
      assert jar[|jar| - 1].name != name;
      OnlyNamedValue(before, name, i);
    }
  }

  lemma {:induction false} TheOnlyNamed(jar: Jar, name: string) returns (i: int)
    requires |ValuesOf(jar, name)| == 1
    ensures IsOnlyNamed(jar, name, i)
  {
    var before, last := jar[..|jar| - 1], jar[|jar| - 1];
    NoneNamed(before, name);
    if last.name == name {
      i := |jar| - 1;
    } else {
      i := TheOnlyNamed(before, name);
    }
  }

  /**
   A callback for one login leaves what another gets as it was. Under the same name what is left is
   what a browser holds of it elsewhere.
   */
  lemma TakingLeavesTheOthers(host: Host, jar: Jar, state: string, other: string)
    ensures TakenLogin(host, Take(host, jar, state), other)
         == TakenLogin(host, if NameOf(host, state) == NameOf(host, other) then HeldElsewhere(jar) else jar, other)
  {
    var names, name := {NameOf(host, state)}, NameOf(host, other);
    var isKept := (cookie: Cookie) => !IsDeleted(cookie, names);
    if NameOf(host, state) == name {
      ValuesAlike(jar, name, isKept, (cookie: Cookie) => !cookie.scope.Own?);
    } else {
      WhereAll(jar, cookie => true);
      ValuesAlike(jar, name, isKept, cookie => true);
    }
  }

  /**
   A callback for the state a start just began gets exactly that login, unless a browser holds a
   cookie of its name elsewhere, and then nothing. The same callback again gets what is held elsewhere.
   */
  lemma TakenOnce(host: Host, jar: Jar, login: P.PendingLogin)
    requires IsSound(host) && P.Sign(host.mac, login).Some?
    ensures var started, elsewhere := Begin(host, jar, login), HeldElsewhere(jar);
            && TakenLogin(host, started, login.state)
            == (if ValuesOf(elsewhere, NameOf(host, login.state)) == [] then P.Verified(P.Carried(login)) else P.NotVerified)
            && TakenLogin(host, Take(host, started, login.state), login.state) == TakenLogin(host, elsewhere, login.state)
  {
    var evicted, name := Elements(NamesToEvict(host, jar)), NameOf(host, login.state);
    var started := Begin(host, jar, login);
    P.VerifyUndoesSign(host.mac, login);
    ValuesAfterAStart(host, jar, login);
    TakingLeavesTheOthers(host, started, login.state, login.state);
    StartLeavesElsewhere(host, jar, login);
  }

  lemma ValuesAfterAStart(host: Host, jar: Jar, login: P.PendingLogin)
    requires P.Sign(host.mac, login).Some?
    ensures var name := NameOf(host, login.state);
            ValuesOf(Begin(host, jar, login), name)
            == ValuesOf(HeldElsewhere(jar), name) + [P.Sign(host.mac, login).value]
  {
    var evicted, name := Elements(NamesToEvict(host, jar)), NameOf(host, login.state);
    var value := P.Sign(host.mac, login).value;
    var neither := (cookie: Cookie) => !IsDeleted(cookie, evicted + {name});
    WhereTwice(jar, cookie => !IsDeleted(cookie, evicted), cookie => !IsDeleted(cookie, {name}), neither);
    ValuesAlike(jar, name, neither, (cookie: Cookie) => !cookie.scope.Own?);
    LastValue(Where(jar, neither), Cookie(name, value, Own), name);
  }

  lemma {:induction false} NoValuesElsewhere(host: Host, jar: Jar, state: string)
    requires IsSound(host) && PendingElsewhere(host, jar) == []
    ensures ValuesOf(HeldElsewhere(jar), NameOf(host, state)) == []
  {
    StateNamesAPendingCookie(host, state);
    HasValuesExactly(HeldElsewhere(jar), NameOf(host, state));
    forall cookie | cookie in HeldElsewhere(jar) ensures cookie.name != NameOf(host, state) {
      assert cookie !in PendingElsewhere(host, jar);
    }
  }

  /**
   A start leaves the login of any state with another digest as it was, unless it evicts its name; then
   what a browser holds of it elsewhere is left.
   */
  lemma StartLeavesOtherLogins(host: Host, jar: Jar, login: P.PendingLogin, state: string)
    requires P.Sign(host.mac, login).Some? && host.digest(state) != host.digest(login.state)
    ensures TakenLogin(host, Begin(host, jar, login), state)
         == TakenLogin(host, if NameOf(host, state) in NamesToEvict(host, jar) then HeldElsewhere(jar) else jar, state)
  {
    DigestsTellNamesApart(host, login.state, state);
    ValuesOfOtherNames(host, jar, login, NameOf(host, state));
  }

  /** What a start leaves under any name but the new one. */
  lemma ValuesOfOtherNames(host: Host, jar: Jar, login: P.PendingLogin, other: string)
    requires P.Sign(host.mac, login).Some? && other != NameOf(host, login.state)
    ensures ValuesOf(Begin(host, jar, login), other)
         == ValuesOf(if other in NamesToEvict(host, jar) then HeldElsewhere(jar) else jar, other)
  {
    var evicted, name := Elements(NamesToEvict(host, jar)), NameOf(host, login.state);
    var neither := (cookie: Cookie) => !IsDeleted(cookie, evicted + {name});
    WhereTwice(jar, cookie => !IsDeleted(cookie, evicted), cookie => !IsDeleted(cookie, {name}), neither);
    LastValue(Where(jar, neither), Cookie(name, P.Sign(host.mac, login).value, Own), other);
    ValuesNotDeleted(jar, evicted + {name}, other);
  }

  lemma ValuesNotDeleted(jar: Jar, names: set<string>, name: string)
    ensures ValuesOf(Where(jar, cookie => !IsDeleted(cookie, names)), name)
         == ValuesOf(if name in names then HeldElsewhere(jar) else jar, name)
  {
    var isKept := (cookie: Cookie) => !IsDeleted(cookie, names);
    if name in names {
      ValuesAlike(jar, name, isKept, (cookie: Cookie) => !cookie.scope.Own?);
    } else {
      WhereAll(jar, cookie => true);
      ValuesAlike(jar, name, isKept, cookie => true);
    }
  }

  lemma DigestsTellNamesApart(host: Host, a: string, b: string)
    ensures NameOf(host, a) == NameOf(host, b) <==> host.digest(a) == host.digest(b)
  {
    var prefix := |NamePrefix(host.secure)|;
    assert NameOf(host, a)[prefix..] == host.digest(a) && NameOf(host, b)[prefix..] == host.digest(b);
  }

  /** Two logins begun one after the other, of states with two digests, can both be completed where there is room. */
  lemma TwoLoginsSideBySide(host: Host, jar: Jar, first: P.PendingLogin, second: P.PendingLogin)
    requires IsSound(host) && P.Sign(host.mac, first).Some? && P.Sign(host.mac, second).Some?
    requires host.digest(first.state) != host.digest(second.state) && PendingElsewhere(host, jar) == []
    requires |PendingNames(host, Begin(host, jar, first))| < 5
    ensures var both := Begin(host, Begin(host, jar, first), second);
            && TakenLogin(host, both, first.state) == P.Verified(P.Carried(first))
            && TakenLogin(host, both, second.state) == P.Verified(P.Carried(second))
  {
    var started := Begin(host, jar, first);
    StartLeavesElsewhere(host, jar, first);
    NoValuesElsewhere(host, jar, first.state);
    NoValuesElsewhere(host, started, second.state);
    TakenOnce(host, jar, first);
    TakenOnce(host, started, second);
    EvictionCount(host, started);
    StartLeavesOtherLogins(host, started, second, first.state);
  }

  /** A browser holding nothing but a copy of a login's cookie, under another path. */
  function CopyElsewhere(host: Host, login: P.PendingLogin): Jar
    requires P.Sign(host.mac, login).Some?
  {
    [Cookie(NameOf(host, login.state), P.Sign(host.mac, login).value, Elsewhere(0))]
  }

  /** The copy is taken again by every callback. */
  lemma CopyIsTakenAgain(host: Host, login: P.PendingLogin)
    requires IsSound(host) && !host.secure && P.Sign(host.mac, login).Some?
    ensures var jar := CopyElsewhere(host, login);
            && IsBrowserJar(jar)
            && TakenLogin(host, jar, login.state) == P.Verified(P.Carried(login))
            && Take(host, jar, login.state) == jar
  {
    var name, value := NameOf(host, login.state), P.Sign(host.mac, login).value;
    var copy := Cookie(name, value, Elsewhere(0));
    P.VerifyUndoesSign(host.mac, login);
    StateNamesAPendingCookie(host, login.state);
    PlainNamesGoAnywhere(host, name);
    LastValue([], copy, name);
    assert [] + [copy] == [copy];
    WhereAll([copy], cookie => !IsDeleted(cookie, {name}));
  }

  /** A login taken by one callback is out of reach of the next, for every browser: on a secure host, and on no other. */
  lemma LoginsAreTakenOnceExactlyOnSecureHosts(host: Host)
    requires IsSound(host)
    ensures host.secure <==>
            forall jar, state :: IsBrowserJar(jar) ==>
              TakenLogin(host, Take(host, jar, state), state) == P.NotVerified
  {
    if host.secure {
      forall jar, state | IsBrowserJar(jar)
        ensures TakenLogin(host, Take(host, jar, state), state) == P.NotVerified
      {
        TakingLeavesTheOthers(host, jar, state, state);
        SecureHoldsNothingElsewhere(host, jar);
        NoValuesElsewhere(host, jar, state);
      }
    } else {
      MintableIsSigned(host);
      CopyIsTakenAgain(host, Mintable());
    }
  }

  lemma LastValue(jar: Jar, last: Cookie, name: string)
    ensures ValuesOf(jar + [last], name) == ValuesOf(jar, name) + if last.name == name then [last.value] else []
  {
    assert (jar + [last])[..|jar|] == jar;
  }
}
