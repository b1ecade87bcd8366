/**
 The client's identity behind trusted proxies: the forwarded fields read from right to left, cut by
 index, at most sixteen hops deep.

 Reading, unmapping and printing an address, and which networks are trusted, are arbitrary functions
 of the deployment.
 */
module ForwardedChain {
  import opened Wrappers
  import opened Text

  const MAX_FORWARDED_FOR_HOPS := 16
  const MAX_ADDRESS_CHARS := 45
  const ZONE_SEPARATOR := '%'

  datatype Deployment<!Address> = Deployment(
    parse: string -> Option<Address>,
    unmapped: Address -> Address,
    text: Address -> string,
    trusts: Address -> bool)

  function CanonicalAddress<Address>(d: Deployment<Address>, host: string): Option<Address> {
    if |host| > MAX_ADDRESS_CHARS || ZONE_SEPARATOR in host then None
    else
      match d.parse(host)
      case None => None
      case Some(address) => Some(d.unmapped(address))
  }

  function CanonicalHost<Address>(d: Deployment<Address>, host: string): string {
    match CanonicalAddress(d, host)
    case None => host
    case Some(address) => d.text(address)
  }

  predicate IsTrusted<Address>(d: Deployment<Address>, host: string) {
    var address := CanonicalAddress(d, host);
    address.Some? && d.trusts(address.value)
  }

  // ----- the reference: join, split, strip, reverse -----

  function Reversed(parts: seq<string>): seq<string> {
    if parts == [] then [] else Reversed(parts[1..]) + [parts[0]]
  }

  function Stripped(parts: seq<string>): seq<string> {
    if parts == [] then [] else [Strip(parts[0])] + Stripped(parts[1..])
  }

  /** The one list all fields spell together, newest hop first; no field spells no hop. */
  function Hops(fields: seq<string>): seq<string> {
    if fields == [] then [] else Reversed(Stripped(Split(Join(fields, ','), ',')))
  }

  /** Joining fields with commas; no field joins to the empty text. */
  function JoinOf(fields: seq<string>): string {
    if fields == [] then "" else Join(fields, ',')
  }

  /** The scan is reverse, strip, split and join exactly when there is a field: no field is not an empty one. */
  lemma ScanIsSplittingExactly(fields: seq<string>)
    ensures Hops(fields) == Reversed(Stripped(Split(JoinOf(fields), ','))) <==> fields != []
  {
    if fields == [] {
      HopsOfOnePart("");
    }
  }

  // ----- the scan -----

  /** The last comma before `end`, or -1. */
  method RFindComma(field: string, end: nat) returns (i: int)
    requires end <= |field|
    ensures -1 <= i < end && (i >= 0 ==> field[i] == ',')
    ensures forall j :: i < j < end ==> field[j] != ','
  {
    i := end - 1;
    while i >= 0 && field[i] != ','
      invariant -1 <= i < end
      invariant forall j :: i < j < end ==> field[j] != ','
    {
      i := i - 1;
    }
  }

  /** The entries cut out by index from the right are the reference's, and cutting them ends. */
  method ForwardedEntries(fields: seq<string>) returns (entries: seq<string>)
    ensures entries == Hops(fields)
  {
    entries := [];
    var i := |fields|;
    while i > 0
      invariant 0 <= i <= |fields|
      invariant entries == Hops(fields[i..])
    {
      i := i - 1;
      var field := fields[i];
      ghost var newer := entries;
      var end := |field|;
      assert field[..end] == field;
      while true
        invariant 0 <= end <= |field|
        invariant newer + HopsOf(field) == entries + HopsOf(field[..end])
        decreases end
      {
        var separator := RFindComma(field, end);
        entries := entries + [Strip(field[separator + 1..end])];
        CutOne(field[..end], separator);
        assert field[..end][separator + 1..] == field[separator + 1..end];
        if separator < 0 {
          break;
        }
        assert field[..end][..separator] == field[..separator];
        end := separator;
      }
      assert fields[i..][1..] == fields[i + 1..];
      HopsOfFields(field, fields[i + 1..]);
      assert [field] + fields[i + 1..] == fields[i..];
    }
    assert fields[0..] == fields;
  }

  function HopsOf(field: string): seq<string> {
    Reversed(Stripped(Split(field, ',')))
  }

  lemma {:induction false} ReversedAcross(a: seq<string>, b: seq<string>)
    ensures Reversed(a + b) == Reversed(b) + Reversed(a)
  {
    if a == [] {
      assert a + b == b;
    } else {
      ReversedAcross(a[1..], b);
      assert (a + b)[1..] == a[1..] + b;
    }
  }

  lemma {:induction false} StrippedAcross(a: seq<string>, b: seq<string>)
    ensures Stripped(a + b) == Stripped(a) + Stripped(b)
  {
    if a == [] {
      assert a + b == b;
    } else {
      StrippedAcross(a[1..], b);
      assert (a + b)[1..] == a[1..] + b;
    }
  }

  /** A comma in a text puts the hops to its right before those to its left. */
  lemma HopsAcross(left: string, right: string)
    ensures HopsOf(left + [','] + right) == HopsOf(right) + HopsOf(left)
  {
    SplitAcross(left, right, ',');
    StrippedAcross(Split(left, ','), Split(right, ','));
    ReversedAcross(Stripped(Split(left, ',')), Stripped(Split(right, ',')));
  }

  lemma HopsOfOnePart(part: string)
    requires ',' !in part
    ensures HopsOf(part) == [Strip(part)]
  {
    SplitOfOnePart(part, ',');
    assert Stripped([part]) == [Strip(part)];
    assert Reversed([Strip(part)]) == [Strip(part)];
  }

  /** One cut: the part right of the last comma, then the hops left of it. */
  lemma CutOne(field: string, separator: int)
    requires -1 <= separator < |field| && (separator >= 0 ==> field[separator] == ',')
    requires forall j :: separator < j < |field| ==> field[j] != ','
    ensures HopsOf(field)
         == [Strip(field[separator + 1..])] + if separator < 0 then [] else HopsOf(field[..separator])
  {
    var left, part := if separator < 0 then "" else field[..separator], field[separator + 1..];
    assert ',' !in part;
    if separator >= 0 {
      assert left + [','] + part == field;
      CutAt(left, part);
    } else {
      assert part == field;
      HopsOfOnePart(part);
    }
  }

  lemma CutAt(left: string, part: string)
    requires ',' !in part
    ensures HopsOf(left + [','] + part) == [Strip(part)] + HopsOf(left)
  {
    HopsOfOnePart(part);
    HopsAcross(left, part);
  }

  lemma HopsOfFields(field: string, newer: seq<string>)
    ensures Hops([field] + newer) == Hops(newer) + HopsOf(field)
  {
    if newer == [] {
      assert Join([field], ',') == field;
      assert [field] + newer == [field];
    } else {
      assert ([field] + newer)[1..] == newer;
      HopsAcross(field, Join(newer, ','));
    }
  }

  // ----- the client -----

  /** The first hop within reach that is not a trusted proxy decides; past the reach nobody is named. */
  function Client<Address>(d: Deployment<Address>, hops: seq<string>, reach: nat): Option<Address> {
    if hops == [] || reach == 0 then None
    else if IsTrusted(d, hops[0]) then Client(d, hops[1..], reach - 1)
    else CanonicalAddress(d, hops[0])
  }

  method ClientFromChain<Address>(d: Deployment<Address>, entries: seq<string>) returns (client: Option<Address>)
    ensures client == Client(d, entries, MAX_FORWARDED_FOR_HOPS)
  {
    var i := 0;
    while i < |entries| && i < MAX_FORWARDED_FOR_HOPS
      invariant 0 <= i <= |entries| && i <= MAX_FORWARDED_FOR_HOPS
      invariant Client(d, entries, MAX_FORWARDED_FOR_HOPS) == Client(d, entries[i..], MAX_FORWARDED_FOR_HOPS - i)
    {
      var hop := CanonicalAddress(d, entries[i]);
      match hop {
        case None => return None;
        case Some(address) =>
          if !d.trusts(address) {
            return hop;
          }
      }
      assert entries[i..][1..] == entries[i + 1..];
      i := i + 1;
    }
    client := None;
  }

  function Identity<Address>(d: Deployment<Address>, peer: string, fields: seq<string>): string {
    if !IsTrusted(d, peer) then CanonicalHost(d, peer)
    else
      match Client(d, Hops(fields), MAX_FORWARDED_FOR_HOPS)
      case None => CanonicalHost(d, peer)
      case Some(client) => d.text(client)
  }

  /** The newest hop that is no trusted proxy, and within reach. */
  predicate IsDecidingHop<Address>(d: Deployment<Address>, hops: seq<string>, k: int) {
    && 0 <= k < |hops| && k < 16 && !IsTrusted(d, hops[k])
    && forall j :: 0 <= j < k ==> IsTrusted(d, hops[j])
  }

  /**
   A peer that is no trusted proxy is the client, whatever the fields say. Behind a trusted one the
   newest hop within sixteen that is no trusted proxy is, if it is an address; in every other case the peer.
   */
  method GetClientIp<Address>(d: Deployment<Address>, peer: string, fields: seq<string>) returns (identity: string)
    ensures identity == Identity(d, peer, fields)
    ensures (match CanonicalAddress(d, peer) case None => true case Some(address) => !d.trusts(address)) ==>
              identity == CanonicalHost(d, peer)
    ensures IsTrusted(d, peer) ==>
              var hops := Hops(fields);
              && (forall k, address :: IsDecidingHop(d, hops, k) && CanonicalAddress(d, hops[k]) == Some(address) ==>
                    identity == d.text(address))
              && (!(exists k :: IsDecidingHop(d, hops, k) && CanonicalAddress(d, hops[k]).Some?) ==>
                    identity == CanonicalHost(d, peer))
  {
    if !IsTrusted(d, peer) {
      return CanonicalHost(d, peer);
    }
    ClientExactly(d, Hops(fields));
    var entries := ForwardedEntries(fields);
    var client := ClientFromChain(d, entries);
    identity := match client
      case None => CanonicalHost(d, peer)
      case Some(address) => d.text(address);
  }

  /** Who the client is, in terms of the hops alone. */
  lemma ClientExactly<Address>(d: Deployment<Address>, hops: seq<string>)
    ensures forall k :: IsDecidingHop(d, hops, k) ==> Client(d, hops, MAX_FORWARDED_FOR_HOPS) == CanonicalAddress(d, hops[k])
    ensures !(exists k :: IsDecidingHop(d, hops, k)) ==> Client(d, hops, MAX_FORWARDED_FOR_HOPS) == None
  {
    forall k | IsDecidingHop(d, hops, k) ensures Client(d, hops, MAX_FORWARDED_FOR_HOPS) == CanonicalAddress(d, hops[k]) {
      NewestUntrustedHopDecides(d, hops, MAX_FORWARDED_FOR_HOPS, k);
    }
    if !(exists k :: IsDecidingHop(d, hops, k)) {
      NoneDecides(d, hops, 0);
      TrustedHopsNameNobody(d, hops, MAX_FORWARDED_FOR_HOPS);
    }
  }

  lemma {:induction false} NoneDecides<Address>(d: Deployment<Address>, hops: seq<string>, from: nat)
    requires !exists k :: IsDecidingHop(d, hops, k)
    requires forall j :: 0 <= j < from && j < |hops| && j < 16 ==> IsTrusted(d, hops[j])
    ensures forall j :: 0 <= j < |hops| && j < 16 ==> IsTrusted(d, hops[j])
    decreases 16 - from
  {
    if from < |hops| && from < 16 {
      assert !IsDecidingHop(d, hops, from);
      NoneDecides(d, hops, from + 1);
    }
  }

  /**
   Every spelling of an address, of at most 45 characters and without a zone, has the one identity and
   standing of that address unmapped; any other text is its own, and trusted by nobody.
   */
  lemma OneAddressOneIdentity<Address>(d: Deployment<Address>, host: string)
    ensures CanonicalHost(d, host)
         == if |host| <= 45 && '%' !in host && d.parse(host).Some? then d.text(d.unmapped(d.parse(host).value)) else host
    ensures IsTrusted(d, host) <==>
            |host| <= 45 && '%' !in host && d.parse(host).Some? && d.trusts(d.unmapped(d.parse(host).value))
  {
  }

  /** Whether some hop within reach is no trusted proxy, or there are as many hops as are ever read. */
  predicate IsDecided<Address>(d: Deployment<Address>, hops: seq<string>, reach: nat) {
    reach == 0 || (hops != [] && (!IsTrusted(d, hops[0]) || IsDecided(d, hops[1..], reach - 1)))
  }

  /** The client, said without a scan: the newest hop that is no trusted proxy, if it is within reach. */
  lemma {:induction false} NewestUntrustedHopDecides<Address>(
      d: Deployment<Address>, hops: seq<string>, reach: nat, k: nat)
    requires k < |hops| && k < reach && !IsTrusted(d, hops[k])
    requires forall j :: 0 <= j < k ==> IsTrusted(d, hops[j])
    ensures Client(d, hops, reach) == CanonicalAddress(d, hops[k]) && IsDecided(d, hops, reach)
  {
    if k > 0 {
      NewestUntrustedHopDecides(d, hops[1..], reach - 1, k - 1);
    }
  }

  /** Trusted hops alone name nobody, and decide exactly when there are as many as are ever read. */
  lemma {:induction false} TrustedHopsNameNobody<Address>(d: Deployment<Address>, hops: seq<string>, reach: nat)
    requires forall k :: 0 <= k < |hops| && k < reach ==> IsTrusted(d, hops[k])
    ensures Client(d, hops, reach) == None
    ensures IsDecided(d, hops, reach) <==> |hops| >= reach
  {
    if hops != [] && reach > 0 {
      forall k | 0 <= k < |hops[1..]| && k < reach - 1 ensures IsTrusted(d, hops[1..][k]) {
        assert hops[1..][k] == hops[k + 1];
      }
      TrustedHopsNameNobody(d, hops[1..], reach - 1);
    }
  }

  /** Older hops never change a decided answer; an undecided one goes on with them. */
  lemma {:induction false} OlderHops<Address>(
      d: Deployment<Address>, hops: seq<string>, older: seq<string>, reach: nat)
    ensures IsDecided(d, hops, reach) ==> Client(d, hops + older, reach) == Client(d, hops, reach)
    ensures !IsDecided(d, hops, reach) ==>
              && |hops| < reach
              && Client(d, hops, reach) == None
              && Client(d, hops + older, reach) == Client(d, older, reach - |hops|)
  {
    if hops == [] {
      assert hops + older == older;
    } else if reach > 0 {
      OlderHops(d, hops[1..], older, reach - 1);
      assert (hops + older)[1..] == hops[1..] + older;
    }
  }

  lemma {:induction false} HopsOfMoreFields(older: seq<string>, fields: seq<string>)
    ensures Hops(older + fields) == Hops(fields) + Hops(older)
  {
    if older == [] {
      assert older + fields == fields;
    } else {
      HopsOfMoreFields(older[1..], fields);
      HopsOfOneMoreField(older[0], older[1..], fields);
      assert older + fields == [older[0]] + (older[1..] + fields);
      assert older == [older[0]] + older[1..];
    }
  }

  lemma HopsOfOneMoreField(first: string, rest: seq<string>, fields: seq<string>)
    requires Hops(rest + fields) == Hops(fields) + Hops(rest)
    ensures Hops([first] + (rest + fields)) == Hops(fields) + Hops([first] + rest)
  {
    HopsOfFields(first, rest + fields);
    HopsOfFields(first, rest);
    Regrouped(Hops(fields), Hops(rest), HopsOf(first));
  }

  lemma Regrouped(newest: seq<string>, middle: seq<string>, oldest: seq<string>)
    ensures (newest + middle) + oldest == newest + (middle + oldest)
  {
  }

  /** Text ending in a comma written in front of the oldest field only adds older hops. */
  lemma HopsOfLongerField(text: string, fields: seq<string>)
    requires fields != []
    ensures Hops([text + [','] + fields[0]] + fields[1..]) == Hops(fields) + HopsOf(text)
  {
    HopsOfFieldAfterText(text, fields[0], fields[1..]);
    assert [fields[0]] + fields[1..] == fields;
  }

  lemma HopsOfFieldAfterText(text: string, field: string, newer: seq<string>)
    ensures Hops([text + [','] + field] + newer) == Hops([field] + newer) + HopsOf(text)
  {
    HopsOfFields(text + [','] + field, newer);
    HopsAcross(text, field);
    HopsOfFields(field, newer);
  }

  /** Once the chain decides, no field put in front and no text ending in a comma changes the identity. */
  lemma PrefixNeverMatters<Address>(
      d: Deployment<Address>, peer: string, fields: seq<string>, older: seq<string>, text: string)
    requires IsDecided(d, Hops(fields), MAX_FORWARDED_FOR_HOPS)
    ensures Identity(d, peer, older + fields) == Identity(d, peer, fields)
    ensures fields != [] ==>
              Identity(d, peer, [text + [','] + fields[0]] + fields[1..]) == Identity(d, peer, fields)
  {
    HopsOfMoreFields(older, fields);
    OlderHops(d, Hops(fields), Hops(older), MAX_FORWARDED_FOR_HOPS);
    if fields != [] {
      HopsOfLongerField(text, fields);
      OlderHops(d, Hops(fields), HopsOf(text), MAX_FORWARDED_FOR_HOPS);
    }
  }

  /**
   And only then: behind a trusted peer, where any outside address prints as other text than the
   peer, the identity is beyond reach of every prefix exactly when the chain decides.
   */
  lemma PrefixMattersExactly<Address>(
      d: Deployment<Address>, peer: string, fields: seq<string>, outsider: string)
    requires IsTrusted(d, peer) && ',' !in outsider
    requires var address := CanonicalAddress(d, Strip(outsider));
             address.Some? && !d.trusts(address.value) && d.text(address.value) != CanonicalHost(d, peer)
    ensures (forall older :: Identity(d, peer, older + fields) == Identity(d, peer, fields))
       <==> IsDecided(d, Hops(fields), MAX_FORWARDED_FOR_HOPS)
  {
    var hops := Hops(fields);
    if IsDecided(d, hops, MAX_FORWARDED_FOR_HOPS) {
      forall older ensures Identity(d, peer, older + fields) == Identity(d, peer, fields) {
        PrefixNeverMatters(d, peer, fields, older, "");
      }
    } else {
      HopsOfMoreFields([outsider], fields);
      HopsOfFields(outsider, []);
      HopsOfOnePart(outsider);
      assert [outsider] + [] == [outsider];
      OlderHops(d, hops, [Strip(outsider)], MAX_FORWARDED_FOR_HOPS);
      assert Identity(d, peer, [outsider] + fields) != Identity(d, peer, fields);
    }
  }

  // ----- the forwarded protocol -----

  /** What the closest proxy said of the protocol, or the empty text when no field came. */
  method NewestEntry(fields: seq<string>) returns (newest: string)
    ensures fields == [] ==> newest == ""
    ensures fields != [] ==> newest == Hops(fields)[0]
  {
    var entries := ForwardedEntries(fields);
    if fields != [] {
      SomeHop(fields);
    }
    newest := if entries == [] then "" else entries[0];
  }

  function LowerAscii(s: string): string {
    seq(|s|, i requires 0 <= i < |s| => if 'A' <= s[i] <= 'Z' then s[i] - 'A' + 'a' else s[i])
  }

  predicate IsHttps(s: string) {
    |s| == 5 && forall i :: 0 <= i < 5 ==> s[i] == "https"[i] || s[i] == "HTTPS"[i]
  }

  /** The connection is HTTPS, or a trusted peer says so in the newest entry of the last field, in any case. */
  method RequestIsHttps<Address>(d: Deployment<Address>, scheme: string, peer: string, fields: seq<string>)
    returns (https: bool)
    ensures https <==> scheme == "https" || (IsTrusted(d, peer) && fields != [] && IsHttps(Hops(fields)[0]))
  {
    if scheme == "https" {
      return true;
    }
    if !IsTrusted(d, peer) {
      return false;
    }
    var newest := NewestEntry(fields);
    https := LowerAscii(newest) == "https";
  }

  lemma {:induction false} SomeHop(fields: seq<string>)
    requires fields != []
    ensures Hops(fields) != []
  {
    HopsOfFields(fields[0], fields[1..]);
    assert [fields[0]] + fields[1..] == fields;
    var parts := Split(fields[0], ',');
    assert Stripped(parts) != [] && Reversed(Stripped(parts)) != [];
  }

  /** The newest entry is the text after the last comma of the last field, so no prefix changes it. */
  lemma NewestIsTheLastFieldsLast(fields: seq<string>, older: seq<string>, part: string)
    requires fields != [] && ',' !in part
    requires part == fields[|fields| - 1] || exists before :: fields[|fields| - 1] == before + [','] + part
    ensures Hops(fields) != [] && Hops(fields)[0] == Strip(part)
    ensures Hops(older + fields) != [] && Hops(older + fields)[0] == Hops(fields)[0]
  {
    var last := fields[|fields| - 1];
    HopsOfMoreFields(fields[..|fields| - 1], [last]);
    assert fields[..|fields| - 1] + [last] == fields;
    HopsOfFields(last, []);
    assert [last] + [] == [last];
    HopsOfOnePart(part);
    if part != last {
      var before :| last == before + [','] + part;
      HopsAcross(before, part);
    }
    HopsOfMoreFields(older, fields);
  }
}
