/**
  The accounts of the Dirk manager: loading them from several hosts, and signing
  with what was loaded.
 */
module DirkAccounts {
  import opened Wrappers
  import opened Types
  import opened Threshold
  import opened Dirk

  type Channel = nat

  datatype Account =
    | SimpleAccount(connection: Channel)
    | DistributedAccount(participants: map<nat, Channel>, threshold: nat)

  datatype Endpoint = Endpoint(name: string, id: nat)

  /** A distributed account as a host lists it; the key is None when it does not parse. */
  datatype Listing =
    Listing(proxyNamed: bool, compositeKey: Option<Pubkey>, participants: seq<Endpoint>, signingThreshold: nat)

  /** A simple account as a host lists it. */
  datatype SimpleListing = SimpleListing(proxyNamed: bool, key: Option<Pubkey>)

  /** A host that answered; its name is None when neither configured nor part of its address. */
  datatype Host = Host(name: Option<string>, channel: Channel, simple: seq<SimpleListing>, listings: seq<Listing>)

  /** The identifier under which a host is named among the participants, at its first mention. */
  function FindParticipant(participants: seq<Endpoint>, hostName: string): Option<nat> {
    if participants == [] then None
    else if participants[0].name == hostName then Some(participants[0].id)
    else FindParticipant(participants[1..], hostName)
  }

  /** The account key and identifier a listing contributes, if it is not skipped. */
  function Contribution(hostName: Option<string>, listing: Listing): Option<(Pubkey, nat)> {
    if hostName.None? || listing.proxyNamed || listing.compositeKey.None? then None
    else
      match FindParticipant(listing.participants, hostName.value)
      case None => None
      case Some(id) => if id == 0 then None else Some((listing.compositeKey.value, id))
  }

  /**
    The host's listing says that the host takes part in the account of the key:
    by its first entry with the host's name, under an identifier other than zero.
   */
  ghost predicate Lists(host: Host, listing: Listing, key: Pubkey, id: nat) {
    && host.name.Some? && !listing.proxyNamed && listing.compositeKey == Some(key) && id != 0
    && exists e: nat :: e < |listing.participants| && IsFirstEntry(listing.participants, host.name.value, e)
                && listing.participants[e].id == id
  }

  predicate IsFirstEntry(participants: seq<Endpoint>, name: string, e: nat) {
    && e < |participants| && participants[e].name == name
    && forall d :: 0 <= d < e ==> participants[d].name != name
  }

  lemma {:induction false} FindParticipantIff(participants: seq<Endpoint>, name: string, id: nat)
    ensures FindParticipant(participants, name) == Some(id) <==>
            exists e :: 0 <= e < |participants| && IsFirstEntry(participants, name, e) && participants[e].id == id
  {
    if participants != [] {
      var rest := participants[1..];
      FindParticipantIff(rest, name, id);
      if participants[0].name == name {
        assert IsFirstEntry(participants, name, 0);
      } else {
        forall e | 0 <= e < |rest|
          ensures IsFirstEntry(rest, name, e) <==> IsFirstEntry(participants, name, e + 1)
        {
          FirstEntryLater(participants, name, e);
        }
        if exists e :: 0 <= e < |rest| && IsFirstEntry(rest, name, e) && rest[e].id == id {
          var e :| 0 <= e < |rest| && IsFirstEntry(rest, name, e) && rest[e].id == id;
          assert IsFirstEntry(participants, name, e + 1);
        }
        if exists e :: 0 <= e < |participants| && IsFirstEntry(participants, name, e) && participants[e].id == id {
          var e :| 0 <= e < |participants| && IsFirstEntry(participants, name, e) && participants[e].id == id;
          assert IsFirstEntry(rest, name, e - 1);
        }
      }
    }
  }

  lemma FirstEntryLater(participants: seq<Endpoint>, name: string, e: nat)
    requires participants != [] && participants[0].name != name
    ensures IsFirstEntry(participants[1..], name, e) <==> IsFirstEntry(participants, name, e + 1)
  {
    var rest := participants[1..];
    if IsFirstEntry(rest, name, e) {
      forall d | 0 <= d < e + 1
        ensures participants[d].name != name
      {
        assert d > 0 ==> participants[d] == rest[d - 1];
      }
    }
    if IsFirstEntry(participants, name, e + 1) {
      forall d | 0 <= d < e
        ensures rest[d].name != name
      {
        assert rest[d] == participants[d + 1];
      }
    }
  }

  lemma ContributionIff(host: Host, listing: Listing, key: Pubkey, id: nat)
    ensures Contribution(host.name, listing) == Some((key, id)) <==> Lists(host, listing, key, id)
  {
    if host.name.Some? {
      FindParticipantIff(listing.participants, host.name.value, id);
    }
  }

  type Accounts = map<Pubkey, Account>

  /** The identifiers a host's listings name for an account. */
  function ContributedIds(host: Host, listings: seq<Listing>, key: Pubkey): set<nat> {
    if listings == [] then {}
    else
      ContributedIds(host, listings[..|listings| - 1], key) +
      match Contribution(host.name, listings[|listings| - 1])
      case Some((k, id)) => if k == key then {id % U32} else {}
      case None => {}
  }

  predicate IsSimple(accounts: Accounts, key: Pubkey) {
    key in accounts && accounts[key].SimpleAccount?
  }

  /** The distributed account of a key. */
  function Distributed(accounts: Accounts, key: Pubkey): Option<Account> {
    if key in accounts && accounts[key].DistributedAccount? then Some(accounts[key]) else None
  }

  function ParticipantsOf(account: Option<Account>): map<nat, Channel> {
    if account.Some? && account.value.DistributedAccount? then account.value.participants else map[]
  }

  function ParticipantIds(accounts: Accounts, key: Pubkey): set<nat> {
    ParticipantsOf(Distributed(accounts, key)).Keys
  }

  /** An account, known or not, once a participant has joined it. */
  function Join(account: Option<Account>, id: nat, channel: Channel, signingThreshold: nat): Account {
    match account
    case Some(DistributedAccount(participants, threshold)) =>
      DistributedAccount(participants[id % U32 := channel], threshold)
    case _ => DistributedAccount(map[id % U32 := channel], signingThreshold)
  }

  /** An account once all listings have been read. */
  function Joined(host: Host, listings: seq<Listing>, key: Pubkey, account: Option<Account>): Option<Account> {
    if listings == [] then account
    else
      var n := |listings| - 1;
      var before := Joined(host, listings[..n], key, account);
      match Contribution(host.name, listings[n])
      case Some((k, id)) =>
        if k == key then Some(Join(before, id, host.channel, listings[n].signingThreshold)) else before
      case None => before
  }

  /** Listing k of the host names the host as a participant of the key's account. */
  ghost predicate TakesPart(host: Host, k: nat, key: Pubkey) {
    k < |host.listings| && exists id: nat :: Lists(host, host.listings[k], key, id)
  }

  lemma TakesPartIff(host: Host, k: nat, key: Pubkey)
    requires k < |host.listings|
    ensures var c := Contribution(host.name, host.listings[k]); TakesPart(host, k, key) <==> c.Some? && c.value.0 == key
  {
    var c := Contribution(host.name, host.listings[k]);
    forall id: nat
      ensures c == Some((key, id)) <==> Lists(host, host.listings[k], key, id)
    {
      ContributionIff(host, host.listings[k], key, id);
    }
    if c.Some? && c.value.0 == key {
      assert Lists(host, host.listings[k], key, c.value.1);
    }
  }

  /** A listing is for a key that is a simple account. */
  ghost predicate HitsSimple(host: Host, k: nat, accounts: Accounts) {
    exists key :: TakesPart(host, k, key) && IsSimple(accounts, key)
  }

  lemma HitsSimpleIff(host: Host, k: nat, accounts: Accounts)
    requires k < |host.listings|
    ensures var c := Contribution(host.name, host.listings[k]);
            HitsSimple(host, k, accounts) <==> c.Some? && IsSimple(accounts, c.value.0)
  {
    var c := Contribution(host.name, host.listings[k]);
    forall key
      ensures TakesPart(host, k, key) <==> c.Some? && c.value.0 == key
    {
      TakesPartIff(host, k, key);
    }
    if c.Some? && IsSimple(accounts, c.value.0) {
      assert TakesPart(host, k, c.value.0);
    }
  }

  /**
    What the first listings of a host do to an account: it gains exactly the
    identifiers they name, truncated, reached over the host's channel; it keeps
    its threshold, or is created with that of the first listing that names it.
   */
  ghost predicate Gains(host: Host, stop: nat, key: Pubkey, before: Option<Account>, after: Option<Account>)
    requires stop <= |host.listings|
  {
    && (forall i :: i in ParticipantsOf(after) <==> i in ParticipantsOf(before) || NamesWithin(host, stop, key, i))
    && (forall i :: i in ParticipantsOf(after) ==>
          ParticipantsOf(after)[i] ==
          if NamesWithin(host, stop, key, i) then host.channel else ParticipantsOf(before)[i])
    && (before.Some? ==> ThresholdOf(after) == ThresholdOf(before))
    && (before.None? ==>
          forall k :: 0 <= k < stop && FirstPart(host, k, key) ==>
                        ThresholdOf(after) == Some(host.listings[k].signingThreshold))
  }

  /** Listing k is the first one in which the host takes part in the key's account. */
  ghost predicate FirstPart(host: Host, k: nat, key: Pubkey) {
    TakesPart(host, k, key) && forall j :: 0 <= j < k ==> !TakesPart(host, j, key)
  }

  /** One of the first listings of the host names an identifier for the key that truncates to i. */
  ghost predicate NamesWithin(host: Host, stop: nat, key: Pubkey, i: nat)
    requires stop <= |host.listings|
  {
    exists k: nat, id: nat :: k < stop && Lists(host, host.listings[k], key, id) && id % U32 == i
  }

  lemma GainsFromJoined(host: Host, stop: nat, key: Pubkey, before: Option<Account>)
    requires stop <= |host.listings| && (before.None? || before.value.DistributedAccount?)
    ensures Gains(host, stop, key, before, Joined(host, host.listings[..stop], key, before))
  {
    var listings := host.listings[..stop];
    var after := Joined(host, listings, key, before);
    JoinedSpec(host, listings, key, before);
    forall i: nat
      ensures i in ContributedIds(host, listings, key) <==> NamesWithin(host, stop, key, i)
    {
      ContributedIff(host, listings, key, i);
    }
    forall k | 0 <= k < stop && FirstPart(host, k, key)
      ensures FirstThreshold(host, listings, key) == Some(host.listings[k].signingThreshold)
    {
      if FirstThreshold(host, listings, key).None? {
        NoThresholdNoPart(host, listings, key, k);
        TakesPartIff(host, k, key);
      }
      var first := FirstThresholdFrom(host, listings, key);
      TakesPartIff(host, first, key);
      TakesPartIff(host, k, key);
    }
  }

  lemma {:induction false} ContributedIff(host: Host, listings: seq<Listing>, key: Pubkey, i: nat)
    ensures i in ContributedIds(host, listings, key) <==>
            exists k: nat, id: nat :: 0 <= k < |listings| && Lists(host, listings[k], key, id) && id % U32 == i
  {
    if listings != [] {
      var n := |listings| - 1;
      ContributedIff(host, listings[..n], key, i);
      assert forall k: nat :: k < n ==> listings[..n][k] == listings[k];
      var last := Contribution(host.name, listings[n]);
      forall id: nat
        ensures last == Some((key, id)) <==> Lists(host, listings[n], key, id)
      {
        ContributionIff(host, listings[n], key, id);
      }
      if last.Some? && last.value.0 == key && last.value.1 % U32 == i {
        assert Lists(host, listings[n], key, last.value.1);
      }
    }
  }


  /** One listing: a participant joins its account, which is created if it is not known. */
  method AddParticipant(accounts: Accounts, key: Pubkey, id: nat, channel: Channel, signingThreshold: nat)
    returns (accounts': Accounts, ok: bool)
    ensures ok <==> !IsSimple(accounts, key)
    ensures forall other :: IsSimple(accounts', other) <==> IsSimple(accounts, other)
    ensures forall other :: Distributed(accounts', other) ==
                            if ok && other == key
                            then Some(Join(Distributed(accounts, key), id, channel, signingThreshold))
                            else Distributed(accounts, other)
  {
    if key !in accounts {
      return accounts[key := DistributedAccount(map[id % U32 := channel], signingThreshold)], true;
    }
    match accounts[key] {
      case SimpleAccount(_) => return accounts, false;
      case DistributedAccount(participants, threshold) =>
        return accounts[key := DistributedAccount(participants[id % U32 := channel], threshold)], true;
    }
  }

  /**
    `load_distributed_accounts`: every listing before the first one for a key
    that is a simple account is read, and no other; a host without a name lists
    nothing.
   */
  method LoadDistributedAccounts(host: Host, accounts: Accounts)
    returns (accounts': Accounts, ok: bool, ghost stop: nat)
    ensures stop <= |host.listings| && forall k :: 0 <= k < stop ==> !HitsSimple(host, k, accounts)
    ensures stop < |host.listings| ==> HitsSimple(host, stop, accounts)
    ensures ok <==> host.name.Some? && stop == |host.listings|
    ensures forall key :: IsSimple(accounts', key) <==> IsSimple(accounts, key)
    ensures forall key :: Distributed(accounts', key) ==
                          Joined(host, host.listings[..stop], key, Distributed(accounts, key))
    ensures forall key :: Gains(host, stop, key, Distributed(accounts, key), Distributed(accounts', key))
  {
    forall k: nat | k <= |host.listings|
      ensures forall key :: Gains(host, k, key, Distributed(accounts, key),
                                  Joined(host, host.listings[..k], key, Distributed(accounts, key)))
    {
      forall key
        ensures Gains(host, k, key, Distributed(accounts, key),
                      Joined(host, host.listings[..k], key, Distributed(accounts, key)))
      {
        GainsFromJoined(host, k, key, Distributed(accounts, key));
      }
    }
    accounts', ok, stop := accounts, true, |host.listings|;
    if host.name.None? {
      NamelessHost(host, host.listings, accounts);
      assert host.listings[..stop] == host.listings;
      assert forall k :: 0 <= k < stop ==> !HitsSimple(host, k, accounts);
      return accounts, false, stop;
    }
    for k := 0 to |host.listings|
      invariant ok && stop == |host.listings|
      invariant forall j :: 0 <= j < k ==> !HitsSimple(host, j, accounts)
      invariant forall key :: IsSimple(accounts', key) <==> IsSimple(accounts, key)
      invariant forall key :: Distributed(accounts', key) ==
                              Joined(host, host.listings[..k], key, Distributed(accounts, key))
    {
      assert host.listings[..k + 1][..k] == host.listings[..k];
      HitsSimpleIff(host, k, accounts);
      var contribution := Contribution(host.name, host.listings[k]);
      if contribution.Some? {
        var (key, id) := contribution.value;
        accounts', ok := AddParticipant(accounts', key, id, host.channel, host.listings[k].signingThreshold);
        if !ok {
          return accounts', false, k;
        }
      }
    }
  }

  lemma {:induction false} NamelessHost(host: Host, listings: seq<Listing>, accounts: Accounts)
    requires host.name.None?
    ensures forall key :: Joined(host, listings, key, Distributed(accounts, key)) == Distributed(accounts, key)
  {
    if listings != [] {
      NamelessHost(host, listings[..|listings| - 1], accounts);
    }
  }

  /** The threshold that the first contributing listing gives to an account. */
  function FirstThreshold(host: Host, listings: seq<Listing>, key: Pubkey): Option<nat> {
    if listings == [] then None
    else
      var n := |listings| - 1;
      var before := FirstThreshold(host, listings[..n], key);
      match Contribution(host.name, listings[n])
      case Some((k, id)) => if k == key && before.None? then Some(listings[n].signingThreshold) else before
      case None => before
  }

  function ThresholdOf(account: Option<Account>): Option<nat> {
    if account.Some? && account.value.DistributedAccount? then Some(account.value.threshold) else None
  }

  /**
    What the listings of one host do to an account: it gains exactly the listed
    identifiers, reached over this host's channel, and keeps its threshold or
    gets the one listed first.
   */
  lemma {:induction false} JoinedSpec(host: Host, listings: seq<Listing>, key: Pubkey, account: Option<Account>)
    requires account.None? || account.value.DistributedAccount?
    ensures var after, ids := Joined(host, listings, key, account), ContributedIds(host, listings, key);
            && (after.None? || after.value.DistributedAccount?)
            && (forall i :: i in ParticipantsOf(after) <==> i in ParticipantsOf(account) || i in ids)
            && (forall i :: i in ParticipantsOf(after) ==>
                  ParticipantsOf(after)[i] == if i in ids then host.channel else ParticipantsOf(account)[i])
            && ThresholdOf(after) == if account.Some? then ThresholdOf(account) else FirstThreshold(host, listings, key)
  {
    if listings != [] {
      JoinedSpec(host, listings[..|listings| - 1], key, account);
    }
  }

  lemma {:induction false} ContributedIdsPrefix(host: Host, listings: seq<Listing>, k: nat, key: Pubkey)
    requires k <= |listings|
    ensures ContributedIds(host, listings[..k], key) <= ContributedIds(host, listings, key)
  {
    if k < |listings| {
      var n := |listings| - 1;
      ContributedIdsPrefix(host, listings[..n], k, key);
      assert listings[..n][..k] == listings[..k];
    } else {
      assert listings[..k] == listings;
    }
  }

  /** The keys of a host's simple accounts. */
  function SimpleKeys(simple: seq<SimpleListing>): set<Pubkey> {
    if simple == [] then {}
    else
      var last := simple[|simple| - 1];
      SimpleKeys(simple[..|simple| - 1]) + if last.proxyNamed || last.key.None? then {} else {last.key.value}
  }

  /** The host lists the key as a simple account. */
  ghost predicate HasSimple(host: Host, key: Pubkey) {
    exists k: nat :: k < |host.simple| && !host.simple[k].proxyNamed && host.simple[k].key == Some(key)
  }

  lemma {:induction false} SimpleKeysIff(simple: seq<SimpleListing>, key: Pubkey)
    ensures key in SimpleKeys(simple) <==>
            exists k: nat :: k < |simple| && !simple[k].proxyNamed && simple[k].key == Some(key)
  {
    if simple != [] {
      var n := |simple| - 1;
      SimpleKeysIff(simple[..n], key);
      assert forall k: nat :: k < n ==> simple[..n][k] == simple[k];
    }
  }

  /** `load_simple_accounts`: a simple account takes the place of whatever had its key. */
  method LoadSimpleAccounts(host: Host, accounts: Accounts) returns (accounts': Accounts)
    ensures accounts'.Keys == accounts.Keys + SimpleKeys(host.simple)
    ensures forall key :: key in SimpleKeys(host.simple) ==> accounts'[key] == SimpleAccount(host.channel)
    ensures forall key :: key in accounts && key !in SimpleKeys(host.simple) ==> accounts'[key] == accounts[key]
    ensures forall key :: key in accounts' <==> key in accounts || HasSimple(host, key)
    ensures forall key :: key in accounts' ==>
              accounts'[key] == if HasSimple(host, key) then SimpleAccount(host.channel) else accounts[key]
  {
    accounts' := accounts;
    for k := 0 to |host.simple|
      invariant accounts'.Keys == accounts.Keys + SimpleKeys(host.simple[..k])
      invariant forall key :: key in SimpleKeys(host.simple[..k]) ==> accounts'[key] == SimpleAccount(host.channel)
      invariant forall key :: key in accounts && key !in SimpleKeys(host.simple[..k]) ==>
                  accounts'[key] == accounts[key]
    {
      assert host.simple[..k + 1][..k] == host.simple[..k];
      var listing := host.simple[k];
      if !listing.proxyNamed && listing.key.Some? {
        accounts' := accounts'[listing.key.value := SimpleAccount(host.channel)];
      }
    }
    assert host.simple[..|host.simple|] == host.simple;
    forall key
      ensures key in SimpleKeys(host.simple) <==> HasSimple(host, key)
    {
      SimpleKeysIff(host.simple, key);
    }
  }

  /** All identifiers that the hosts name for an account. */
  function AllContributedIds(hosts: seq<Host>, key: Pubkey): set<nat> {
    if hosts == [] then {}
    else
      var last := hosts[|hosts| - 1];
      AllContributedIds(hosts[..|hosts| - 1], key) + ContributedIds(last, last.listings, key)
  }

  /** The keys that some host lists as a simple account. */
  function AllSimpleKeys(hosts: seq<Host>): set<Pubkey> {
    if hosts == [] then {}
    else AllSimpleKeys(hosts[..|hosts| - 1]) + SimpleKeys(hosts[|hosts| - 1].simple)
  }

  /** No key is both a simple and a distributed account. */
  ghost predicate NoMixedKeys(hosts: seq<Host>) {
    forall key :: key in AllSimpleKeys(hosts) ==> AllContributedIds(hosts, key) == {}
  }

  /** The threshold that an account is first listed with. */
  function AllFirstThreshold(hosts: seq<Host>, key: Pubkey): Option<nat> {
    if hosts == [] then None
    else
      var last, before := hosts[|hosts| - 1], AllFirstThreshold(hosts[..|hosts| - 1], key);
      if before.Some? then before else FirstThreshold(last, last.listings, key)
  }

  /** The host that a participant is reached at: the last one to list its identifier. */
  function LastChannel(hosts: seq<Host>, key: Pubkey, id: nat): Option<Channel> {
    if hosts == [] then None
    else
      var last := hosts[|hosts| - 1];
      if id in ContributedIds(last, last.listings, key) then Some(last.channel)
      else LastChannel(hosts[..|hosts| - 1], key, id)
  }

  /** The listings before the first one for a simple account, which is where reading them stops. */
  function Cut(host: Host, listings: seq<Listing>, simple: set<Pubkey>): (cut: seq<Listing>)
    ensures cut <= listings
  {
    if listings == [] then []
    else
      var n := |listings| - 1;
      var before := Cut(host, listings[..n], simple);
      var contribution := Contribution(host.name, listings[n]);
      if |before| < n || (contribution.Some? && contribution.value.0 in simple) then before else listings
  }

  /** The hosts with the listings that are read: up to a key that is a simple account of this or an earlier host. */
  function Readable(hosts: seq<Host>): (readable: seq<Host>)
    ensures |readable| == |hosts|
  {
    if hosts == [] then []
    else
      var last := hosts[|hosts| - 1];
      Readable(hosts[..|hosts| - 1]) + [last.(listings := Cut(last, last.listings, AllSimpleKeys(hosts)))]
  }

  lemma {:induction false} CutIs(host: Host, listings: seq<Listing>, simple: set<Pubkey>, stop: nat)
    requires stop <= |listings|
    requires forall k :: 0 <= k < stop && Contribution(host.name, listings[k]).Some? ==>
               Contribution(host.name, listings[k]).value.0 !in simple
    requires stop < |listings| ==>
               && Contribution(host.name, listings[stop]).Some?
               && Contribution(host.name, listings[stop]).value.0 in simple
    ensures Cut(host, listings, simple) == listings[..stop]
  {
    if listings != [] {
      var n := |listings| - 1;
      if stop < |listings| {
        if stop < n {
          CutIs(host, listings[..n], simple, stop);
          assert listings[..n][..stop] == listings[..stop];
        } else {
          CutIs(host, listings[..n], simple, n);
          assert listings[..n][..n] == listings[..n];
        }
      } else {
        CutIs(host, listings[..n], simple, n);
        assert listings[..n][..n] == listings[..n] && listings[..stop] == listings;
      }
    }
  }

  /** The channel, name and listings are all that the contributions of a host depend on. */
  lemma {:induction false} SameContributions(host: Host, host': Host, listings: seq<Listing>, key: Pubkey,
                                             account: Option<Account>)
    requires host.name == host'.name && host.channel == host'.channel
    ensures ContributedIds(host, listings, key) == ContributedIds(host', listings, key)
    ensures FirstThreshold(host, listings, key) == FirstThreshold(host', listings, key)
    ensures Joined(host, listings, key, account) == Joined(host', listings, key, account)
  {
    if listings != [] {
      SameContributions(host, host', listings[..|listings| - 1], key, account);
    }
  }

  lemma {:induction false} ReadableContributes(hosts: seq<Host>, key: Pubkey)
    ensures AllContributedIds(Readable(hosts), key) <= AllContributedIds(hosts, key)
  {
    if hosts != [] {
      var n := |hosts| - 1;
      var last, cut := hosts[n], Readable(hosts)[n];
      ReadableContributes(hosts[..n], key);
      assert Readable(hosts)[..n] == Readable(hosts[..n]);
      SameContributions(last, cut, cut.listings, key, None);
      assert cut.listings <= last.listings;
      assert last.listings[..|cut.listings|] == cut.listings;
      ContributedIdsPrefix(last, last.listings, |cut.listings|, key);
    }
  }

  /** Without mixed keys everything is read. */
  lemma {:induction false} NoMixedReadsAll(hosts: seq<Host>)
    requires NoMixedKeys(hosts)
    ensures Readable(hosts) == hosts
  {
    if hosts != [] {
      var n := |hosts| - 1;
      var last := hosts[n];
      assert NoMixedKeys(hosts[..n]) by {
        forall key | key in AllSimpleKeys(hosts[..n])
          ensures AllContributedIds(hosts[..n], key) == {}
        {
          assert key in AllSimpleKeys(hosts);
          assert AllContributedIds(hosts[..n], key) <= AllContributedIds(hosts, key);
        }
      }
      NoMixedReadsAll(hosts[..n]);
      forall k | 0 <= k < |last.listings| && Contribution(last.name, last.listings[k]).Some?
        ensures Contribution(last.name, last.listings[k]).value.0 !in AllSimpleKeys(hosts)
      {
        ContributedAt(last, last.listings, k);
      }
      CutIs(last, last.listings, AllSimpleKeys(hosts), |last.listings|);
      assert last.listings[..|last.listings|] == last.listings;
    }
  }

  /** The account is exactly what the hosts list: participants, channels and threshold. */
  ghost predicate AsListed(hosts: seq<Host>, key: Pubkey, account: Option<Account>) {
    && (forall i :: i in ParticipantsOf(account) <==> i in AllContributedIds(hosts, key))
    && (forall i :: i in ParticipantsOf(account) ==> LastChannel(hosts, key, i) == Some(ParticipantsOf(account)[i]))
    && ThresholdOf(account) == AllFirstThreshold(hosts, key)
    && (account.Some? <==> AllContributedIds(hosts, key) != {})
  }

  /** What the accounts hold once the hosts have been visited. */
  ghost predicate Visited(hosts: seq<Host>, accounts: Accounts) {
    && (forall key :: IsSimple(accounts, key) <==> key in AllSimpleKeys(hosts))
    && (forall key :: key !in AllSimpleKeys(hosts) ==> AsListed(Readable(hosts), key, Distributed(accounts, key)))
  }

  lemma {:induction false} ContributedAt(host: Host, listings: seq<Listing>, k: nat)
    requires k < |listings| && Contribution(host.name, listings[k]).Some?
    ensures ContributedIds(host, listings, Contribution(host.name, listings[k]).value.0) != {}
  {
    var n := |listings| - 1;
    if k < n {
      ContributedAt(host, listings[..n], k);
    } else {
      assert Contribution(host.name, listings[n]).value.1 % U32 in
        ContributedIds(host, listings, Contribution(host.name, listings[n]).value.0);
    }
  }

  lemma {:induction false} FirstThresholdIff(host: Host, listings: seq<Listing>, key: Pubkey)
    ensures FirstThreshold(host, listings, key).Some? <==> ContributedIds(host, listings, key) != {}
  {
    if listings != [] {
      var n := |listings| - 1;
      FirstThresholdIff(host, listings[..n], key);
      match Contribution(host.name, listings[n])
      case Some((k, id)) =>
        if k == key {
          assert id % U32 in ContributedIds(host, listings, key);
        }
      case None =>
    }
  }

  /** The state between a host's simple and its distributed accounts. */
  ghost predicate SimpleLoaded(hosts: seq<Host>, accounts: Accounts, simple: Accounts) {
    && (forall key :: IsSimple(simple, key) <==> key in AllSimpleKeys(hosts))
    && (forall key :: key !in AllSimpleKeys(hosts) ==> Distributed(simple, key) == Distributed(accounts, key))
  }

  lemma SimpleFirst(hosts: seq<Host>, accounts: Accounts, simple: Accounts)
    requires hosts != [] && Visited(hosts[..|hosts| - 1], accounts)
    requires var keys := SimpleKeys(hosts[|hosts| - 1].simple);
             && simple.Keys == accounts.Keys + keys
             && (forall key :: key in keys ==> simple[key].SimpleAccount?)
             && (forall key :: key in accounts && key !in keys ==> simple[key] == accounts[key])
    ensures SimpleLoaded(hosts, accounts, simple)
  {
    forall key
      ensures IsSimple(simple, key) <==> key in AllSimpleKeys(hosts)
    {
      assert IsSimple(accounts, key) <==> key in AllSimpleKeys(hosts[..|hosts| - 1]);
    }
  }

  lemma AsListedStep(hosts: seq<Host>, host: Host, key: Pubkey, account: Option<Account>)
    requires hosts != [] && (account.None? || account.value.DistributedAccount?)
    requires var last := hosts[|hosts| - 1]; host.name == last.name && host.channel == last.channel
    requires AsListed(hosts[..|hosts| - 1], key, account)
    ensures AsListed(hosts, key, Joined(host, hosts[|hosts| - 1].listings, key, account))
  {
    var last := hosts[|hosts| - 1];
    SameContributions(host, last, last.listings, key, account);
    JoinedSpec(last, last.listings, key, account);
    FirstThresholdIff(last, last.listings, key);
  }

  /** One host: its simple accounts, then its distributed ones. */
  method LoadHost(ghost hosts: seq<Host>, host: Host, accounts: Accounts) returns (accounts': Accounts)
    requires hosts != [] && hosts[|hosts| - 1] == host && Visited(hosts[..|hosts| - 1], accounts)
    ensures Visited(hosts, accounts')
  {
    var simple := LoadSimpleAccounts(host, accounts);
    SimpleFirst(hosts, accounts, simple);
    var ok;
    ghost var stop;
    accounts', ok, stop := LoadDistributedAccounts(host, simple);
    ghost var n := |hosts| - 1;
    assert Cut(host, host.listings, AllSimpleKeys(hosts)) == host.listings[..stop] by {
      forall k | 0 <= k < |host.listings|
        ensures HitsSimple(host, k, simple) <==>
                && Contribution(host.name, host.listings[k]).Some?
                && Contribution(host.name, host.listings[k]).value.0 in AllSimpleKeys(hosts)
      {
        HitsSimpleIff(host, k, simple);
      }
      CutIs(host, host.listings, AllSimpleKeys(hosts), stop);
    }
    assert Readable(hosts)[..n] == Readable(hosts[..n]);
    forall key | key !in AllSimpleKeys(hosts)
      ensures AsListed(Readable(hosts), key, Distributed(accounts', key))
    {
      assert key !in AllSimpleKeys(hosts[..n]);
      AsListedStep(Readable(hosts), host, key, Distributed(simple, key));
    }
  }

  // ----- what is loaded, entry by entry

  /** Some listing of the host names an identifier for the key that truncates to i. */
  ghost predicate Names(host: Host, key: Pubkey, i: nat) {
    exists k: nat, id: nat :: 0 <= k < |host.listings| && Lists(host, host.listings[k], key, id) && id % U32 == i
  }

  /** Some host lists the key as a simple account. */
  ghost predicate ListedSimple(hosts: seq<Host>, key: Pubkey) {
    exists m: nat :: m < |hosts| && HasSimple(hosts[m], key)
  }

  /** Host m is the last one to name the identifier. */
  ghost predicate LastToName(hosts: seq<Host>, key: Pubkey, i: nat, m: nat) {
    && m < |hosts| && Names(hosts[m], key, i)
    && forall later: nat :: m < later < |hosts| ==> !Names(hosts[later], key, i)
  }

  /** Listing k of host m is the first one in which a host takes part in the key's account. */
  ghost predicate FirstToList(hosts: seq<Host>, key: Pubkey, m: nat, k: nat) {
    && m < |hosts| && FirstPart(hosts[m], k, key)
    && (forall l: nat, j: nat :: 0 <= l < m && 0 <= j < |hosts[l].listings| ==> !TakesPart(hosts[l], j, key))
  }

  /**
    The account of a key, as the hosts list it: its participants are exactly the
    identifiers named for it, truncated, each reached at the last host to name
    it; its threshold is that of the first listing.
   */
  ghost predicate IsListed(hosts: seq<Host>, key: Pubkey, account: Option<Account>) {
    match account
    case None => forall m: nat, k: nat :: m < |hosts| && 0 <= k < |hosts[m].listings| ==> !TakesPart(hosts[m], k, key)
    case Some(SimpleAccount(_)) => false
    case Some(DistributedAccount(participants, threshold)) =>
      && (forall i: nat :: i in participants <==> exists m: nat :: m < |hosts| && Names(hosts[m], key, i))
      && (forall i: nat :: i in participants ==>
            exists m: nat :: LastToName(hosts, key, i, m) && participants[i] == hosts[m].channel)
      && exists m: nat, k: nat :: FirstToList(hosts, key, m, k) && threshold == hosts[m].listings[k].signingThreshold
  }

  lemma NamesIff(host: Host, key: Pubkey, i: nat)
    ensures Names(host, key, i) <==> i in ContributedIds(host, host.listings, key)
  {
    ContributedIff(host, host.listings, key, i);
  }

  lemma {:induction false} AllNamedIff(hosts: seq<Host>, key: Pubkey, i: nat)
    ensures i in AllContributedIds(hosts, key) <==> exists m: nat :: m < |hosts| && Names(hosts[m], key, i)
  {
    if hosts != [] {
      var n := |hosts| - 1;
      AllNamedIff(hosts[..n], key, i);
      NamesIff(hosts[n], key, i);
      assert forall m: nat :: 0 <= m < n ==> hosts[..n][m] == hosts[m];
    }
  }

  lemma {:induction false} LastChannelIs(hosts: seq<Host>, key: Pubkey, i: nat)
    requires LastChannel(hosts, key, i).Some?
    ensures exists m: nat :: LastToName(hosts, key, i, m) && LastChannel(hosts, key, i) == Some(hosts[m].channel)
  {
    if hosts != [] {
      var n := |hosts| - 1;
      NamesIff(hosts[n], key, i);
      if Names(hosts[n], key, i) {
        assert LastToName(hosts, key, i, n);
      } else {
        LastChannelIs(hosts[..n], key, i);
        var m: nat :|
          LastToName(hosts[..n], key, i, m) && LastChannel(hosts[..n], key, i) == Some(hosts[..n][m].channel);
        assert forall later: nat :: m < later < n ==> hosts[..n][later] == hosts[later];
        assert LastToName(hosts, key, i, m);
      }
    }
  }

  /** The position of the listing that the first threshold comes from. */
  lemma {:induction false} FirstThresholdFrom(host: Host, listings: seq<Listing>, key: Pubkey) returns (k: nat)
    requires FirstThreshold(host, listings, key).Some?
    ensures k < |listings| && FirstThreshold(host, listings, key) == Some(listings[k].signingThreshold)
    ensures Contribution(host.name, listings[k]).Some? && Contribution(host.name, listings[k]).value.0 == key
    ensures forall j: nat :: 0 <= j < k ==>
              !(Contribution(host.name, listings[j]).Some? && Contribution(host.name, listings[j]).value.0 == key)
  {
    var n := |listings| - 1;
    if FirstThreshold(host, listings[..n], key).Some? {
      k := FirstThresholdFrom(host, listings[..n], key);
    } else {
      k := n;
      forall j: nat | 0 <= j < n
        ensures !(Contribution(host.name, listings[j]).Some? && Contribution(host.name, listings[j]).value.0 == key)
      {
        NoThresholdNoPart(host, listings[..n], key, j);
      }
    }
  }

  lemma {:induction false} NoThresholdNoPart(host: Host, listings: seq<Listing>, key: Pubkey, j: nat)
    requires FirstThreshold(host, listings, key).None? && j < |listings|
    ensures !(Contribution(host.name, listings[j]).Some? && Contribution(host.name, listings[j]).value.0 == key)
  {
    var n := |listings| - 1;
    if j < n {
      NoThresholdNoPart(host, listings[..n], key, j);
    }
  }

  lemma HostTakesNoPart(host: Host, key: Pubkey)
    requires FirstThreshold(host, host.listings, key).None?
    ensures forall k: nat :: k < |host.listings| ==> !TakesPart(host, k, key)
  {
    forall k: nat | 0 <= k < |host.listings|
      ensures !TakesPart(host, k, key)
    {
      NoThresholdNoPart(host, host.listings, key, k);
      TakesPartIff(host, k, key);
    }
  }

  lemma {:induction false} NoneTakesPart(hosts: seq<Host>, key: Pubkey)
    requires AllFirstThreshold(hosts, key).None?
    ensures forall m: nat, k: nat :: m < |hosts| && 0 <= k < |hosts[m].listings| ==> !TakesPart(hosts[m], k, key)
  {
    if hosts != [] {
      var n := |hosts| - 1;
      NoneTakesPart(hosts[..n], key);
      HostTakesNoPart(hosts[n], key);
      assert forall m: nat :: 0 <= m < n ==> hosts[..n][m] == hosts[m];
    }
  }

  lemma FirstOfHost(hosts: seq<Host>, key: Pubkey) returns (k: nat)
    requires hosts != [] && AllFirstThreshold(hosts[..|hosts| - 1], key).None?
    requires AllFirstThreshold(hosts, key).Some?
    ensures FirstToList(hosts, key, |hosts| - 1, k)
    ensures AllFirstThreshold(hosts, key) == Some(hosts[|hosts| - 1].listings[k].signingThreshold)
  {
    var n := |hosts| - 1;
    var last := hosts[n];
    k := FirstThresholdFrom(last, last.listings, key);
    TakesPartIff(last, k, key);
    forall j: nat | 0 <= j < k
      ensures !TakesPart(last, j, key)
    {
      TakesPartIff(last, j, key);
    }
    NoneTakesPart(hosts[..n], key);
    assert forall m: nat :: 0 <= m < n ==> hosts[..n][m] == hosts[m];
  }

  lemma {:induction false} AllFirstThresholdIs(hosts: seq<Host>, key: Pubkey)
    requires AllFirstThreshold(hosts, key).Some?
    ensures exists m: nat, k: nat :: FirstToList(hosts, key, m, k)
                        && AllFirstThreshold(hosts, key) == Some(hosts[m].listings[k].signingThreshold)
  {
    if hosts != [] {
      var n := |hosts| - 1;
      if AllFirstThreshold(hosts[..n], key).Some? {
        AllFirstThresholdIs(hosts[..n], key);
        var m: nat, k: nat :| FirstToList(hosts[..n], key, m, k)
                 && AllFirstThreshold(hosts[..n], key) == Some(hosts[..n][m].listings[k].signingThreshold);
        assert forall l: nat :: 0 <= l < n ==> hosts[..n][l] == hosts[l];
        assert FirstToList(hosts, key, m, k);
      } else {
        var k := FirstOfHost(hosts, key);
      }
    }
  }

  /** Collected listing by listing, an account is as the entries say. */
  lemma AsListedIsListed(hosts: seq<Host>, key: Pubkey, account: Option<Account>)
    requires AsListed(hosts, key, account) && (account.None? || account.value.DistributedAccount?)
    ensures IsListed(hosts, key, account)
  {
    if account.None? {
      NoneTakesPart(hosts, key);
    } else {
      forall i
        ensures i in account.value.participants <==> exists m: nat :: m < |hosts| && Names(hosts[m], key, i)
      {
        AllNamedIff(hosts, key, i);
      }
      forall i: nat | i in account.value.participants
        ensures exists m: nat :: LastToName(hosts, key, i, m) && account.value.participants[i] == hosts[m].channel
      {
        LastChannelIs(hosts, key, i);
      }
      AllFirstThresholdIs(hosts, key);
    }
  }

  lemma {:induction false} AllSimpleKeysIff(hosts: seq<Host>, key: Pubkey)
    ensures key in AllSimpleKeys(hosts) <==> ListedSimple(hosts, key)
  {
    if hosts != [] {
      var n := |hosts| - 1;
      AllSimpleKeysIff(hosts[..n], key);
      SimpleKeysIff(hosts[n].simple, key);
      assert forall m: nat :: 0 <= m < n ==> hosts[..n][m] == hosts[m];
    }
  }

  /** Listing k of host m is for a key that this host or an earlier one lists as a simple account. */
  ghost predicate HitsListedSimple(hosts: seq<Host>, m: nat, k: nat) {
    m < |hosts| && exists key :: TakesPart(hosts[m], k, key) && ListedSimple(hosts[..m + 1], key)
  }

  /** Each host's listings are read up to the first one for a simple account. */
  ghost predicate ReadUpTo(hosts: seq<Host>, stops: seq<nat>) {
    && |stops| == |hosts|
    && forall m: nat :: m < |hosts| ==> ReadHostUpTo(hosts, m, stops[m])
  }

  ghost predicate ReadHostUpTo(hosts: seq<Host>, m: nat, stop: nat)
    requires m < |hosts|
  {
    && stop <= |hosts[m].listings|
    && (forall k: nat :: k < stop ==> !HitsListedSimple(hosts, m, k))
    && (stop < |hosts[m].listings| ==> HitsListedSimple(hosts, m, stop))
  }

  /** The hosts with only the listings that are read. */
  function Read(hosts: seq<Host>, stops: seq<nat>): seq<Host>
    requires |stops| == |hosts| && forall m: nat :: m < |hosts| ==> stops[m] <= |hosts[m].listings|
  {
    seq(|hosts|, m requires 0 <= m < |hosts| => hosts[m].(listings := hosts[m].listings[..stops[m]]))
  }

  lemma HitsIff(hosts: seq<Host>, m: nat, k: nat)
    requires m < |hosts| && k < |hosts[m].listings|
    ensures var c := Contribution(hosts[m].name, hosts[m].listings[k]);
            HitsListedSimple(hosts, m, k) <==> c.Some? && c.value.0 in AllSimpleKeys(hosts[..m + 1])
  {
    var c := Contribution(hosts[m].name, hosts[m].listings[k]);
    forall key
      ensures TakesPart(hosts[m], k, key) <==> c.Some? && c.value.0 == key
      ensures key in AllSimpleKeys(hosts[..m + 1]) <==> ListedSimple(hosts[..m + 1], key)
    {
      TakesPartIff(hosts[m], k, key);
      AllSimpleKeysIff(hosts[..m + 1], key);
    }
    if c.Some? && c.value.0 in AllSimpleKeys(hosts[..m + 1]) {
      assert TakesPart(hosts[m], k, c.value.0);
    }
  }

  lemma {:induction false} CutStops(host: Host, listings: seq<Listing>, simple: set<Pubkey>)
    ensures var stop := |Cut(host, listings, simple)|;
            && (forall k: nat :: k < stop && Contribution(host.name, listings[k]).Some? ==>
                  Contribution(host.name, listings[k]).value.0 !in simple)
            && (stop < |listings| ==>
                  && Contribution(host.name, listings[stop]).Some?
                  && Contribution(host.name, listings[stop]).value.0 in simple)
  {
    if listings != [] {
      CutStops(host, listings[..|listings| - 1], simple);
    }
  }

  lemma CutReads(hosts: seq<Host>, m: nat)
    requires m < |hosts|
    ensures ReadHostUpTo(hosts, m, |Cut(hosts[m], hosts[m].listings, AllSimpleKeys(hosts[..m + 1]))|)
  {
    var host, simple := hosts[m], AllSimpleKeys(hosts[..m + 1]);
    CutStops(host, host.listings, simple);
    forall k: nat | 0 <= k < |host.listings|
      ensures HitsListedSimple(hosts, m, k) <==>
              && Contribution(host.name, host.listings[k]).Some?
              && Contribution(host.name, host.listings[k]).value.0 in simple
    {
      HitsIff(hosts, m, k);
    }
  }

  lemma {:induction false} ReadableAt(hosts: seq<Host>, m: nat)
    requires m < |hosts|
    ensures var host := hosts[m];
            Readable(hosts)[m] == host.(listings := Cut(host, host.listings, AllSimpleKeys(hosts[..m + 1])))
  {
    var n := |hosts| - 1;
    if m < n {
      ReadableAt(hosts[..n], m);
      assert hosts[..n][..m + 1] == hosts[..m + 1];
    } else {
      assert hosts[..m + 1] == hosts;
    }
  }

  /** Where each host's listings stop being read. */
  lemma ReadableStops(hosts: seq<Host>) returns (stops: seq<nat>)
    ensures ReadUpTo(hosts, stops) && Read(hosts, stops) == Readable(hosts)
  {
    stops := seq(|hosts|, m requires 0 <= m < |hosts| =>
      |Cut(hosts[m], hosts[m].listings, AllSimpleKeys(hosts[..m + 1]))|);
    forall m: nat | 0 <= m < |hosts|
      ensures ReadHostUpTo(hosts, m, stops[m])
      ensures Readable(hosts)[m] == hosts[m].(listings := hosts[m].listings[..stops[m]])
    {
      CutReads(hosts, m);
      ReadableAt(hosts, m);
    }
  }

  /** No key is listed both as a simple and as a distributed account. */
  ghost predicate Unmixed(hosts: seq<Host>) {
    forall m: nat, k: nat, key :: 0 <= m < |hosts| && TakesPart(hosts[m], k, key) ==> !ListedSimple(hosts, key)
  }

  lemma UnmixedIsNoMixedKeys(hosts: seq<Host>)
    requires Unmixed(hosts)
    ensures NoMixedKeys(hosts)
  {
    forall key | key in AllSimpleKeys(hosts)
      ensures AllContributedIds(hosts, key) == {}
    {
      AllSimpleKeysIff(hosts, key);
      forall i: nat | i in AllContributedIds(hosts, key)
        ensures false
      {
        AllNamedIff(hosts, key, i);
        var m: nat :| 0 <= m < |hosts| && Names(hosts[m], key, i);
        var k: nat, id: nat :|
          k < |hosts[m].listings| && Lists(hosts[m], hosts[m].listings[k], key, id) && id % U32 == i;
        assert TakesPart(hosts[m], k, key);
      }
    }
  }

  /**
    Connecting to every host. A key that some host lists as a simple account is
    one. Any other key has the account that the entries of the listings say, as
    far as these are read: at each host up to the first one for a key that this
    host or an earlier one lists as a simple account. If no key is listed as
    both, all are read.
   */
  method LoadHosts(hosts: seq<Host>) returns (accounts: Accounts, ghost stops: seq<nat>)
    ensures forall key :: IsSimple(accounts, key) <==> ListedSimple(hosts, key)
    ensures ReadUpTo(hosts, stops)
    ensures forall key :: !ListedSimple(hosts, key) ==> IsListed(Read(hosts, stops), key, Distributed(accounts, key))
    ensures Unmixed(hosts) ==> forall key :: IsListed(hosts, key, Distributed(accounts, key))
  {
    accounts := map[];
    for k := 0 to |hosts|
      invariant Visited(hosts[..k], accounts)
    {
      assert hosts[..k + 1][..k] == hosts[..k];
      accounts := LoadHost(hosts[..k + 1], hosts[k], accounts);
    }
    assert hosts[..|hosts|] == hosts;
    stops := ReadableStops(hosts);
    forall key
      ensures IsSimple(accounts, key) <==> ListedSimple(hosts, key)
      ensures !ListedSimple(hosts, key) ==> IsListed(Readable(hosts), key, Distributed(accounts, key))
      ensures Unmixed(hosts) ==> IsListed(hosts, key, Distributed(accounts, key))
    {
      LoadedIsListed(hosts, accounts, key);
    }
  }

  lemma LoadedIsListed(hosts: seq<Host>, accounts: Accounts, key: Pubkey)
    requires Visited(hosts, accounts)
    ensures IsSimple(accounts, key) <==> ListedSimple(hosts, key)
    ensures !ListedSimple(hosts, key) ==> IsListed(Readable(hosts), key, Distributed(accounts, key))
    ensures Unmixed(hosts) ==> IsListed(hosts, key, Distributed(accounts, key))
  {
    AllSimpleKeysIff(hosts, key);
    if !ListedSimple(hosts, key) {
      AsListedIsListed(Readable(hosts), key, Distributed(accounts, key));
    }
    if Unmixed(hosts) {
      UnmixedIsNoMixedKeys(hosts);
      SimpleIsUnlisted(hosts, key);
      AsListedIsListed(hosts, key, Distributed(accounts, key));
    }
  }

  /** Without mixed keys, a simple key is as listed: not at all. */
  lemma SimpleIsUnlisted(hosts: seq<Host>, key: Pubkey)
    requires NoMixedKeys(hosts)
    ensures Readable(hosts) == hosts
    ensures key in AllSimpleKeys(hosts) ==> AsListed(hosts, key, None)
  {
    NoMixedReadsAll(hosts);
    AllFirstThresholdIff(hosts, key);
  }

  lemma {:induction false} AllFirstThresholdIff(hosts: seq<Host>, key: Pubkey)
    ensures AllFirstThreshold(hosts, key).Some? <==> AllContributedIds(hosts, key) != {}
  {
    if hosts != [] {
      var n := |hosts| - 1;
      AllFirstThresholdIff(hosts[..n], key);
      FirstThresholdIff(hosts[n], hosts[n].listings, key);
    }
  }

  /**
    The zero check is made before the identifier is truncated: an account gets a
    participant zero exactly when some host lists a nonzero multiple of 2^32.
   */
  lemma ZeroParticipantIff(hosts: seq<Host>, key: Pubkey, account: Account)
    requires IsListed(hosts, key, Some(account))
    ensures 0 in account.participants <==>
            exists m: nat, k: nat, id: nat :: m < |hosts| && 0 <= k < |hosts[m].listings|
                            && Lists(hosts[m], hosts[m].listings[k], key, id) && id != 0 && id % U32 == 0
  {
    if 0 in account.participants {
      var m: nat :| 0 <= m < |hosts| && Names(hosts[m], key, 0);
      var k: nat, id: nat :|
          k < |hosts[m].listings| && Lists(hosts[m], hosts[m].listings[k], key, id) && id % U32 == 0;
    }
    if exists m: nat, k: nat, id: nat :: m < |hosts| && 0 <= k < |hosts[m].listings|
                       && Lists(hosts[m], hosts[m].listings[k], key, id) && id != 0 && id % U32 == 0 {
      var m: nat, k: nat, id: nat :| 0 <= m < |hosts| && 0 <= k < |hosts[m].listings|
                   && Lists(hosts[m], hosts[m].listings[k], key, id) && id != 0 && id % U32 == 0;
      assert Names(hosts[m], key, 0);
    }
  }

  // ----- from the listings to a signature

  /** The participant that is filed under i, and signs, has the identifier id. */
  ghost predicate IsFiled(hosts: seq<Host>, key: Pubkey, i: nat, id: nat) {
    && id % U32 == i
    && exists m: nat, k: nat :: m < |hosts| && k < |hosts[m].listings| && Lists(hosts[m], hosts[m].listings[k], key, id)
  }

  /** Every reply is from a participant of the account, and every signed one is the true partial of one filed there. */
  ghost predicate HonestHosts(r: nat, f: seq<int>, msg: int, hosts: seq<Host>, key: Pubkey, replies: seq<(Reply, u32)>)
    requires r > 0
  {
    && (forall k: nat, l: nat :: 0 <= k < l < |replies| ==> replies[k].1 != replies[l].1)
    && forall k: nat :: k < |replies| ==> HonestReply(r, f, msg, hosts, key, replies[k])
  }

  ghost predicate HonestReply(r: nat, f: seq<int>, msg: int, hosts: seq<Host>, key: Pubkey, reply: (Reply, u32))
    requires r > 0
  {
    exists id: nat :: IsFiled(hosts, key, reply.1, id)
              && (reply.0.Signed? ==> reply.0.signature == Point(TrueShare(r, f, msg, id)))
  }

  /** All identifiers listed for the account fit 32 bits. */
  ghost predicate Narrow(hosts: seq<Host>, key: Pubkey) {
    forall m: nat, k: nat, id: nat ::
      m < |hosts| && k < |hosts[m].listings| && Lists(hosts[m], hosts[m].listings[k], key, id) ==> id < U32
  }

  lemma FiledNarrowly(hosts: seq<Host>, key: Pubkey, i: nat, id: nat)
    requires IsFiled(hosts, key, i, id) && Narrow(hosts, key)
    ensures id == i
  {
    assert id < U32;
  }

  lemma NarrowHostsAreHonest(r: nat, f: seq<int>, msg: int, hosts: seq<Host>, key: Pubkey, replies: seq<(Reply, u32)>)
    requires r > 0 && HonestHosts(r, f, msg, hosts, key, replies) && Narrow(hosts, key)
    ensures HonestReplies(r, f, msg, replies)
  {
    forall k: nat | 0 <= k < |replies| && replies[k].0.Signed?
      ensures replies[k].0.signature == Point(TrueShare(r, f, msg, replies[k].1))
    {
      assert HonestReply(r, f, msg, hosts, key, replies[k]);
      var id: nat :| IsFiled(hosts, key, replies[k].1, id) && replies[k].0.signature == Point(TrueShare(r, f, msg, id));
      FiledNarrowly(hosts, key, replies[k].1, id);
    }
  }

  lemma FirstToListIsUnique(hosts: seq<Host>, key: Pubkey, m: nat, k: nat, m': nat, k': nat)
    requires FirstToList(hosts, key, m, k) && FirstToList(hosts, key, m', k')
    ensures m == m' && k == k'
  {
  }

  /**
    Loading the hosts and signing for one of their distributed accounts. With
    unmixed keys, identifiers that fit 32 bits and honest hosts, the result is
    the master signature exactly if as many participants sign as the first
    listing asks for, when that is at least the size of the polynomial.
   */
  method LoadAndSign(r: nat, hosts: seq<Host>, key: Pubkey, replies: seq<(Reply, u32)>, ghost f: seq<int>,
                     ghost msg: int)
    returns (res: Option<Result<nat, DirkError>>)
    requires GroupOrder(r)
    ensures Unmixed(hosts) ==> (res.Some? <==> exists m: nat, k: nat :: m < |hosts| && TakesPart(hosts[m], k, key))
    ensures Unmixed(hosts) && HonestHosts(r, f, msg, hosts, key, replies) && Narrow(hosts, key) && res.Some? ==>
              forall m: nat, k: nat :: FirstToList(hosts, key, m, k) ==>
                var threshold := hosts[m].listings[k].signingThreshold;
                1 <= threshold && |f| <= threshold ==>
                  res.value == if SignedCount(replies) >= threshold then Ok(TrueShare(r, f, msg, 0))
                               else Err(NotEnoughPartials)
  {
    var accounts;
    ghost var stops;
    accounts, stops := LoadHosts(hosts);
    assert Unmixed(hosts) ==> IsListed(hosts, key, Distributed(accounts, key));
    if key !in accounts || accounts[key].SimpleAccount? {
      return None;
    }
    var threshold := accounts[key].threshold;
    var signed := RequestDistributedSignature(r, threshold, replies);
    if Unmixed(hosts) {
      SignedIsMaster(r, hosts, key, accounts[key], replies, f, msg);
    }
    return Some(signed);
  }

  lemma SignedIsMaster(r: nat, hosts: seq<Host>, key: Pubkey, account: Account, replies: seq<(Reply, u32)>, f: seq<int>,
                       msg: int)
    requires GroupOrder(r) && account.DistributedAccount? && IsListed(hosts, key, Some(account))
    ensures HonestHosts(r, f, msg, hosts, key, replies) && Narrow(hosts, key) ==>
              forall m: nat, k: nat :: FirstToList(hosts, key, m, k) ==>
                var threshold := hosts[m].listings[k].signingThreshold;
                && threshold == account.threshold
                && (1 <= threshold && |f| <= threshold ==>
                      Outcome(r, threshold, replies) ==
                      if SignedCount(replies) >= threshold then Ok(TrueShare(r, f, msg, 0)) else Err(NotEnoughPartials))
  {
    if HonestHosts(r, f, msg, hosts, key, replies) && Narrow(hosts, key) {
      var m: nat, k: nat :| FirstToList(hosts, key, m, k) && account.threshold == hosts[m].listings[k].signingThreshold;
      forall m': nat, k': nat | FirstToList(hosts, key, m', k')
        ensures m' == m && k' == k
      {
        FirstToListIsUnique(hosts, key, m, k, m', k');
      }
      NarrowHostsAreHonest(r, f, msg, hosts, key, replies);
      if 1 <= account.threshold && |f| <= account.threshold {
        var participants := set j | 0 <= j < |replies| :: replies[j].1 as nat;
        ProtocolReturnsMasterIff(r, f, msg, participants, account.threshold, replies);
      }
    }
  }
}
