/**
  The local signing manager: creating proxies, with or without a store, and
  listing a module's proxies under the consensus keys that delegated to them.
 */
module LocalManager {
  import opened Wrappers
  import opened Types
  import opened ProxyStore
  import opened Persistence

  datatype ConsensusProxyMap = ConsensusProxyMap(consensus: Pubkey, proxyBls: seq<ProxyId>, proxyEcdsa: seq<ProxyId>)

  function ProxiesIn(entry: ConsensusProxyMap, scheme: Scheme): seq<ProxyId> {
    if scheme.Bls? then entry.proxyBls else entry.proxyEcdsa
  }

  function PushProxy(entry: ConsensusProxyMap, id: ProxyId, scheme: Scheme): ConsensusProxyMap {
    if scheme.Bls? then entry.(proxyBls := entry.proxyBls + [id]) else entry.(proxyEcdsa := entry.proxyEcdsa + [id])
  }

  /** The members of ids that the consensus key delegated to, in order. */
  function DelegatedBy(px: Proxies, ids: seq<ProxyId>, consensus: Pubkey): seq<ProxyId> {
    if ids == [] then []
    else
      var n := |ids| - 1;
      var before := DelegatedBy(px, ids[..n], consensus);
      if ids[n] in px.signers && px.signers[ids[n]].delegation.delegator == consensus then before + [ids[n]] else before
  }

  /** Every key has a signer, and its delegator is a known consensus key. */
  predicate Resolvable(px: Proxies, consensus: set<Pubkey>, ids: seq<ProxyId>) {
    forall k :: 0 <= k < |ids| ==> Resolves(px, consensus, ids[k])
  }

  predicate Resolves(px: Proxies, consensus: set<Pubkey>, id: ProxyId) {
    id in px.signers && px.signers[id].delegation.delegator in consensus
  }

  predicate DistinctConsensus(entries: seq<ConsensusProxyMap>) {
    forall k, l :: 0 <= k < l < |entries| ==> entries[k].consensus != entries[l].consensus
  }

  function ConsensusSet(entries: seq<ConsensusProxyMap>): set<Pubkey> {
    set k | 0 <= k < |entries| :: entries[k].consensus
  }

  /** entries' is entries with the proxies of one scheme appended where they belong. */
  ghost predicate Appended(px: Proxies, entries: seq<ConsensusProxyMap>, ids: seq<ProxyId>, scheme: Scheme,
                           entries': seq<ConsensusProxyMap>) {
    && |entries'| == |entries|
    && forall k :: 0 <= k < |entries| ==>
         && entries'[k].consensus == entries[k].consensus
         && ProxiesIn(entries'[k], scheme) == ProxiesIn(entries[k], scheme) + DelegatedBy(px, ids, entries[k].consensus)
         && (forall other :: other != scheme ==> ProxiesIn(entries'[k], other) == ProxiesIn(entries[k], other))
  }

  method FindEntry(entries: seq<ConsensusProxyMap>, consensus: Pubkey) returns (found: Option<nat>)
    ensures found.None? <==> consensus !in ConsensusSet(entries)
    ensures found.Some? ==> found.value < |entries| && entries[found.value].consensus == consensus
  {
    for k := 0 to |entries|
      invariant forall j :: 0 <= j < k ==> entries[j].consensus != consensus
    {
      if entries[k].consensus == consensus {
        return Some(k);
      }
    }
    return None;
  }

  lemma AppendNone(px: Proxies, entries: seq<ConsensusProxyMap>, ids: seq<ProxyId>, scheme: Scheme)
    ensures Appended(px, entries, ids[..0], scheme, entries)
  {
    assert ids[..0] == [];
  }

  lemma AppendOne(px: Proxies, entries: seq<ConsensusProxyMap>, ids: seq<ProxyId>, n: nat, scheme: Scheme,
                  entries': seq<ConsensusProxyMap>, at: nat)
    requires n < |ids| && Appended(px, entries, ids[..n], scheme, entries') && DistinctConsensus(entries)
    requires at < |entries| && ids[n] in px.signers
    requires px.signers[ids[n]].delegation.delegator == entries[at].consensus
    ensures Appended(px, entries, ids[..n + 1], scheme, entries'[at := PushProxy(entries'[at], ids[n], scheme)])
  {
    assert ids[..n + 1][..n] == ids[..n];
  }

  /** One of the two loops of the listing: file each key under its delegator, or fail. */
  method Distribute(px: Proxies, entries: seq<ConsensusProxyMap>, ids: seq<ProxyId>, scheme: Scheme)
    returns (res: Option<seq<ConsensusProxyMap>>)
    requires DistinctConsensus(entries)
    ensures res.Some? <==> Resolvable(px, ConsensusSet(entries), ids)
    ensures res.Some? ==> Appended(px, entries, ids, scheme, res.value)
  {
    var entries' := entries;
    AppendNone(px, entries, ids, scheme);
    for n := 0 to |ids|
      invariant forall k :: 0 <= k < n ==> Resolves(px, ConsensusSet(entries), ids[k])
      invariant Appended(px, entries, ids[..n], scheme, entries')
    {
      var found := FindDelegator(px, entries, entries', ids[n]);
      if found.None? {
        return None;
      }
      AppendOne(px, entries, ids, n, scheme, entries', found.value);
      entries' := entries'[found.value := PushProxy(entries'[found.value], ids[n], scheme)];
    }
    assert ids[..|ids|] == ids;
    return Some(entries');
  }

  /** Where a key belongs, among entries that have been filled from the given ones. */
  method FindDelegator(px: Proxies, ghost entries: seq<ConsensusProxyMap>, entries': seq<ConsensusProxyMap>,
                       id: ProxyId)
    returns (found: Option<nat>)
    requires |entries'| == |entries| && forall k :: 0 <= k < |entries| ==> entries'[k].consensus == entries[k].consensus
    ensures found.Some? <==> Resolves(px, ConsensusSet(entries), id)
    ensures found.Some? ==>
              found.value < |entries| && px.signers[id].delegation.delegator == entries[found.value].consensus
  {
    SameConsensus(entries, entries');
    if id !in px.signers {
      return None;
    }
    found := FindEntry(entries', px.signers[id].delegation.delegator);
  }

  lemma SameConsensus(a: seq<ConsensusProxyMap>, b: seq<ConsensusProxyMap>)
    requires |a| == |b| && forall k :: 0 <= k < |a| ==> b[k].consensus == a[k].consensus
    ensures ConsensusSet(a) == ConsensusSet(b)
  {
    forall c | c in ConsensusSet(a)
      ensures c in ConsensusSet(b)
    {
      var k :| 0 <= k < |a| && a[k].consensus == c;
      assert b[k].consensus == c;
    }
  }

  /** One empty entry per consensus key, in any order. */
  method EmptyEntries(consensus: set<Pubkey>) returns (entries: seq<ConsensusProxyMap>)
    ensures DistinctConsensus(entries) && ConsensusSet(entries) == consensus
    ensures forall k :: 0 <= k < |entries| ==> entries[k].proxyBls == [] && entries[k].proxyEcdsa == []
  {
    entries := [];
    var remaining := consensus;
    while remaining != {}
      invariant remaining <= consensus && DistinctConsensus(entries)
      invariant ConsensusSet(entries) == consensus - remaining
      invariant forall k :: 0 <= k < |entries| ==> entries[k].proxyBls == [] && entries[k].proxyEcdsa == []
      decreases |remaining|
    {
      var c :| c in remaining;
      remaining := remaining - {c};
      AddEntry(entries, ConsensusProxyMap(c, [], []));
      entries := entries + [ConsensusProxyMap(c, [], [])];
    }
  }

  lemma AddEntry(entries: seq<ConsensusProxyMap>, entry: ConsensusProxyMap)
    requires DistinctConsensus(entries) && entry.consensus !in ConsensusSet(entries)
    ensures DistinctConsensus(entries + [entry])
    ensures ConsensusSet(entries + [entry]) == ConsensusSet(entries) + {entry.consensus}
  {
    assert forall k :: 0 <= k < |entries| ==> entries[k].consensus in ConsensusSet(entries);
    assert (entries + [entry])[..|entries|] == entries;
    ConsensusSnoc(entries + [entry]);
  }

  /** What the listing of a module is: each consensus key once, with exactly its proxies of that module. */
  ghost predicate IsListing(px: Proxies, consensus: set<Pubkey>, moduleId: ModuleId, entries: seq<ConsensusProxyMap>) {
    && DistinctConsensus(entries) && ConsensusSet(entries) == consensus
    && forall k :: 0 <= k < |entries| ==>
         && entries[k].proxyBls == DelegatedBy(px, KeysOf(px, moduleId, Bls), entries[k].consensus)
         && entries[k].proxyEcdsa == DelegatedBy(px, KeysOf(px, moduleId, Ecdsa), entries[k].consensus)
  }

  predicate ListableModule(px: Proxies, consensus: set<Pubkey>, moduleId: ModuleId) {
    Resolvable(px, consensus, KeysOf(px, moduleId, Bls)) && Resolvable(px, consensus, KeysOf(px, moduleId, Ecdsa))
  }

  /** The proxy signer that `create_proxy_*` builds around a new secret. */
  function NewSigner(consensusSecret: nat, scheme: Scheme, delegator: Pubkey, secret: nat): ProxySigner {
    var id := ProxyId(scheme, secret);
    ProxySigner(secret, Delegation(delegator, id, Signature(consensusSecret, delegator, id)))
  }

  /** The consensus keys that delegated to a module's proxies. */
  function DelegatorsOf(px: Proxies, moduleId: ModuleId): set<Pubkey> {
    set id | id in px.signers && (id in KeysOf(px, moduleId, Bls) || id in KeysOf(px, moduleId, Ecdsa)) ::
      px.signers[id].delegation.delegator
  }

  /** The keys of storable proxies all have a signer. */
  lemma KeysHaveSigners(px: Proxies, moduleId: ModuleId, scheme: Scheme)
    requires Storable(px)
    ensures forall id :: id in KeysOf(px, moduleId, scheme) ==> id in px.signers
  {
    var kind, disk :| InStep(kind, Machine(disk, px));
    var paths := IndexPaths(kind, disk);
    forall id | id in KeysOf(px, moduleId, scheme)
      ensures id in px.signers
    {
      assert KeyListFrom(paths, KeysOf(px, moduleId, scheme), moduleId, scheme);
      assert HasPathIn(paths, moduleId, id);
    }
  }

  /** A module can be listed exactly when all its delegators are known. */
  lemma ListableIff(px: Proxies, consensus: set<Pubkey>, moduleId: ModuleId)
    requires Storable(px)
    ensures ListableModule(px, consensus, moduleId) <==> DelegatorsOf(px, moduleId) <= consensus
  {
    var bls, ecdsa := KeysOf(px, moduleId, Bls), KeysOf(px, moduleId, Ecdsa);
    KeysHaveSigners(px, moduleId, Bls);
    KeysHaveSigners(px, moduleId, Ecdsa);
    if DelegatorsOf(px, moduleId) <= consensus {
      assert forall k :: 0 <= k < |bls| ==> bls[k] in bls && Resolves(px, consensus, bls[k]);
      assert forall k :: 0 <= k < |ecdsa| ==> ecdsa[k] in ecdsa && Resolves(px, consensus, ecdsa[k]);
    }
  }

  class LocalSigningManager {
    const store: Option<Kind>
    var consensusSigners: map<Pubkey, nat>
    var px: Proxies
    var disk: Disk

    /** Memory and disk agree, as far as there is a store. */
    ghost predicate Valid()
      reads this
    {
      Sound(store, Machine(disk, px))
    }

    constructor (store: Option<Kind>, px: Proxies, disk: Disk)
      ensures this.store == store && this.px == px && this.disk == disk && consensusSigners == map[]
    {
      this.store := store;
      this.px := px;
      this.disk := disk;
      this.consensusSigners := map[];
    }

    /** Start over the files of a store, if it exists and they all load; without a store, start empty. */
    static method Open(store: Option<Kind>, disk: Disk, rootExists: bool) returns (manager: LocalSigningManager?)
      requires store.Some? && IndexPaths(store.value, disk) != {} ==> rootExists
      ensures manager == null <==> store.Some? && LoadFails(store.value, disk, rootExists)
      ensures manager != null ==>
                fresh(manager) && manager.store == store && manager.disk == disk && manager.consensusSigners == map[]
      ensures store.None? ==> manager.Valid() && manager.px == NO_PROXIES
      ensures store.Some? && Good(store.value, disk) && rootExists ==> manager != null && manager.Valid()
    {
      if store.None? {
        EmptyInStep(FileStore);
        manager := new LocalSigningManager(store, NO_PROXIES, disk);
        return;
      }
      var loaded := LoadProxies(store.value, disk, rootExists);
      if loaded.Err? {
        return null;
      }
      manager := new LocalSigningManager(store, loaded.value, disk);
    }

    /** A consensus key becomes known: a module can be listed once this happened for all its delegators. */
    method AddConsensusSigner(pubkey: Pubkey, secret: nat)
      requires Valid()
      modifies this`consensusSigners
      ensures Valid() && consensusSigners == old(consensusSigners)[pubkey := secret]
      ensures forall m :: ListableModule(px, consensusSigners.Keys, m) <==>
                          DelegatorsOf(px, m) <= old(consensusSigners.Keys) + {pubkey}
    {
      consensusSigners := consensusSigners[pubkey := secret];
      SoundIsStorable(store, Machine(disk, px));
      assert consensusSigners.Keys == old(consensusSigners.Keys) + {pubkey};
      forall m
        ensures ListableModule(px, consensusSigners.Keys, m) <==> DelegatorsOf(px, m) <= consensusSigners.Keys
      {
        ListableIff(px, consensusSigners.Keys, m);
      }
    }

    /**
      Create a proxy from a new secret, with `written` files reaching the disk
      before an I/O error, if any, which may leave the next one torn: memory
      changes only once all files are written. A fresh secret keeps memory and
      disk in agreement, unless the last file is torn, and all listings possible.
      The delegation is to the new key, signed by the delegator's secret.
     */
    method CreateProxy(scheme: Scheme, moduleId: ModuleId, delegator: Pubkey, secret: nat, password: nat, written: nat,
                       torn: bool)
      returns (res: Result<Delegation, string>)
      modifies this`px, this`disk
      ensures delegator !in consensusSigners ==> res.Err? && px == old(px) && disk == old(disk)
      ensures delegator in consensusSigners ==>
                var signer := NewSigner(consensusSigners[delegator], scheme, delegator, secret);
                var all := written >= |WritesTo(store, moduleId, signer, password)|;
                && res.Ok? == all && (all ==> res.value == signer.delegation)
                && (all ==> ProxyId(scheme, secret) in px.signers &&
                            px.signers[ProxyId(scheme, secret)] == ProxySigner(secret, res.value))
                && Machine(disk, px) == After(store, old(Machine(disk, px)),
                                              if all then Create(moduleId, signer, password)
                                              else Interrupted(moduleId, signer, password, written, torn))
                && var tearsLast := torn && written + 1 == |WritesTo(store, moduleId, signer, password)|;
                   old(Valid()) && ProxyId(scheme, secret) !in old(px).signers && !tearsLast ==> Valid()
      ensures res.Ok? ==>
                && delegator in consensusSigners && ValidDelegation(res.value, consensusSigners[delegator])
                && res.value.delegator == delegator && res.value.proxy == ProxyId(scheme, secret)
      ensures old(AllValid(px, consensusSigners)) ==> AllValid(px, consensusSigners)
      ensures old(Listable(px, consensusSigners.Keys)) ==> Listable(px, consensusSigners.Keys)
    {
      if delegator !in consensusSigners {
        return Err("unknown consensus signer");
      }
      var signer := NewSigner(consensusSigners[delegator], scheme, delegator, secret);
      ghost var before := Machine(disk, px);
      if old(Listable(px, consensusSigners.Keys)) {
        ListableOnCreate(px, consensusSigners.Keys, moduleId, signer);
      }
      if store.Some? {
        var stored := StoreProxy(Writes(store.value, moduleId, signer, password), written, torn);
        if !stored {
          CreationKeepsSound(store, before, Interrupted(moduleId, signer, password, written, torn));
          return Err("failed to store proxy");
        }
      }
      px := AddProxy(px, moduleId, scheme, signer);
      CreationKeepsSound(store, before, Create(moduleId, signer, password));
      return Ok(signer.delegation);
    }

    /** Writing files one by one, up to an I/O error. */
    method StoreProxy(writes: seq<(Path, Content)>, written: nat, torn: bool) returns (ok: bool)
      modifies this`disk
      ensures ok <==> written >= |writes|
      ensures disk == Apply(old(disk), if ok then writes else Partly(writes, written, torn))
    {
      assert writes[..|writes|] == writes;
      for k := 0 to |writes|
        invariant disk == Apply(old(disk), writes[..k]) && k <= written
      {
        if k == written {
          if torn {
            assert Partly(writes, k, true)[..k] == writes[..k];
            disk := disk[writes[k].0 := Unreadable];
          } else {
            assert Partly(writes, k, false) == writes[..k];
          }
          return false;
        }
        assert writes[..k + 1][..k] == writes[..k];
        disk := disk[writes[k].0 := writes[k].1];
      }
      return true;
    }

    /**
      The listing fails exactly when one of the module's keys cannot be resolved.
      Otherwise it lists each consensus key once; each proxy of the module is
      mentioned once, under its delegator, and no proxy of another module.
     */
    method GetConsensusProxyMaps(moduleId: ModuleId) returns (res: Option<seq<ConsensusProxyMap>>)
      ensures res.Some? <==> ListableModule(px, consensusSigners.Keys, moduleId)
      ensures res.Some? ==> IsListing(px, consensusSigners.Keys, moduleId, res.value)
      ensures Valid() && res.Some? ==>
                forall scheme, id :: multiset(Mentioned(res.value, scheme))[id] ==
                                     if id in KeysOf(px, moduleId, scheme) then 1 else 0
    {
      var keys := EmptyEntries(consensusSigners.Keys);
      var bls := Distribute(px, keys, KeysOf(px, moduleId, Bls), Bls);
      if bls.None? {
        return None;
      }
      SameConsensus(keys, bls.value);
      var ecdsa := Distribute(px, bls.value, KeysOf(px, moduleId, Ecdsa), Ecdsa);
      if ecdsa.None? {
        return None;
      }
      BothSchemesAppended(px, moduleId, keys, bls.value, ecdsa.value);
      if Valid() {
        SoundIsStorable(store, Machine(disk, px));
        forall scheme, id
          ensures multiset(Mentioned(ecdsa.value, scheme))[id] == if id in KeysOf(px, moduleId, scheme) then 1 else 0
        {
          ListedOnce(px, consensusSigners.Keys, moduleId, ecdsa.value, scheme, id);
        }
      }
      return ecdsa;
    }
  }

  /** A step that a creation takes; only a secret that is not fresh can upset the store. */
  lemma CreationKeepsSound(store: Option<Kind>, st: Machine, step: Step)
    requires (step.Create? || step.Interrupted?) && Coherent(step.signer)
    requires step.Interrupted? ==>
               store.Some? && step.written < |Writes(store.value, step.moduleId, step.signer, step.password)|
    ensures Sound(store, st) && IdOf(step.signer) !in st.px.signers && !TearsLast(store, step) ==>
              Sound(store, After(store, st, step))
  {
    if Sound(store, st) && IdOf(step.signer) !in st.px.signers && !TearsLast(store, step) {
      StepKeepsSound(store, st, step);
    }
  }

  lemma BothSchemesAppended(px: Proxies, moduleId: ModuleId, keys: seq<ConsensusProxyMap>, bls: seq<ConsensusProxyMap>,
                            ecdsa: seq<ConsensusProxyMap>)
    requires DistinctConsensus(keys)
    requires forall k :: 0 <= k < |keys| ==> keys[k].proxyBls == [] && keys[k].proxyEcdsa == []
    requires Appended(px, keys, KeysOf(px, moduleId, Bls), Bls, bls)
    requires Appended(px, bls, KeysOf(px, moduleId, Ecdsa), Ecdsa, ecdsa)
    ensures IsListing(px, ConsensusSet(keys), moduleId, ecdsa)
  {
    SameConsensus(keys, bls);
    SameConsensus(bls, ecdsa);
    forall k | 0 <= k < |keys|
      ensures ecdsa[k].proxyBls == DelegatedBy(px, KeysOf(px, moduleId, Bls), ecdsa[k].consensus)
      ensures ecdsa[k].proxyEcdsa == DelegatedBy(px, KeysOf(px, moduleId, Ecdsa), ecdsa[k].consensus)
    {
      assert ProxiesIn(bls[k], Ecdsa) == ProxiesIn(keys[k], Ecdsa);
      assert ProxiesIn(ecdsa[k], Bls) == ProxiesIn(bls[k], Bls);
    }
  }

  // ----- the listing is a partition

  lemma {:induction false} DelegatedCount(px: Proxies, ids: seq<ProxyId>, consensus: Pubkey, id: ProxyId)
    requires id in px.signers
    ensures multiset(DelegatedBy(px, ids, consensus))[id] ==
            if px.signers[id].delegation.delegator == consensus then multiset(ids)[id] else 0
  {
    if ids != [] {
      var n := |ids| - 1;
      DelegatedCount(px, ids[..n], consensus, id);
      assert ids == ids[..n] + [ids[n]];
      CountSnoc(ids[..n], ids[n], id);
      CountSnoc(DelegatedBy(px, ids[..n], consensus), ids[n], id);
    }
  }

  lemma CountSnoc(a: seq<ProxyId>, x: ProxyId, id: ProxyId)
    ensures multiset(a + [x])[id] == multiset(a)[id] + if x == id then 1 else 0
  {
  }

  /** All keys of a scheme that a listing mentions, entry after entry. */
  function Mentioned(entries: seq<ConsensusProxyMap>, scheme: Scheme): seq<ProxyId> {
    if entries == [] then []
    else Mentioned(entries[..|entries| - 1], scheme) + ProxiesIn(entries[|entries| - 1], scheme)
  }

  lemma {:induction false} MentionedCount(px: Proxies, moduleId: ModuleId, entries: seq<ConsensusProxyMap>,
                                          scheme: Scheme, id: ProxyId)
    requires id in px.signers && DistinctConsensus(entries)
    requires forall k :: 0 <= k < |entries| ==>
               ProxiesIn(entries[k], scheme) == DelegatedBy(px, KeysOf(px, moduleId, scheme), entries[k].consensus)
    ensures multiset(Mentioned(entries, scheme))[id] ==
            if px.signers[id].delegation.delegator in ConsensusSet(entries)
            then multiset(KeysOf(px, moduleId, scheme))[id]
            else 0
  {
    if entries != [] {
      var n := |entries| - 1;
      MentionedCount(px, moduleId, entries[..n], scheme, id);
      DelegatedCount(px, KeysOf(px, moduleId, scheme), entries[n].consensus, id);
      ConsensusSnoc(entries);
    }
  }

  lemma ConsensusSnoc(entries: seq<ConsensusProxyMap>)
    requires entries != [] && DistinctConsensus(entries)
    ensures var n := |entries| - 1;
            ConsensusSet(entries) == ConsensusSet(entries[..n]) + {entries[n].consensus} &&
            entries[n].consensus !in ConsensusSet(entries[..n])
  {
    var n := |entries| - 1;
    forall c | c in ConsensusSet(entries)
      ensures c in ConsensusSet(entries[..n]) + {entries[n].consensus}
    {
      var k :| 0 <= k < |entries| && entries[k].consensus == c;
      assert k < n ==> entries[..n][k].consensus == c;
    }
  }

  lemma {:induction false} MentionedFrom(px: Proxies, moduleId: ModuleId, entries: seq<ConsensusProxyMap>,
                                         scheme: Scheme, id: ProxyId)
    requires forall k :: 0 <= k < |entries| ==>
               ProxiesIn(entries[k], scheme) == DelegatedBy(px, KeysOf(px, moduleId, scheme), entries[k].consensus)
    ensures id in Mentioned(entries, scheme) ==> id in px.signers
  {
    if entries != [] {
      var n := |entries| - 1;
      MentionedFrom(px, moduleId, entries[..n], scheme, id);
      DelegatedMembers(px, KeysOf(px, moduleId, scheme), entries[n].consensus, id);
    }
  }

  lemma {:induction false} DelegatedMembers(px: Proxies, ids: seq<ProxyId>, consensus: Pubkey, id: ProxyId)
    ensures id in DelegatedBy(px, ids, consensus) <==>
            id in ids && id in px.signers && px.signers[id].delegation.delegator == consensus
  {
    if ids != [] {
      var n := |ids| - 1;
      DelegatedMembers(px, ids[..n], consensus, id);
      assert ids == ids[..n] + [ids[n]];
    }
  }

  /** A listing mentions each of the module's keys exactly as often as the module has it, and no other key. */
  lemma ListingIsPartition(px: Proxies, consensus: set<Pubkey>, moduleId: ModuleId, entries: seq<ConsensusProxyMap>,
                           scheme: Scheme)
    requires ListableModule(px, consensus, moduleId) && IsListing(px, consensus, moduleId, entries)
    ensures multiset(Mentioned(entries, scheme)) == multiset(KeysOf(px, moduleId, scheme))
  {
    var ids := KeysOf(px, moduleId, scheme);
    assert Resolvable(px, consensus, ids);
    assert forall k :: 0 <= k < |entries| ==>
        ProxiesIn(entries[k], scheme) == DelegatedBy(px, ids, entries[k].consensus);
    forall id: ProxyId
      ensures multiset(Mentioned(entries, scheme))[id] == multiset(ids)[id]
    {
      PartitionCount(px, moduleId, entries, scheme, id);
    }
  }

  lemma PartitionCount(px: Proxies, moduleId: ModuleId, entries: seq<ConsensusProxyMap>, scheme: Scheme, id: ProxyId)
    requires DistinctConsensus(entries) && Resolvable(px, ConsensusSet(entries), KeysOf(px, moduleId, scheme))
    requires forall k :: 0 <= k < |entries| ==>
               ProxiesIn(entries[k], scheme) == DelegatedBy(px, KeysOf(px, moduleId, scheme), entries[k].consensus)
    ensures multiset(Mentioned(entries, scheme))[id] == multiset(KeysOf(px, moduleId, scheme))[id]
  {
    var ids := KeysOf(px, moduleId, scheme);
    if id in px.signers {
      MentionedCount(px, moduleId, entries, scheme, id);
      if id in ids {
        var k :| 0 <= k < |ids| && ids[k] == id;
      } else {
        assert multiset(ids)[id] == 0;
      }
    } else {
      MentionedFrom(px, moduleId, entries, scheme, id);
      assert id !in ids;
      assert id !in Mentioned(entries, scheme);
      assert multiset(ids)[id] == 0 && multiset(Mentioned(entries, scheme))[id] == 0;
    }
  }

  lemma KeyHasOneModule(px: Proxies, m: ModuleId, s: Scheme, m': ModuleId, s': Scheme, id: ProxyId)
    requires Storable(px) && id in KeysOf(px, m, s) && id in KeysOf(px, m', s')
    ensures m == m' && s == s'
  {
    var kind, disk :| InStep(kind, Machine(disk, px));
    var paths := IndexPaths(kind, disk);
    assert KeyListFrom(paths, KeysOf(px, m, s), m, s) && KeyListFrom(paths, KeysOf(px, m', s'), m', s');
    assert HasPathIn(paths, m, id) && HasPathIn(paths, m', id);
  }

  lemma KeysListedOnce(px: Proxies, m: ModuleId, s: Scheme, id: ProxyId)
    requires Storable(px)
    ensures multiset(KeysOf(px, m, s))[id] == if id in KeysOf(px, m, s) then 1 else 0
  {
    var kind, disk :| InStep(kind, Machine(disk, px));
    assert KeyListFrom(IndexPaths(kind, disk), KeysOf(px, m, s), m, s);
    AtMostOnce(KeysOf(px, m, s), id);
  }

  /** A listing mentions each key of its module once and no key of another. */
  lemma ListedOnce(px: Proxies, consensus: set<Pubkey>, moduleId: ModuleId,
                   entries: seq<ConsensusProxyMap>, scheme: Scheme, id: ProxyId)
    requires Storable(px) && ListableModule(px, consensus, moduleId)
    requires IsListing(px, consensus, moduleId, entries)
    ensures multiset(Mentioned(entries, scheme))[id] == if id in KeysOf(px, moduleId, scheme) then 1 else 0
    ensures forall m, s :: m != moduleId && id in KeysOf(px, m, s) ==> id !in Mentioned(entries, scheme)
  {
    var ids := KeysOf(px, moduleId, scheme);
    ListingIsPartition(px, consensus, moduleId, entries, scheme);
    KeysListedOnce(px, moduleId, scheme, id);
    assert id in multiset(Mentioned(entries, scheme)) <==> id in Mentioned(entries, scheme);
    forall m, s | m != moduleId && id in KeysOf(px, m, s)
      ensures id !in Mentioned(entries, scheme)
    {
      if id in ids {
        KeyHasOneModule(px, m, s, moduleId, scheme, id);
        assert false;
      }
    }
  }

  // ----- the Dirk manager's listing

  /** A proxy account of the Dirk manager. */
  datatype ProxyAccount = ProxyAccount(moduleId: ModuleId, consensus: Pubkey)

  /** The proxies that the Dirk manager lists under a consensus key. */
  function DirkProxies(accounts: map<ProxyId, ProxyAccount>, moduleId: ModuleId, consensus: Pubkey): set<ProxyId> {
    set id | id in accounts && accounts[id].moduleId == moduleId && accounts[id].consensus == consensus
  }

  /** The accounts hold the BLS proxies of px, each with its module and its delegator. */
  ghost predicate SameAccounts(px: Proxies, accounts: map<ProxyId, ProxyAccount>) {
    && (forall m, id :: id in KeysOf(px, m, Bls) <==> id in accounts && accounts[id].moduleId == m)
    && (forall id :: id in accounts ==>
          id in px.signers && px.signers[id].delegation.delegator == accounts[id].consensus)
  }

  /** Both managers list the same proxies for the same accounts. */
  lemma ListingsAgree(px: Proxies, accounts: map<ProxyId, ProxyAccount>, consensus: set<Pubkey>, moduleId: ModuleId,
                      entries: seq<ConsensusProxyMap>, k: nat)
    requires SameAccounts(px, accounts) && IsListing(px, consensus, moduleId, entries) && k < |entries|
    ensures (set id | id in entries[k].proxyBls) == DirkProxies(accounts, moduleId, entries[k].consensus)
  {
    forall id
      ensures id in entries[k].proxyBls <==> id in DirkProxies(accounts, moduleId, entries[k].consensus)
    {
      DelegatedMembers(px, KeysOf(px, moduleId, Bls), entries[k].consensus, id);
    }
  }

  // ----- listing over runs

  /** Every key of every module resolves. */
  ghost predicate Listable(px: Proxies, consensus: set<Pubkey>) {
    forall m, s :: Resolvable(px, consensus, KeysOf(px, m, s))
  }

  lemma ListableOnReload(a: Proxies, b: Proxies, consensus: set<Pubkey>)
    requires SameProxies(a, b) && Listable(a, consensus)
    ensures Listable(b, consensus)
  {
    forall m, s
      ensures Resolvable(b, consensus, KeysOf(b, m, s))
    {
      var ids, ids' := KeysOf(a, m, s), KeysOf(b, m, s);
      assert Resolvable(a, consensus, ids);
      assert multiset(ids) == multiset(ids');
      forall k | 0 <= k < |ids'|
        ensures ids'[k] in b.signers && b.signers[ids'[k]].delegation.delegator in consensus
      {
        assert ids'[k] in multiset(ids');
        assert ids'[k] in multiset(ids);
        var l :| 0 <= l < |ids| && ids[l] == ids'[k];
      }
    }
  }

  lemma ListableOnCreate(px: Proxies, consensus: set<Pubkey>, moduleId: ModuleId, signer: ProxySigner)
    requires Listable(px, consensus) && signer.delegation.delegator in consensus
    ensures Listable(AddProxy(px, moduleId, IdOf(signer).scheme, signer), consensus)
  {
    var px' := AddProxy(px, moduleId, IdOf(signer).scheme, signer);
    forall m, s
      ensures Resolvable(px', consensus, KeysOf(px', m, s))
    {
      assert Resolvable(px, consensus, KeysOf(px, m, s));
    }
  }

  /** Delegators of created proxies are loaded consensus keys. */
  ghost predicate DelegatorsIn(steps: seq<Step>, consensus: set<Pubkey>) {
    forall k :: 0 <= k < |steps| && steps[k].Create? ==> steps[k].signer.delegation.delegator in consensus
  }

  /** Over every run of creations, failed writes and restarts, with or without a store, no listing ever fails. */
  lemma {:induction false} ListingNeverFails(store: Option<Kind>, st: Machine, steps: seq<Step>, consensus: set<Pubkey>)
    requires Sound(store, st) && AllowedRun(store, st, steps) && DelegatorsIn(steps, consensus)
    requires Listable(st.px, consensus)
    ensures Listable(AfterRun(store, st, steps).px, consensus)
  {
    if steps != [] {
      var n := |steps| - 1;
      var before := AfterRun(store, st, steps[..n]);
      ListingNeverFails(store, st, steps[..n], consensus);
      match steps[n] {
        case Create(m, signer, password) =>
          ListableOnCreate(before.px, consensus, m, signer);
        case Interrupted(_, _, _, _, _) =>
        case Restart(loaded) =>
          RunKeepsSound(store, st, steps[..n]);
          ListableOnRestart(store, before, consensus, loaded);
      }
    }
  }

  lemma ListableOnRestart(store: Option<Kind>, st: Machine, consensus: set<Pubkey>, loaded: Proxies)
    requires Sound(store, st) && Allowed(store, st, Restart(loaded)) && Listable(st.px, consensus)
    ensures Listable(loaded, consensus)
  {
    if store.Some? {
      LoadIsDetermined(store.value, st.disk, st.px, loaded);
      ListableOnReload(st.px, loaded, consensus);
    } else {
      assert forall m, s :: KeysOf(loaded, m, s) == [];
    }
  }

  /**
    In every state that a manager reaches from an empty start, with or without a
    store, every module can be listed, and each of its proxies appears exactly
    once, with no other module's proxies.
   */
  lemma EveryRunListsOnce(store: Option<Kind>, steps: seq<Step>, consensus: set<Pubkey>, moduleId: ModuleId,
                          entries: seq<ConsensusProxyMap>, scheme: Scheme, id: ProxyId)
    requires AllowedRun(store, Machine(map[], NO_PROXIES), steps) && DelegatorsIn(steps, consensus)
    ensures var px := AfterRun(store, Machine(map[], NO_PROXIES), steps).px;
            && ListableModule(px, consensus, moduleId)
            && (IsListing(px, consensus, moduleId, entries) ==>
                  && multiset(Mentioned(entries, scheme))[id] == (if id in KeysOf(px, moduleId, scheme) then 1 else 0)
                  && forall m, s :: m != moduleId && id in KeysOf(px, m, s) ==> id !in Mentioned(entries, scheme))
  {
    var start := Machine(map[], NO_PROXIES);
    var end := AfterRun(store, start, steps);
    EmptyInStep(if store.Some? then store.value else FileStore);
    assert Listable(NO_PROXIES, consensus);
    RunKeepsSound(store, start, steps);
    SoundIsStorable(store, end);
    ListingNeverFails(store, start, steps, consensus);
    if IsListing(end.px, consensus, moduleId, entries) {
      ListedOnce(end.px, consensus, moduleId, entries, scheme, id);
    }
  }
}
