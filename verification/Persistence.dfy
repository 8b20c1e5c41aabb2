/**
  Memory and disk agree over every run of proxy creations, interrupted writes
  and restarts: what is in memory is always what a restart would read back.
 */
module Persistence {
  import opened Wrappers
  import opened Types
  import opened ProxyStore

  lemma MultisetFromMembers<T>(a: seq<T>, b: seq<T>)
    requires NoDuplicates(a) && NoDuplicates(b)
    requires forall x :: x in a <==> x in b
    ensures multiset(a) == multiset(b)
  {
    forall x: T
      ensures multiset(a)[x] == multiset(b)[x]
    {
      AtMostOnce(a, x);
      AtMostOnce(b, x);
    }
  }

  lemma {:induction false} AtMostOnce<T>(a: seq<T>, x: T)
    requires NoDuplicates(a)
    ensures multiset(a)[x] == if x in a then 1 else 0
  {
    if a != [] {
      var n := |a| - 1;
      assert a == a[..n] + [a[n]];
      AtMostOnce(a[..n], x);
    }
  }

  /** Two loads of one disk give the same signers and, up to order, the same key lists. */
  ghost predicate SameProxies(a: Proxies, b: Proxies) {
    a.signers == b.signers && forall m, s :: multiset(KeysOf(a, m, s)) == multiset(KeysOf(b, m, s))
  }

  lemma KeysCarryOver(kind: Kind, disk: Disk, a: Proxies, b: Proxies, m: ModuleId, s: Scheme, id: ProxyId)
    requires LoadsTo(kind, disk, a) && LoadsTo(kind, disk, b) && id in KeysOf(a, m, s)
    ensures id in KeysOf(b, m, s)
  {
    var paths := IndexPaths(kind, disk);
    assert KeyListFrom(paths, KeysOf(a, m, s), m, s);
    var k :| 0 <= k < |KeysOf(a, m, s)| && KeysOf(a, m, s)[k] == id;
    assert HasPathIn(paths, m, id);
    var p :| p in paths && p.key == id && p.moduleId == m;
  }

  lemma SignersCarryOver(kind: Kind, disk: Disk, a: Proxies, b: Proxies, id: ProxyId)
    requires LoadsTo(kind, disk, a) && LoadsTo(kind, disk, b) && id in a.signers
    ensures id in b.signers && b.signers[id] == a.signers[id]
  {
    assert HasPath(IndexPaths(kind, disk), id);
    var p :| p in IndexPaths(kind, disk) && p.key == id;
  }

  lemma LoadIsDetermined(kind: Kind, disk: Disk, a: Proxies, b: Proxies)
    requires LoadsTo(kind, disk, a) && LoadsTo(kind, disk, b)
    ensures SameProxies(a, b)
  {
    forall id | id in a.signers
      ensures id in b.signers && b.signers[id] == a.signers[id]
    {
      SignersCarryOver(kind, disk, a, b, id);
    }
    forall id | id in b.signers
      ensures id in a.signers
    {
      SignersCarryOver(kind, disk, b, a, id);
    }
    assert a.signers.Keys == b.signers.Keys;
    forall m, s
      ensures multiset(KeysOf(a, m, s)) == multiset(KeysOf(b, m, s))
    {
      assert KeyListFrom(IndexPaths(kind, disk), KeysOf(a, m, s), m, s);
      assert KeyListFrom(IndexPaths(kind, disk), KeysOf(b, m, s), m, s);
      forall id
        ensures id in KeysOf(a, m, s) <==> id in KeysOf(b, m, s)
      {
        if id in KeysOf(a, m, s) {
          KeysCarryOver(kind, disk, a, b, m, s, id);
        }
        if id in KeysOf(b, m, s) {
          KeysCarryOver(kind, disk, b, a, m, s, id);
        }
      }
      MultisetFromMembers(KeysOf(a, m, s), KeysOf(b, m, s));
    }
  }

  // ----- writing

  /** A write touches only files of its own key. */
  lemma {:induction false} ApplyFrame(disk: Disk, writes: seq<(Path, Content)>, id: ProxyId, q: Path)
    requires forall k :: 0 <= k < |writes| ==> writes[k].0.key == id
    requires q.key != id
    ensures q in Apply(disk, writes) <==> q in disk
    ensures q in disk ==> Apply(disk, writes)[q] == disk[q]
  {
    if writes != [] {
      ApplyFrame(disk, writes[..|writes| - 1], id, q);
    }
  }

  lemma WritesOwnKey(kind: Kind, moduleId: ModuleId, signer: ProxySigner, password: nat)
    ensures forall k :: 0 <= k < |Writes(kind, moduleId, signer, password)| ==>
                          Writes(kind, moduleId, signer, password)[k].0.key == IdOf(signer)
  {
  }

  /** The signers of other keys load as before. */
  lemma OtherSignersKept(kind: Kind, disk: Disk, writes: seq<(Path, Content)>, id: ProxyId, q: Path)
    requires forall k :: 0 <= k < |writes| ==> writes[k].0.key == id
    requires q.key != id
    ensures q in Apply(disk, writes) <==> q in disk
    ensures SignerAt(kind, Apply(disk, writes), q) == SignerAt(kind, disk, q)
  {
    ApplyFrame(disk, writes, id, q);
    if q.KeystoreFile? {
      ApplyFrame(disk, writes, id, PasswordFile(q.delegator, q.moduleId, q.key));
      ApplyFrame(disk, writes, id, SignatureFile(q.delegator, q.moduleId, q.key));
    }
  }

  /** Before the last file is written no new index file exists; with it, the new proxy loads. */
  lemma NewIndexFile(kind: Kind, disk: Disk, moduleId: ModuleId, signer: ProxySigner, password: nat, written: nat)
    requires written <= |Writes(kind, moduleId, signer, password)|
    requires forall p :: p in disk && IsIndex(kind, p) ==> p.key != IdOf(signer)
    ensures var disk' := Apply(disk, Writes(kind, moduleId, signer, password)[..written]);
            forall q :: q in disk' && IsIndex(kind, q) && q.key == IdOf(signer) ==>
              written == |Writes(kind, moduleId, signer, password)| && q == IndexPath(kind, moduleId, signer)
    ensures written == |Writes(kind, moduleId, signer, password)| && Coherent(signer) ==>
              var disk' := Apply(disk, Writes(kind, moduleId, signer, password));
              SignerAt(kind, disk', IndexPath(kind, moduleId, signer)) == Some(signer)
  {
    var ws := Writes(kind, moduleId, signer, password);
    assert written == |ws| ==> ws[..written] == ws;
    if kind.FileStore? {
      ApplyOne(disk, ws[0]);
      assert written == 0 ==> ws[..written] == [];
    } else {
      ApplyOne(disk, ws[0]);
      ApplyTwo(disk, ws[0], ws[1]);
      ApplyThree(disk, ws[0], ws[1], ws[2]);
      assert written == 0 ==> ws[..written] == [];
      assert written == 1 ==> ws[..written] == [ws[0]];
      assert written == 2 ==> ws[..written] == [ws[0], ws[1]];
    }
  }

  lemma ApplyOne(disk: Disk, a: (Path, Content))
    ensures Apply(disk, [a]) == disk[a.0 := a.1]
  {
    assert [a][..0] == [];
  }

  lemma ApplyTwo(disk: Disk, a: (Path, Content), b: (Path, Content))
    ensures Apply(disk, [a, b]) == disk[a.0 := a.1][b.0 := b.1]
  {
    assert [a, b][..1] == [a];
    ApplyOne(disk, a);
  }

  lemma ApplyThree(disk: Disk, a: (Path, Content), b: (Path, Content), c: (Path, Content))
    ensures Apply(disk, [a, b, c]) == disk[a.0 := a.1][b.0 := b.1][c.0 := c.1]
  {
    assert [a, b, c][..2] == [a, b];
    ApplyTwo(disk, a, b);
  }

  /** The disks agree on all files of keys other than id. */
  ghost predicate SameElsewhere(kind: Kind, disk: Disk, disk': Disk, id: ProxyId) {
    forall q: Path :: q.key != id ==> (q in disk' <==> q in disk) && SignerAt(kind, disk', q) == SignerAt(kind, disk, q)
  }

  lemma PrefixElsewhere(kind: Kind, disk: Disk, moduleId: ModuleId, signer: ProxySigner, password: nat, written: nat)
    requires written <= |Writes(kind, moduleId, signer, password)|
    ensures SameElsewhere(kind, disk, Apply(disk, Writes(kind, moduleId, signer, password)[..written]), IdOf(signer))
  {
    var ws := Writes(kind, moduleId, signer, password)[..written];
    WritesOwnKey(kind, moduleId, signer, password);
    forall q: Path | q.key != IdOf(signer)
      ensures (q in Apply(disk, ws) <==> q in disk) && SignerAt(kind, Apply(disk, ws), q) == SignerAt(kind, disk, q)
    {
      OtherSignersKept(kind, disk, ws, IdOf(signer), q);
    }
  }

  ghost predicate NoIndexFile(kind: Kind, disk: Disk, id: ProxyId) {
    forall p :: p in disk && IsIndex(kind, p) ==> p.key != id
  }

  lemma FreshKeyHasNoFile(kind: Kind, disk: Disk, px: Proxies, id: ProxyId)
    requires LoadsTo(kind, disk, px) && id !in px.signers
    ensures NoIndexFile(kind, disk, id)
  {
    forall p | p in disk && IsIndex(kind, p)
      ensures p.key != id
    {
      assert p in IndexPaths(kind, disk);
    }
  }

  lemma LoadedCarries(kind: Kind, disk: Disk, disk': Disk, px: Proxies, id: ProxyId)
    requires LoadsTo(kind, disk, px) && SameElsewhere(kind, disk, disk', id) && NoIndexFile(kind, disk, id)
    ensures LoadedFrom(kind, disk', IndexPaths(kind, disk), px)
  {
  }

  lemma UnfinishedWrite(kind: Kind, disk: Disk, disk': Disk, px: Proxies, id: ProxyId)
    requires Good(kind, disk) && LoadsTo(kind, disk, px) && SameElsewhere(kind, disk, disk', id)
    requires NoIndexFile(kind, disk, id) && NoIndexFile(kind, disk', id)
    ensures Good(kind, disk') && LoadsTo(kind, disk', px)
  {
    LoadedCarries(kind, disk, disk', px, id);
    assert IndexPaths(kind, disk') == IndexPaths(kind, disk);
  }

  /** p is the only index file of the key. */
  ghost predicate OnlyIndexFile(kind: Kind, disk: Disk, p: Path) {
    p in disk && IsIndex(kind, p) && forall q :: q in disk && IsIndex(kind, q) && q.key == p.key ==> q == p
  }

  lemma FinishedIsGood(kind: Kind, disk: Disk, disk': Disk, moduleId: ModuleId, signer: ProxySigner)
    requires var p := IndexPath(kind, moduleId, signer);
             && Good(kind, disk) && SameElsewhere(kind, disk, disk', IdOf(signer)) && Coherent(signer)
             && OnlyIndexFile(kind, disk', p) && SignerAt(kind, disk', p) == Some(signer)
    ensures Good(kind, disk')
  {
  }

  lemma FinishedWrite(kind: Kind, disk: Disk, disk': Disk, px: Proxies, moduleId: ModuleId, signer: ProxySigner)
    requires var p := IndexPath(kind, moduleId, signer);
             && Good(kind, disk) && SameElsewhere(kind, disk, disk', IdOf(signer)) && Coherent(signer)
             && OnlyIndexFile(kind, disk', p) && SignerAt(kind, disk', p) == Some(signer)
    requires LoadsTo(kind, disk, px) && NoIndexFile(kind, disk, IdOf(signer))
    ensures Good(kind, disk') && LoadsTo(kind, disk', AddProxy(px, moduleId, IdOf(signer).scheme, signer))
  {
    var before, p := IndexPaths(kind, disk), IndexPath(kind, moduleId, signer);
    FinishedIsGood(kind, disk, disk', moduleId, signer);
    LoadedCarries(kind, disk, disk', px, IdOf(signer));
    assert IndexPaths(kind, disk') == before + {p};
    LoadOneMore(kind, disk', before, px, p);
  }

  /**
    A creation, at any prefix of its file writes: until the last file the disk
    still loads to the old proxies, and with it to the old ones plus the new.
   */
  lemma WritePrefix(kind: Kind, disk: Disk, px: Proxies, moduleId: ModuleId, signer: ProxySigner, password: nat,
                    written: nat)
    requires Good(kind, disk) && LoadsTo(kind, disk, px)
    requires Coherent(signer) && IdOf(signer) !in px.signers
    requires written <= |Writes(kind, moduleId, signer, password)|
    ensures var ws := Writes(kind, moduleId, signer, password);
            var disk' := Apply(disk, ws[..written]);
            && Good(kind, disk')
            && LoadsTo(kind, disk', if written < |ws| then px else AddProxy(px, moduleId, IdOf(signer).scheme, signer))
  {
    var ws := Writes(kind, moduleId, signer, password);
    var disk' := Apply(disk, ws[..written]);
    FreshKeyHasNoFile(kind, disk, px, IdOf(signer));
    NewIndexFile(kind, disk, moduleId, signer, password, written);
    PrefixElsewhere(kind, disk, moduleId, signer, password, written);
    if written < |ws| {
      UnfinishedWrite(kind, disk, disk', px, IdOf(signer));
    } else {
      assert ws[..written] == ws;
      FinishedWrite(kind, disk, disk', px, moduleId, signer);
    }
  }

  /** The writes of an interrupted creation: some whole files, and perhaps one that was created and not filled. */
  function Partly(writes: seq<(Path, Content)>, written: nat, torn: bool): seq<(Path, Content)>
    requires written <= |writes|
  {
    writes[..written] + if torn && written < |writes| then [(writes[written].0, Unreadable)] else []
  }

  lemma {:induction false} ApplyDomain(disk: Disk, writes: seq<(Path, Content)>, q: Path)
    requires q in Apply(disk, writes)
    ensures q in disk || exists k :: 0 <= k < |writes| && writes[k].0 == q
  {
    if writes != [] {
      var n := |writes| - 1;
      if q != writes[n].0 {
        ApplyDomain(disk, writes[..n], q);
      }
    }
  }

  lemma PartlyOwnKey(kind: Kind, moduleId: ModuleId, signer: ProxySigner, password: nat, written: nat)
    requires written < |Writes(kind, moduleId, signer, password)|
    ensures var ws := Partly(Writes(kind, moduleId, signer, password), written, true);
            && (forall k :: 0 <= k < |ws| ==> ws[k].0.key == IdOf(signer))
            && (written + 1 < |Writes(kind, moduleId, signer, password)| ==>
                  forall k :: 0 <= k < |ws| ==> !IsIndex(kind, ws[k].0))
  {
    WritesOwnKey(kind, moduleId, signer, password);
  }

  /** The index file that was created and not filled does not load. */
  lemma TornIndexFails(kind: Kind, disk: Disk, moduleId: ModuleId, signer: ProxySigner, password: nat, written: nat)
    requires written + 1 == |Writes(kind, moduleId, signer, password)|
    ensures var disk' := Apply(disk, Partly(Writes(kind, moduleId, signer, password), written, true));
            var p := IndexPath(kind, moduleId, signer);
            p in disk' && IsIndex(kind, p) && LoadAt(kind, disk', p).Fails?
  {
    var ws := Partly(Writes(kind, moduleId, signer, password), written, true);
    assert ws[|ws| - 1] == (IndexPath(kind, moduleId, signer), Unreadable);
  }

  lemma TornElsewhere(kind: Kind, disk: Disk, ws: seq<(Path, Content)>, id: ProxyId)
    requires forall k :: 0 <= k < |ws| ==> ws[k].0.key == id
    ensures SameElsewhere(kind, disk, Apply(disk, ws), id)
  {
    forall q: Path | q.key != id
      ensures (q in Apply(disk, ws) <==> q in disk) && SignerAt(kind, Apply(disk, ws), q) == SignerAt(kind, disk, q)
    {
      OtherSignersKept(kind, disk, ws, id, q);
    }
  }

  /**
    A file is created before it is filled. If a creation stops in between, the
    disk still loads to the old proxies exactly when the torn file is not the
    last one; the last one makes every later load fail.
   */
  lemma TornWriteIff(kind: Kind, disk: Disk, px: Proxies, moduleId: ModuleId, signer: ProxySigner, password: nat,
                     written: nat)
    requires Good(kind, disk) && LoadsTo(kind, disk, px)
    requires Coherent(signer) && IdOf(signer) !in px.signers
    requires written < |Writes(kind, moduleId, signer, password)|
    ensures var ws := Writes(kind, moduleId, signer, password);
            var disk' := Apply(disk, Partly(ws, written, true));
            if written + 1 < |ws| then Good(kind, disk') && LoadsTo(kind, disk', px)
            else LoadFails(kind, disk', true)
  {
    var all := Writes(kind, moduleId, signer, password);
    var ws := Partly(all, written, true);
    var disk' := Apply(disk, ws);
    if written + 1 < |all| {
      FreshKeyHasNoFile(kind, disk, px, IdOf(signer));
      PartlyOwnKey(kind, moduleId, signer, password, written);
      TornElsewhere(kind, disk, ws, IdOf(signer));
      forall p | p in disk' && IsIndex(kind, p)
        ensures p.key != IdOf(signer)
      {
        ApplyDomain(disk, ws, p);
      }
      UnfinishedWrite(kind, disk, disk', px, IdOf(signer));
    } else {
      TornIndexFails(kind, disk, moduleId, signer, password, written);
      assert IndexPath(kind, moduleId, signer) in IndexPaths(kind, disk');
    }
  }

  // ----- runs

  datatype Machine = Machine(disk: Disk, px: Proxies)

  datatype Step =
    | Create(moduleId: ModuleId, signer: ProxySigner, password: nat)
    // an I/O error or a crash part way, perhaps with one more file created and not filled
    | Interrupted(moduleId: ModuleId, signer: ProxySigner, password: nat, written: nat, torn: bool)
    | Restart(loaded: Proxies)

  const NO_PROXIES: Proxies := Proxies(map[], map[])

  /** The step leaves the last file of a creation created and not filled. */
  predicate TearsLast(store: Option<Kind>, step: Step) {
    && step.Interrupted? && step.torn
    && step.written + 1 == |WritesTo(store, step.moduleId, step.signer, step.password)|
  }

  /**
    Keys are fresh, no last file is torn, and a restart reads something the disk
    can load to, or nothing if there is no store.
   */
  ghost predicate Allowed(store: Option<Kind>, st: Machine, step: Step) {
    match step
    case Create(m, signer, password) => Coherent(signer) && IdOf(signer) !in st.px.signers
    case Interrupted(m, signer, password, written, torn) =>
      && store.Some? && Coherent(signer) && IdOf(signer) !in st.px.signers
      && written < |Writes(store.value, m, signer, password)| && !TearsLast(store, step)
    case Restart(loaded) => if store.Some? then LoadsTo(store.value, st.disk, loaded) else loaded == NO_PROXIES
  }

  /** The files of a proxy; none without a store. */
  function WritesTo(store: Option<Kind>, m: ModuleId, signer: ProxySigner, password: nat): seq<(Path, Content)> {
    if store.Some? then Writes(store.value, m, signer, password) else []
  }

  function After(store: Option<Kind>, st: Machine, step: Step): Machine {
    match step
    case Create(m, signer, password) =>
      Machine(Apply(st.disk, WritesTo(store, m, signer, password)), AddProxy(st.px, m, IdOf(signer).scheme, signer))
    case Interrupted(m, signer, password, written, torn) =>
      var ws := WritesTo(store, m, signer, password);
      Machine(Apply(st.disk, if written <= |ws| then Partly(ws, written, torn) else ws), st.px)
    case Restart(loaded) => Machine(st.disk, loaded)
  }

  ghost predicate AllowedRun(store: Option<Kind>, st: Machine, steps: seq<Step>) {
    steps == [] ||
    (AllowedRun(store, st, steps[..|steps| - 1]) &&
     Allowed(store, AfterRun(store, st, steps[..|steps| - 1]), steps[|steps| - 1]))
  }

  function AfterRun(store: Option<Kind>, st: Machine, steps: seq<Step>): Machine {
    if steps == [] then st
    else After(store, AfterRun(store, st, steps[..|steps| - 1]), steps[|steps| - 1])
  }

  ghost predicate InStep(kind: Kind, st: Machine) {
    Good(kind, st.disk) && LoadsTo(kind, st.disk, st.px)
  }

  /** Some disk would load to these proxies. */
  ghost predicate Storable(px: Proxies) {
    exists kind, disk :: InStep(kind, Machine(disk, px))
  }

  /** Memory and disk agree; without a store, memory is at least something a disk could hold. */
  ghost predicate Sound(store: Option<Kind>, st: Machine) {
    if store.Some? then InStep(store.value, st) else Storable(st.px)
  }

  lemma SoundIsStorable(store: Option<Kind>, st: Machine)
    requires Sound(store, st)
    ensures Storable(st.px)
  {
    if store.Some? {
      assert InStep(store.value, Machine(st.disk, st.px));
    }
  }

  lemma StoreStep(kind: Kind, st: Machine, step: Step)
    requires InStep(kind, st) && Allowed(Some(kind), st, step)
    ensures InStep(kind, After(Some(kind), st, step))
  {
    match step {
      case Create(m, signer, password) =>
        var ws := Writes(kind, m, signer, password);
        assert ws[..|ws|] == ws;
        WritePrefix(kind, st.disk, st.px, m, signer, password, |ws|);
      case Interrupted(m, signer, password, written, torn) =>
        if torn {
          TornWriteIff(kind, st.disk, st.px, m, signer, password, written);
        } else {
          WritePrefix(kind, st.disk, st.px, m, signer, password, written);
          var ws := Writes(kind, m, signer, password);
          assert Partly(ws, written, false) == ws[..written];
        }
      case Restart(loaded) =>
    }
  }

  /** A creation in memory is one on a disk that nobody keeps. */
  lemma MemoryStep(px: Proxies, moduleId: ModuleId, signer: ProxySigner)
    requires Storable(px) && Coherent(signer) && IdOf(signer) !in px.signers
    ensures Storable(AddProxy(px, moduleId, IdOf(signer).scheme, signer))
  {
    var kind, disk :| InStep(kind, Machine(disk, px));
    var create := Create(moduleId, signer, 0);
    StoreStep(kind, Machine(disk, px), create);
    var after := After(Some(kind), Machine(disk, px), create);
    assert InStep(kind, Machine(after.disk, after.px));
  }

  /** Creations, interrupted writes and restarts keep memory sound, with and without a store. */
  lemma StepKeepsSound(store: Option<Kind>, st: Machine, step: Step)
    requires Sound(store, st) && Allowed(store, st, step)
    ensures Sound(store, After(store, st, step))
  {
    if store.Some? {
      StoreStep(store.value, st, step);
    } else {
      match step {
        case Create(m, signer, password) => MemoryStep(st.px, m, signer);
        case Restart(loaded) => EmptyInStep(FileStore);
      }
    }
  }

  lemma {:induction false} RunKeepsSound(store: Option<Kind>, st: Machine, steps: seq<Step>)
    requires Sound(store, st) && AllowedRun(store, st, steps)
    ensures Sound(store, AfterRun(store, st, steps))
  {
    if steps != [] {
      RunKeepsSound(store, st, steps[..|steps| - 1]);
      StepKeepsSound(store, AfterRun(store, st, steps[..|steps| - 1]), steps[|steps| - 1]);
    }
  }

  lemma EmptyInStep(kind: Kind)
    ensures InStep(kind, Machine(map[], NO_PROXIES))
  {
    NothingLoaded(kind, map[]);
    assert IndexPaths(kind, map[]) == {};
  }

  /**
    After every run from an empty store, with creations, failed writes and
    restarts in any order, loading the disk restores the signers, delegations
    and per-module keys that are in memory.
   */
  lemma RestartRestoresMemory(kind: Kind, steps: seq<Step>, loaded: Proxies)
    requires var start := Machine(map[], NO_PROXIES);
             && AllowedRun(Some(kind), start, steps)
             && LoadsTo(kind, AfterRun(Some(kind), start, steps).disk, loaded)
    ensures var end := AfterRun(Some(kind), Machine(map[], NO_PROXIES), steps);
            Good(kind, end.disk) && SameProxies(end.px, loaded)
  {
    var start := Machine(map[], NO_PROXIES);
    EmptyInStep(kind);
    RunKeepsSound(Some(kind), start, steps);
    var end := AfterRun(Some(kind), start, steps);
    LoadIsDetermined(kind, end.disk, end.px, loaded);
  }

  // ----- delegations

  /** Every signer has a delegation to its own key, validly signed by a known consensus key. */
  ghost predicate AllValid(px: Proxies, secrets: map<Pubkey, nat>) {
    forall id :: id in px.signers ==> SignerValid(id, px.signers[id], secrets)
  }

  ghost predicate SignerValid(id: ProxyId, signer: ProxySigner, secrets: map<Pubkey, nat>) {
    && signer.secret == id.secret && signer.delegation.proxy == id && signer.delegation.delegator in secrets
    && ValidDelegation(signer.delegation, secrets[signer.delegation.delegator])
  }

  /** The signers that are created have such delegations. */
  ghost predicate CreatesValid(steps: seq<Step>, secrets: map<Pubkey, nat>) {
    forall k :: 0 <= k < |steps| && steps[k].Create? ==> SignerValid(IdOf(steps[k].signer), steps[k].signer, secrets)
  }

  /** Over every run and after every restart, with either format or no store, all delegations in memory are valid. */
  lemma {:induction false} DelegationsStayValid(store: Option<Kind>, st: Machine, steps: seq<Step>,
                                                secrets: map<Pubkey, nat>)
    requires Sound(store, st) && AllowedRun(store, st, steps)
    requires AllValid(st.px, secrets) && CreatesValid(steps, secrets)
    ensures AllValid(AfterRun(store, st, steps).px, secrets)
  {
    if steps != [] {
      var n := |steps| - 1;
      var before := AfterRun(store, st, steps[..n]);
      DelegationsStayValid(store, st, steps[..n], secrets);
      match steps[n] {
        case Create(m, signer, password) =>
        case Interrupted(_, _, _, _, _) =>
        case Restart(loaded) =>
          if store.Some? {
            RunKeepsSound(store, st, steps[..n]);
            LoadIsDetermined(store.value, before.disk, before.px, loaded);
          }
      }
    }
  }
}
