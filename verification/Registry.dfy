/**
  The registry of modules of the signer: how it is loaded, and what revoking,
  reloading and signing do to it over whole runs.
 */
module Registry {
  import opened Wrappers
  import opened Types
  import opened SigningRoot

  datatype ModuleSigningConfig = ModuleSigningConfig(moduleName: ModuleId, jwtSecret: string, signingId: SigningId)

  type Modules = map<ModuleId, ModuleSigningConfig>

  /** A module as the config file declares it. */
  datatype StaticModule = StaticModule(id: ModuleId, signingId: SigningId)

  // ----- loading

  predicate WellFormed(m: StaticModule, secrets: map<ModuleId, string>) {
    m.id != "" && m.id in secrets && secrets[m.id] != "" && m.signingId != NO_SIGNING_ID
  }

  predicate Clash(a: StaticModule, b: StaticModule, secrets: map<ModuleId, string>) {
    || a.id == b.id
    || a.signingId == b.signingId
    || (a.id in secrets && b.id in secrets && secrets[a.id] == secrets[b.id])
  }

  /** What the loader accepts of the first n modules: complete ones without any shared id, secret or signing id. */
  predicate AcceptableUpTo(modules: seq<StaticModule>, n: nat, secrets: map<ModuleId, string>)
    requires n <= |modules|
  {
    && (forall k :: 0 <= k < n ==> WellFormed(modules[k], secrets))
    && (forall k, l :: 0 <= k < l < n ==> !Clash(modules[k], modules[l], secrets))
  }

  predicate Acceptable(modules: seq<StaticModule>, secrets: map<ModuleId, string>) {
    AcceptableUpTo(modules, |modules|, secrets)
  }

  function IdsOf(modules: seq<StaticModule>, n: nat): set<ModuleId>
    requires n <= |modules|
  {
    if n == 0 then {} else IdsOf(modules, n - 1) + {modules[n - 1].id}
  }

  function SigningIdsOf(modules: seq<StaticModule>, n: nat): set<SigningId>
    requires n <= |modules|
  {
    if n == 0 then {} else SigningIdsOf(modules, n - 1) + {modules[n - 1].signingId}
  }

  function SecretOf(m: StaticModule, secrets: map<ModuleId, string>): string {
    if m.id in secrets then secrets[m.id] else ""
  }

  function SecretsOf(modules: seq<StaticModule>, n: nat, secrets: map<ModuleId, string>): set<string>
    requires n <= |modules|
  {
    if n == 0 then {} else SecretsOf(modules, n - 1, secrets) + {SecretOf(modules[n - 1], secrets)}
  }

  /** The registry holds exactly the declared modules. */
  ghost predicate Declares(modules: seq<StaticModule>, secrets: map<ModuleId, string>, registry: Modules) {
    DeclaresUpTo(modules, |modules|, secrets, registry)
  }

  ghost predicate DeclaresUpTo(modules: seq<StaticModule>, n: nat, secrets: map<ModuleId, string>, registry: Modules)
    requires n <= |modules|
  {
    && registry.Keys == IdsOf(modules, n)
    && forall k :: 0 <= k < n ==>
         && modules[k].id in registry
         && registry[modules[k].id] ==
            ModuleSigningConfig(modules[k].id, SecretOf(modules[k], secrets), modules[k].signingId)
  }

  /** A module shares nothing with the first n exactly when the three sets miss it. */
  lemma {:induction false} NoClashIff(modules: seq<StaticModule>, n: nat, m: StaticModule,
                                      secrets: map<ModuleId, string>)
    requires n <= |modules| && WellFormed(m, secrets)
    requires forall k :: 0 <= k < n ==> WellFormed(modules[k], secrets)
    ensures (forall k :: 0 <= k < n ==> !Clash(modules[k], m, secrets)) <==>
            && m.id !in IdsOf(modules, n) && m.signingId !in SigningIdsOf(modules, n)
            && SecretOf(m, secrets) !in SecretsOf(modules, n, secrets)
  {
    if n > 0 {
      NoClashIff(modules, n - 1, m, secrets);
      assert WellFormed(modules[n - 1], secrets);
    }
  }

  lemma {:induction false} IdsOfMembers(modules: seq<StaticModule>, n: nat, id: ModuleId)
    requires n <= |modules|
    ensures id in IdsOf(modules, n) <==> exists k :: 0 <= k < n && modules[k].id == id
  {
    if n > 0 {
      IdsOfMembers(modules, n - 1, id);
    }
  }

  /** The checks on one module against what was seen before, in the order the loader makes them. */
  method CheckModule(m: StaticModule, secrets: map<ModuleId, string>, configs: Modules,
                     seenSecrets: set<string>, seenIds: set<SigningId>) returns (error: Option<string>)
    ensures error.None? <==>
            && WellFormed(m, secrets) && m.id !in configs
            && SecretOf(m, secrets) !in seenSecrets && m.signingId !in seenIds
  {
    if m.id == "" {
      return Some("Module ID cannot be empty");
    }
    if m.id in configs {
      return Some("Duplicate module config detected");
    }
    if m.id !in secrets {
      return Some("JWT secret is missing");
    }
    if secrets[m.id] == "" || m.signingId == NO_SIGNING_ID {
      return Some("Invalid signing config");
    }
    if secrets[m.id] in seenSecrets {
      return Some("Duplicate JWT secret detected");
    }
    if m.signingId in seenIds {
      return Some("Duplicate signing ID detected");
    }
    return None;
  }

  /** The next module keeps the prefix acceptable exactly when the checks against it pass. */
  lemma AcceptNext(modules: seq<StaticModule>, n: nat, secrets: map<ModuleId, string>)
    requires n < |modules| && AcceptableUpTo(modules, n, secrets)
    ensures var m := modules[n];
            AcceptableUpTo(modules, n + 1, secrets) <==>
            && WellFormed(m, secrets) && m.id !in IdsOf(modules, n)
            && SecretOf(m, secrets) !in SecretsOf(modules, n, secrets) && m.signingId !in SigningIdsOf(modules, n)
  {
    if WellFormed(modules[n], secrets) {
      NoClashIff(modules, n, modules[n], secrets);
    }
  }

  /** `load_module_signing_configs`: fails exactly when the configuration is not acceptable. */
  method LoadModuleSigningConfigs(modules: Option<seq<StaticModule>>, secrets: map<ModuleId, string>)
    returns (res: Result<Modules, string>)
    ensures res.Ok? <==> modules.Some? && Acceptable(modules.value, secrets)
    ensures res.Ok? ==> Declares(modules.value, secrets, res.value)
  {
    if modules.None? {
      return Err("No modules defined in the config");
    }
    var ms := modules.value;
    var configs: Modules := map[];
    var seenSecrets: set<string> := {};
    var seenIds: set<SigningId> := {};
    for k := 0 to |ms|
      invariant AcceptableUpTo(ms, k, secrets) && DeclaresUpTo(ms, k, secrets, configs)
      invariant seenSecrets == SecretsOf(ms, k, secrets) && seenIds == SigningIdsOf(ms, k)
    {
      var m := ms[k];
      AcceptNext(ms, k, secrets);
      var error := CheckModule(m, secrets, configs, seenSecrets, seenIds);
      if error.Some? {
        return Err(error.value);
      }
      seenSecrets := seenSecrets + {secrets[m.id]};
      seenIds := seenIds + {m.signingId};
      configs := configs[m.id := ModuleSigningConfig(m.id, secrets[m.id], m.signingId)];
    }
    return Ok(configs);
  }

  // ----- the running service

  datatype State = State(jwts: Modules, adminSecret: string)

  /** A bearer token: whether its claims decode, which module they name, its signing key, and if it is still valid. */
  datatype Token = Token(decodes: bool, moduleId: ModuleId, signedWith: string, unexpired: bool)

  datatype ReloadRequest = ReloadRequest(jwtSecrets: Option<map<ModuleId, string>>, adminSecret: Option<string>)

  /** What the environment answers during a reload: the config file, and starting a manager. */
  datatype ReloadEnv = ReloadEnv(configLoads: bool, managerStarts: bool)

  datatype Event =
    | Authenticate(token: Token)
    | Sign(moduleId: ModuleId, objectRoot: Root, managerSigns: bool)  // the handler, after authentication
    | Revoke(moduleId: ModuleId)
    | Reload(request: ReloadRequest, env: ReloadEnv)
    | SetAdmin(adminSecret: string)  // the end of a reload, where others came in between

  datatype Answer =
    | Authenticated(moduleId: ModuleId)
    | Unauthorized
    | SignatureOver(root: Root)
    | Done
    | Refused

  /** `check_jwt_auth`: the module of a valid token. */
  function CheckAuth(st: State, token: Token): Option<ModuleId> {
    if !token.decodes || token.moduleId !in st.jwts then None
    else if st.jwts[token.moduleId].jwtSecret == token.signedWith && token.unexpired then Some(token.moduleId)
    else None
  }

  /** The registry with new secrets for the listed modules, which keep their signing ids. */
  function Replaced(jwts: Modules, secrets: map<ModuleId, string>): Modules
    requires secrets.Keys <= jwts.Keys
  {
    map id | id in secrets :: ModuleSigningConfig(id, secrets[id], jwts[id].signingId)
  }

  /** `handle_reload`: an unknown module stops it before anything is written. */
  function ReloadStep(st: State, request: ReloadRequest, env: ReloadEnv): (State, Answer) {
    if !env.configLoads then (st, Refused)
    else if request.jwtSecrets.Some? && !(request.jwtSecrets.value.Keys <= st.jwts.Keys) then (st, Refused)
    else
      var jwts := if request.jwtSecrets.Some? then Replaced(st.jwts, request.jwtSecrets.value) else st.jwts;
      var admin := if request.adminSecret.Some? then request.adminSecret.value else st.adminSecret;
      (State(jwts, admin), if env.managerStarts then Done else Refused)
  }

  /** One event, as one critical section on the registry, and its answer. */
  function Step(chain: Chain, st: State, event: Event): (State, Answer) {
    match event
    case Authenticate(token) =>
      (st, match CheckAuth(st, token) case Some(id) => Authenticated(id) case None => Unauthorized)
    case Sign(id, objectRoot, managerSigns) =>
      if id !in st.jwts || !managerSigns then (st, Refused)
      else
        var signingId := st.jwts[id].signingId;
        (st, SignatureOver(PropCommitSigningRoot(chain, objectRoot, Some(signingId), COMMIT_BOOST_DOMAIN)))
    case Revoke(id) =>
      if id in st.jwts then (State(st.jwts - {id}, st.adminSecret), Done) else (st, Refused)
    case Reload(request, env) => ReloadStep(st, request, env)
    case SetAdmin(secret) => (State(st.jwts, secret), Done)
  }

  function Run(chain: Chain, st: State, events: seq<Event>): State {
    if events == [] then st
    else Step(chain, Run(chain, st, events[..|events| - 1]), events[|events| - 1]).0
  }

  function AnswerAt(chain: Chain, st: State, events: seq<Event>, k: nat): Answer
    requires k < |events|
  {
    Step(chain, Run(chain, st, events[..k]), events[k]).1
  }

  /** later has no module that earlier lacks, and no signing id has changed. */
  ghost predicate Shrunk(earlier: Modules, later: Modules) {
    forall id :: id in later ==>
      id in earlier && later[id].moduleName == id && later[id].signingId == earlier[id].signingId
  }

  /** Every module carries its own name. */
  ghost predicate Named(jwts: Modules) {
    forall id :: id in jwts ==> jwts[id].moduleName == id
  }

  /** Signing ids are valid and belong to one module each. */
  ghost predicate UniqueIds(jwts: Modules) {
    && (forall id :: id in jwts ==> jwts[id].signingId != NO_SIGNING_ID)
    && (forall a, b :: a in jwts && b in jwts && a != b ==> jwts[a].signingId != jwts[b].signingId)
  }

  lemma NoModulesIff(modules: seq<StaticModule>, secrets: map<ModuleId, string>, registry: Modules)
    requires Declares(modules, secrets, registry)
    ensures registry == map[] <==> modules == []
  {
    if modules != [] {
      assert modules[0].id in registry;
    } else {
      assert registry.Keys == {};
    }
  }

  lemma LoadedRegistryIsUnique(modules: seq<StaticModule>, secrets: map<ModuleId, string>, registry: Modules)
    requires Acceptable(modules, secrets) && Declares(modules, secrets, registry)
    ensures Named(registry) && UniqueIds(registry)
  {
    forall a, b | a in registry && b in registry && a != b
      ensures registry[a].signingId != registry[b].signingId
    {
      IdsOfMembers(modules, |modules|, a);
      IdsOfMembers(modules, |modules|, b);
      var k :| 0 <= k < |modules| && modules[k].id == a;
      var l :| 0 <= l < |modules| && modules[l].id == b;
      if k < l {
        assert !Clash(modules[k], modules[l], secrets);
      } else {
        assert !Clash(modules[l], modules[k], secrets);
      }
    }
    forall a | a in registry
      ensures registry[a].moduleName == a && registry[a].signingId != NO_SIGNING_ID
    {
      IdsOfMembers(modules, |modules|, a);
      var k :| 0 <= k < |modules| && modules[k].id == a;
      assert WellFormed(modules[k], secrets);
    }
  }

  lemma {:induction false} RunShrinks(chain: Chain, st: State, events: seq<Event>, k: nat)
    requires Named(st.jwts) && k <= |events|
    ensures Shrunk(Run(chain, st, events[..k]).jwts, Run(chain, st, events).jwts)
    ensures Named(Run(chain, st, events).jwts)
    decreases |events|
  {
    if k == |events| {
      assert events[..k] == events;
      if k > 0 {
        RunShrinks(chain, st, events[..k - 1], 0);
      }
    } else {
      var n := |events| - 1;
      RunShrinks(chain, st, events[..n], k);
      assert events[..n][..k] == events[..k];
    }
  }

  /** Over every run signing ids stay valid, pairwise different and equal to the initial ones. */
  lemma SigningIdsNeverChange(chain: Chain, st: State, events: seq<Event>)
    requires Named(st.jwts) && UniqueIds(st.jwts)
    ensures var jwts := Run(chain, st, events).jwts;
            && jwts.Keys <= st.jwts.Keys && UniqueIds(jwts)
            && forall id :: id in jwts ==> jwts[id].signingId == st.jwts[id].signingId
  {
    RunShrinks(chain, st, events, 0);
    assert events[..0] == [];
  }

  /**
    A module that has left the registry never comes back: from then on none of
    its tokens is accepted and no request of it gets a signature.
   */
  lemma RemovedStaysOut(chain: Chain, st: State, events: seq<Event>, k: nat, l: nat, id: ModuleId)
    requires Named(st.jwts) && k <= l < |events| && id !in Run(chain, st, events[..k]).jwts
    ensures id !in Run(chain, st, events[..l]).jwts
    ensures events[l].Sign? && events[l].moduleId == id ==> AnswerAt(chain, st, events, l) == Refused
    ensures AnswerAt(chain, st, events, l) != Authenticated(id)
  {
    assert events[..l][..k] == events[..k];
    RunShrinks(chain, st, events[..l], k);
  }

  /** One more event at the end of a run. */
  lemma RunSnoc(chain: Chain, st: State, events: seq<Event>, event: Event)
    ensures Run(chain, st, events + [event]) == Step(chain, Run(chain, st, events), event).0
    ensures AnswerAt(chain, st, events + [event], |events|) == Step(chain, Run(chain, st, events), event).1
  {
    assert (events + [event])[..|events|] == events;
  }

  /** A module is registered exactly if it always has been. */
  lemma RegisteredIff(chain: Chain, st: State, events: seq<Event>, id: ModuleId)
    requires Named(st.jwts)
    ensures id in Run(chain, st, events).jwts <==> AlwaysRegistered(chain, st, events, id)
  {
    assert events[..|events|] == events;
    forall k | 0 <= k <= |events| && id in Run(chain, st, events).jwts
      ensures id in Run(chain, st, events[..k]).jwts
    {
      RunShrinks(chain, st, events, k);
    }
  }

  ghost predicate AlwaysRegistered(chain: Chain, st: State, events: seq<Event>, id: ModuleId) {
    forall k :: 0 <= k <= |events| ==> id in Run(chain, st, events[..k]).jwts
  }

  /** The secret of a module after a run, if it is registered then. */
  function CurrentSecret(chain: Chain, st: State, events: seq<Event>, id: ModuleId): Option<string> {
    var jwts := Run(chain, st, events).jwts;
    if id in jwts then Some(jwts[id].jwtSecret) else None
  }

  /** The answers of a run do not depend on the admin secret it starts with. */
  lemma {:induction false} AdminIrrelevant(chain: Chain, a: State, b: State, events: seq<Event>)
    requires a.jwts == b.jwts
    ensures Run(chain, a, events).jwts == Run(chain, b, events).jwts
    ensures forall k :: 0 <= k < |events| ==> AnswerAt(chain, a, events, k) == AnswerAt(chain, b, events, k)
  {
    if events != [] {
      var n := |events| - 1;
      AdminIrrelevant(chain, a, b, events[..n]);
      forall k | 0 <= k < |events|
        ensures AnswerAt(chain, a, events, k) == AnswerAt(chain, b, events, k)
      {
        if k < n {
          assert events[..n][..k] == events[..k];
          assert AnswerAt(chain, a, events[..n], k) == AnswerAt(chain, b, events[..n], k);
        }
      }
    }
  }

  /**
    A reload in whose middle others come in: they get the same answers, and the
    registry ends the same, as if the reload had not been interrupted.
   */
  lemma InterruptedReload(chain: Chain, st: State, secrets: map<ModuleId, string>, admin: string, env: ReloadEnv,
                          others: seq<Event>)
    requires secrets.Keys <= st.jwts.Keys
    ensures var first := ReloadStep(st, ReloadRequest(Some(secrets), None), env).0;
            var whole := ReloadStep(st, ReloadRequest(Some(secrets), Some(admin)), env).0;
            && Run(chain, first, others + [SetAdmin(admin)]).jwts == Run(chain, whole, others).jwts
            && forall k :: 0 <= k < |others| ==> AnswerAt(chain, first, others, k) == AnswerAt(chain, whole, others, k)
  {
    var first := ReloadStep(st, ReloadRequest(Some(secrets), None), env).0;
    var whole := ReloadStep(st, ReloadRequest(Some(secrets), Some(admin)), env).0;
    RunSnoc(chain, first, others, SetAdmin(admin));
    AdminIrrelevant(chain, first, whole, others);
  }

  /** The state has what the request asked for: its admin secret, and exactly its modules with its secrets. */
  ghost predicate Carries(st: State, request: ReloadRequest) {
    && (request.adminSecret.Some? ==> st.adminSecret == request.adminSecret.value)
    && (request.jwtSecrets.Some? ==>
          && st.jwts.Keys == request.jwtSecrets.value.Keys
          && forall id :: id in st.jwts ==> st.jwts[id].jwtSecret == request.jwtSecrets.value[id])
  }

  /** The request names only modules that are registered. */
  predicate NamesKnown(st: State, request: ReloadRequest) {
    request.jwtSecrets.Some? ==> forall id :: id in request.jwtSecrets.value ==> id in st.jwts
  }

  /**
    A reload is done exactly if the config loads, every named module is
    registered and the manager starts. If the config does not load or a module is
    unknown, nothing changes. Otherwise, whether or not the manager starts, what
    the request carries is in place and what it leaves out is as before.
   */
  lemma ReloadOutcome(st: State, request: ReloadRequest, env: ReloadEnv)
    ensures var (after, answer) := ReloadStep(st, request, env);
            && answer == (if env.configLoads && env.managerStarts && NamesKnown(st, request) then Done else Refused)
            && (if env.configLoads && NamesKnown(st, request) then
                  && Carries(after, request)
                  && (request.jwtSecrets.None? ==> after.jwts == st.jwts)
                  && (request.adminSecret.None? ==> after.adminSecret == st.adminSecret)
                  && (forall id :: id in after.jwts ==>
                        id in st.jwts && after.jwts[id].signingId == st.jwts[id].signingId)
                else after == st)
  {
  }

  /** The same at any point of a run, where a module is registered exactly if it has been all along. */
  lemma ReloadOnRun(chain: Chain, st: State, events: seq<Event>, k: nat)
    requires Named(st.jwts) && k < |events| && events[k].Reload?
    ensures var before, after := Run(chain, st, events[..k]), Run(chain, st, events[..k + 1]);
            var request, env := events[k].request, events[k].env;
            var known := request.jwtSecrets.Some? ==>
                           forall id :: id in request.jwtSecrets.value ==> AlwaysRegistered(chain, st, events[..k], id);
            && AnswerAt(chain, st, events, k) ==
               (if env.configLoads && env.managerStarts && known then Done else Refused)
            && (if env.configLoads && known then
                  && Carries(after, request)
                  && (request.jwtSecrets.None? ==> after.jwts == before.jwts)
                  && (request.adminSecret.None? ==> after.adminSecret == before.adminSecret)
                else after == before)
  {
    assert events[..k + 1][..k] == events[..k];
    ReloadOutcome(Run(chain, st, events[..k]), events[k].request, events[k].env);
    forall id
      ensures id in Run(chain, st, events[..k]).jwts <==> AlwaysRegistered(chain, st, events[..k], id)
    {
      RegisteredIff(chain, st, events[..k], id);
    }
  }

  /** The request brings nothing new: the same modules with the same secrets, and the same admin secret. */
  predicate BringsNothing(st: State, request: ReloadRequest) {
    && (request.jwtSecrets.Some? ==>
          && request.jwtSecrets.value.Keys == st.jwts.Keys
          && forall id :: id in st.jwts ==> st.jwts[id].jwtSecret == request.jwtSecrets.value[id])
    && (request.adminSecret.Some? ==> request.adminSecret.value == st.adminSecret)
  }

  lemma ReplacedIsSameIff(jwts: Modules, secrets: map<ModuleId, string>)
    requires Named(jwts) && secrets.Keys <= jwts.Keys
    ensures Replaced(jwts, secrets) == jwts <==>
            secrets.Keys == jwts.Keys && forall id :: id in jwts ==> jwts[id].jwtSecret == secrets[id]
  {
    var replaced := Replaced(jwts, secrets);
    if replaced == jwts {
      assert replaced.Keys == jwts.Keys;
      assert forall id :: id in jwts ==> replaced[id].jwtSecret == secrets[id];
    }
    if secrets.Keys == jwts.Keys && forall id :: id in jwts ==> jwts[id].jwtSecret == secrets[id] {
      assert forall id :: id in jwts ==> replaced[id] == jwts[id];
    }
  }

  /**
    A refused reload has left the state alone exactly when the config did not
    load, it named an unknown module, or it brought nothing new: one that fails
    at the manager has already been applied.
   */
  lemma RefusedReloadIff(st: State, request: ReloadRequest, env: ReloadEnv)
    requires Named(st.jwts) && ReloadStep(st, request, env).1 == Refused
    ensures ReloadStep(st, request, env).0 == st <==>
            || !env.configLoads
            || (request.jwtSecrets.Some? && exists id :: id in request.jwtSecrets.value && id !in st.jwts)
            || BringsNothing(st, request)
  {
    if request.jwtSecrets.Some? && request.jwtSecrets.value.Keys <= st.jwts.Keys {
      ReplacedIsSameIff(st.jwts, request.jwtSecrets.value);
    }
  }

  /** A refused reload that has replaced a module's secret. */
  lemma RefusedReloadApplied()
    ensures var st := State(map["m" := ModuleSigningConfig("m", "old", Word(1))], "admin");
            var request := ReloadRequest(Some(map["m" := "new"]), None);
            var (after, answer) := ReloadStep(st, request, ReloadEnv(true, false));
            answer == Refused && after != st && after.jwts["m"].jwtSecret == "new"
  {
    var st := State(map["m" := ModuleSigningConfig("m", "old", Word(1))], "admin");
    var request := ReloadRequest(Some(map["m" := "new"]), None);
    var after := ReloadStep(st, request, ReloadEnv(true, false)).0;
    assert after.jwts["m"].jwtSecret == "new" && st.jwts["m"].jwtSecret == "old";
    assert "new"[0] != "old"[0];
  }

  /** Over every run, two signatures given to different modules are never over the same root. */
  lemma NoSharedSignature(chain: Chain, st: State, events: seq<Event>, k: nat, l: nat)
    requires Named(st.jwts) && UniqueIds(st.jwts) && k < |events| && l < |events|
    requires events[k].Sign? && events[l].Sign? && events[k].moduleId != events[l].moduleId
    requires AnswerAt(chain, st, events, k).SignatureOver? && AnswerAt(chain, st, events, l).SignatureOver?
    ensures AnswerAt(chain, st, events, k) != AnswerAt(chain, st, events, l)
  {
    var a, b := events[k].moduleId, events[l].moduleId;
    SigningIdsNeverChange(chain, st, events[..k]);
    SigningIdsNeverChange(chain, st, events[..l]);
    assert a in st.jwts && b in st.jwts;
    ModuleRootsSeparate(chain, events[k].objectRoot, st.jwts[a].signingId,
                        chain, events[l].objectRoot, st.jwts[b].signingId);
  }

  /** At event k of the run a module gets a signature that is also one for a delegation. */
  ghost predicate GivesDelegation(chain: Chain, st: State, events: seq<Event>, k: nat, delegator: BlsKey,
                                  proxy: ProxyKey) {
    && k < |events| && events[k].Sign?
    && AnswerAt(chain, st, events, k) == SignatureOver(DelegationSigningRoot(chain, delegator, proxy))
  }

  /** What the module asked for and was, if its signature is one for a delegation. */
  lemma DelegationNeedsProxyId(chain: Chain, st: State, events: seq<Event>, k: nat, delegator: BlsKey, proxy: ProxyKey)
    requires Named(st.jwts) && UniqueIds(st.jwts) && GivesDelegation(chain, st, events, k, delegator, proxy)
    ensures var id := events[k].moduleId;
            && id in st.jwts && events[k].objectRoot == KeyRoot(delegator)
            && st.jwts[id].signingId == ProxyRoot(proxy)
  {
    var id := events[k].moduleId;
    SigningIdsNeverChange(chain, st, events[..k]);
    ModuleRootIsDelegationIff(chain, events[k].objectRoot, st.jwts[id].signingId, chain, delegator, proxy);
  }

  /** A registered module whose signing id is a proxy's root gets, by one request, any key's delegation to it. */
  lemma ProxyIdGivesDelegation(chain: Chain, st: State, id: ModuleId, delegator: BlsKey, proxy: ProxyKey)
    requires id in st.jwts && st.jwts[id].signingId == ProxyRoot(proxy)
    ensures GivesDelegation(chain, st, [Sign(id, KeyRoot(delegator), true)], 0, delegator, proxy)
  {
    var events := [Sign(id, KeyRoot(delegator), true)];
    assert events[..0] == [];
    ModuleRootIsDelegationIff(chain, KeyRoot(delegator), st.jwts[id].signingId, chain, delegator, proxy);
  }

  /** Two such registries, one for each kind of proxy. */
  lemma DelegationWitnesses(chain: Chain)
    ensures var bls := State(map["m" := ModuleSigningConfig("m", "secret", KeyRoot(7))], "admin");
            && Named(bls.jwts) && UniqueIds(bls.jwts)
            && GivesDelegation(chain, bls, [Sign("m", KeyRoot(5), true)], 0, 5, BlsProxy(7))
    ensures var ecdsa := State(map["m" := ModuleSigningConfig("m", "secret", Word(PaddedAddress(7)))], "admin");
            && Named(ecdsa.jwts) && UniqueIds(ecdsa.jwts)
            && GivesDelegation(chain, ecdsa, [Sign("m", KeyRoot(5), true)], 0, 5, EcdsaProxy(7))
  {
    var bls := State(map["m" := ModuleSigningConfig("m", "secret", KeyRoot(7))], "admin");
    ProxyIdGivesDelegation(chain, bls, "m", 5, BlsProxy(7));
    var ecdsa := State(map["m" := ModuleSigningConfig("m", "secret", Word(PaddedAddress(7)))], "admin");
    ProxyIdGivesDelegation(chain, ecdsa, "m", 5, EcdsaProxy(7));
  }

  /**
    Some run gives a module a signature for a delegation exactly when the
    signing id of some registered module has the shape of a proxy's root.
   */
  lemma DelegationReachableIff(chain: Chain, st: State)
    requires Named(st.jwts) && UniqueIds(st.jwts)
    ensures (exists events, k, delegator, proxy :: GivesDelegation(chain, st, events, k, delegator, proxy)) <==>
            exists id :: id in st.jwts && IsProxyRoot(st.jwts[id].signingId)
  {
    if exists events, k, delegator, proxy :: GivesDelegation(chain, st, events, k, delegator, proxy) {
      var events: seq<Event>, k: nat, delegator: BlsKey, proxy: ProxyKey :|
        GivesDelegation(chain, st, events, k, delegator, proxy);
      DelegationNeedsProxyId(chain, st, events, k, delegator, proxy);
      ProxyRootHasShape(proxy);
    }
    if exists id :: id in st.jwts && IsProxyRoot(st.jwts[id].signingId) {
      var id :| id in st.jwts && IsProxyRoot(st.jwts[id].signingId);
      var proxy := ShapeHasProxy(st.jwts[id].signingId);
      ProxyIdGivesDelegation(chain, st, id, 0, proxy);
    }
  }
}
