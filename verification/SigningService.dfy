/**
  The signer service's shared state and its handlers, each of which runs its
  critical sections over it. The state remembers, for the proofs, everything
  that has happened to it.
 */
module SigningService {
  import opened Wrappers
  import opened Types
  import opened SigningRoot
  import Limiter
  import opened Registry

  class SigningState {
    var jwts: Modules
    var adminSecret: string
    var jwtAuthFailures: Limiter.Failures
    const settings: Limiter.Settings
    const chain: Chain

    /** How the service was started, and what has happened to the registry since. */
    ghost const initial: State
    ghost var events: seq<Event>

    /** The critical sections on the failures, the requests between their two, and the most there were. */
    ghost var steps: seq<Limiter.Step>
    ghost var inFlight: map<Limiter.Ip, nat>
    ghost var peak: nat

    /** The requests that have been authenticated. */
    ghost var requests: seq<Limiter.Request>

    ghost function Modelled(): State
      reads this
    {
      State(jwts, adminSecret)
    }

    ghost function Failures(): Limiter.Shared
      reads this
    {
      Limiter.Shared(jwtAuthFailures, inFlight)
    }

    /** The state is what the runs of the registry and of the limiter lead to. */
    ghost predicate Valid()
      reads this
    {
      && Named(initial.jwts) && UniqueIds(initial.jwts)
      && Modelled() == Run(chain, initial, events)
      && Limiter.Interleave(settings, peak, steps) == Some(Failures())
    }

    /** So far each request was authenticated before the next, by a clock that does not go back. */
    ghost predicate OneAtATime()
      reads this
    {
      Limiter.NonDecreasing(requests) && jwtAuthFailures == Limiter.Run(settings, requests)
    }

    /** No peer has more failures, counting those still to come, than the limit and the concurrency allow. */
    ghost predicate WithinBound()
      reads this
    {
      settings.limit >= 1 ==>
        forall ip :: Limiter.Count(Failures(), ip) + Limiter.InFlight(Failures(), ip) <= settings.limit - 1 + peak
    }

    /** The module has been registered all along. */
    ghost predicate Registered(id: ModuleId)
      reads this
    {
      AlwaysRegistered(chain, initial, events, id)
    }

    constructor (chain: Chain, jwts: Modules, adminSecret: string, settings: Limiter.Settings)
      requires Named(jwts) && UniqueIds(jwts)
      ensures Valid() && OneAtATime() && initial == State(jwts, adminSecret) && events == [] && requests == []
      ensures this.chain == chain && this.settings == settings && jwtAuthFailures == map[]
    {
      this.chain := chain;
      this.jwts := jwts;
      this.adminSecret := adminSecret;
      this.settings := settings;
      this.jwtAuthFailures := map[];
      this.initial := State(jwts, adminSecret);
      this.events := [];
      this.steps := [];
      this.inFlight := map[];
      this.peak := 0;
      this.requests := [];
    }

    /** The service starts exactly on an acceptable configuration with modules, if its manager starts. */
    static method Start(chain: Chain, modules: Option<seq<StaticModule>>, secrets: map<ModuleId, string>,
                        adminSecret: string, settings: Limiter.Settings, managerStarts: bool)
      returns (state: SigningState?)
      ensures state != null <==>
              modules.Some? && modules.value != [] && Acceptable(modules.value, secrets) && managerStarts
      ensures state != null ==>
                && fresh(state) && state.Valid() && state.OneAtATime() && state.jwtAuthFailures == map[]
                && Declares(modules.value, secrets, state.jwts) && state.adminSecret == adminSecret
                && state.chain == chain && state.settings == settings
    {
      var loaded := LoadModuleSigningConfigs(modules, secrets);
      if loaded.Err? {
        return null;
      }
      NoModulesIff(modules.value, secrets, loaded.value);
      if loaded.value == map[] {
        return null;
      }
      if !managerStarts {
        return null;
      }
      LoadedRegistryIsUnique(modules.value, secrets, loaded.value);
      state := new SigningState(chain, loaded.value, adminSecret, settings);
    }

    /**
      The first critical section of a request. Among requests that came one at a
      time, it stops exactly those whose peer is blocked by its history.
     */
    method CheckJwtRateLimit(clientIp: Limiter.Ip, now: nat) returns (pass: bool)
      requires Valid()
      modifies this`jwtAuthFailures, this`steps, this`inFlight, this`peak
      ensures Valid() && WithinBound() && peak >= old(peak)
      ensures (jwtAuthFailures, pass) == Limiter.Check(settings, old(jwtAuthFailures), clientIp, now)
      ensures forall ip :: Limiter.InFlight(Failures(), ip) ==
                           Limiter.InFlight(old(Failures()), ip) + if pass && ip == clientIp then 1 else 0
      ensures old(OneAtATime()) && Limiter.Clock(requests) <= now ==>
                (pass <==> !Limiter.Blocked(settings, Limiter.FailureTimes(settings, requests, clientIp), now))
    {
      ghost var before := Failures();
      pass := true;
      if clientIp in jwtAuthFailures {
        var info := jwtAuthFailures[clientIp];
        if now - info.lastFailure > settings.timeout {
          jwtAuthFailures := jwtAuthFailures - {clientIp};
        } else {
          pass := info.failureCount < settings.limit;
        }
      }
      Enter(before, clientIp, now, pass);
      if old(OneAtATime()) && Limiter.Clock(requests) <= now {
        Limiter.CheckRefinesHistory(settings, requests, clientIp, now);
      }
    }

    /** A request that passed the check is in flight. */
    ghost method Enter(before: Limiter.Shared, clientIp: Limiter.Ip, now: nat, pass: bool)
      requires Named(initial.jwts) && UniqueIds(initial.jwts) && Modelled() == Run(chain, initial, events)
      requires Limiter.Interleave(settings, peak, steps) == Some(before) && before.inFlight == inFlight
      requires (jwtAuthFailures, pass) == Limiter.Check(settings, before.failures, clientIp, now)
      modifies this`steps, this`inFlight, this`peak
      ensures Valid() && WithinBound() && peak >= old(peak)
      ensures forall ip :: Limiter.InFlight(Failures(), ip) ==
                           Limiter.InFlight(before, ip) + if pass && ip == clientIp then 1 else 0
    {
      var n := Limiter.InFlight(before, clientIp) + 1;
      inFlight := if pass then inFlight[clientIp := n] else inFlight;
      SectionTaken(before, Limiter.CheckStep(clientIp, now), if n > peak then n else peak);
    }

    /** Book a critical section that has led from one state of the failures to the present one. */
    ghost method SectionTaken(before: Limiter.Shared, step: Limiter.Step, most: nat)
      requires Named(initial.jwts) && UniqueIds(initial.jwts) && Modelled() == Run(chain, initial, events)
      requires Limiter.Interleave(settings, peak, steps) == Some(before) && most >= peak
      requires Limiter.Next(settings, most, before, step) == Some(Failures())
      modifies this`steps, this`peak
      ensures Valid() && WithinBound() && peak == most
    {
      Limiter.MoreInFlight(settings, peak, most, steps);
      Limiter.InterleaveSnoc(settings, most, steps, step);
      steps := steps + [step];
      peak := most;
      if settings.limit >= 1 {
        forall ip
          ensures Limiter.Count(Failures(), ip) + Limiter.InFlight(Failures(), ip) <= settings.limit - 1 + peak
        {
          Limiter.ConcurrentBound(settings, peak, steps, ip);
        }
      }
    }

    /** The second critical section of a request in flight that fails to authenticate. */
    method RecordFailure(clientIp: Limiter.Ip, now: nat)
      requires Valid() && Limiter.InFlight(Failures(), clientIp) > 0
      modifies this`jwtAuthFailures, this`steps, this`inFlight, this`peak
      ensures Valid() && WithinBound() && peak == old(peak)
      ensures jwtAuthFailures == Limiter.Record(old(jwtAuthFailures), clientIp, now)
      ensures forall ip :: Limiter.InFlight(Failures(), ip) ==
                           Limiter.InFlight(old(Failures()), ip) - if ip == clientIp then 1 else 0
    {
      ghost var before := Failures();
      if clientIp !in jwtAuthFailures {
        jwtAuthFailures := jwtAuthFailures[clientIp := Limiter.FailureInfo(0, now)];
      }
      var info := jwtAuthFailures[clientIp];
      jwtAuthFailures := jwtAuthFailures[clientIp := Limiter.FailureInfo(info.failureCount + 1, now)];
      inFlight := inFlight[clientIp := Limiter.InFlight(before, clientIp) - 1];
      assert jwtAuthFailures == Limiter.Record(before.failures, clientIp, now);
      SectionTaken(before, Limiter.FailStep(clientIp, now), peak);
    }

    /** A request in flight authenticates. */
    ghost method Leave(clientIp: Limiter.Ip)
      requires Valid() && Limiter.InFlight(Failures(), clientIp) > 0
      modifies this`steps, this`inFlight, this`peak
      ensures Valid() && WithinBound() && peak == old(peak)
      ensures forall ip :: Limiter.InFlight(Failures(), ip) ==
                           Limiter.InFlight(old(Failures()), ip) - if ip == clientIp then 1 else 0
    {
      var before := Failures();
      inFlight := inFlight[clientIp := Limiter.InFlight(before, clientIp) - 1];
      SectionTaken(before, Limiter.PassStep(clientIp), peak);
    }

    /** The two critical sections of a request around its authentication, without interference. */
    method Authenticated(clientIp: Limiter.Ip, token: Token, now: nat) returns (verdict: Limiter.Verdict)
      requires Valid()
      modifies this`jwtAuthFailures, this`steps, this`inFlight, this`peak, this`events
      ensures Valid() && WithinBound()
      ensures forall ip :: Limiter.InFlight(Failures(), ip) == Limiter.InFlight(old(Failures()), ip)
      ensures var req := Limiter.Request(clientIp, now, CheckAuth(old(Modelled()), token).Some?);
              (jwtAuthFailures, verdict) == Limiter.Handle(settings, old(jwtAuthFailures), req)
    {
      var pass := CheckJwtRateLimit(clientIp, now);
      if !pass {
        return Limiter.RateLimited;
      }
      var moduleId := CheckJwtAuth(token);
      if moduleId.Some? {
        Leave(clientIp);
        return Limiter.Accepted;
      }
      RecordFailure(clientIp, now);
      return Limiter.Unauthorized;
    }

    /**
      The authentication layer on one request. Among requests that came one at a
      time a request is limited exactly if its peer is blocked by its history;
      otherwise it is accepted exactly if its token is that of a module registered
      all along, and an unauthorized one adds one failure.
     */
    method JwtAuth(clientIp: Limiter.Ip, token: Token, now: nat) returns (verdict: Limiter.Verdict)
      requires Valid()
      modifies this`jwtAuthFailures, this`steps, this`inFlight, this`peak, this`requests, this`events
      ensures Valid() && WithinBound()
      ensures forall ip :: Limiter.InFlight(Failures(), ip) == Limiter.InFlight(old(Failures()), ip)
      ensures var genuine := && token.decodes && old(Registered(token.moduleId)) && token.unexpired
                             && CurrentSecret(chain, initial, old(events), token.moduleId) == Some(token.signedWith);
              var req := Limiter.Request(clientIp, now, genuine);
              && Limiter.CountsFailure(settings, old(jwtAuthFailures), req, jwtAuthFailures, verdict)
              && (verdict != Limiter.RateLimited ==> (verdict == Limiter.Accepted <==> genuine))
              && (old(OneAtATime()) && Limiter.Clock(old(requests)) <= now ==>
                    && OneAtATime() && requests == old(requests) + [req]
                    && var times := Limiter.FailureTimes(settings, old(requests), clientIp);
                       (verdict == Limiter.RateLimited <==> Limiter.Blocked(settings, times, now)))
    {
      ghost var req := Limiter.Request(clientIp, now, CheckAuth(Modelled(), token).Some?);
      RegisteredIff(chain, initial, events, token.moduleId);
      Limiter.HandleCounts(settings, jwtAuthFailures, req);
      if OneAtATime() && Limiter.Clock(requests) <= now {
        Limiter.RunSnoc(settings, requests, req);
        Limiter.CheckRefinesHistory(settings, requests, clientIp, now);
      }
      verdict := Authenticated(clientIp, token, now);
      requests := requests + [req];
    }

    /** A token is accepted exactly if its module has been registered all along and its present secret signed it. */
    method CheckJwtAuth(token: Token) returns (moduleId: Option<ModuleId>)
      requires Valid()
      modifies this`events
      ensures Valid() && events == old(events) + [Authenticate(token)]
      ensures moduleId == CheckAuth(Modelled(), token)
      ensures moduleId.Some? <==>
              && token.decodes && old(Registered(token.moduleId)) && token.unexpired
              && CurrentSecret(chain, initial, old(events), token.moduleId) == Some(token.signedWith)
      ensures moduleId.Some? ==> moduleId.value == token.moduleId
    {
      RegisteredIff(chain, initial, events, token.moduleId);
      RunSnoc(chain, initial, events, Authenticate(token));
      events := events + [Authenticate(token)];
      if !token.decodes {
        return None;
      }
      if token.moduleId !in jwts {
        return None;
      }
      if jwts[token.moduleId].jwtSecret != token.signedWith || !token.unexpired {
        return None;
      }
      return Some(token.moduleId);
    }

    /**
      A module gets a signature exactly if it has been registered all along, at
      the time of this lookup and not only of its authentication. The signature
      verifies on a chain, for a message and a signing id, exactly if these are the
      fork version, the message and the signing id the module started with; it is
      over another root than every signature that a different module ever got.
     */
    method HandleRequestSignature(moduleId: ModuleId, objectRoot: Root, managerSigns: bool) returns (answer: Answer)
      requires Valid()
      modifies this`events
      ensures Valid() && events == old(events) + [Sign(moduleId, objectRoot, managerSigns)]
      ensures answer.SignatureOver? <==> managerSigns && old(Registered(moduleId))
      ensures !answer.SignatureOver? ==> answer == Refused
      ensures answer.SignatureOver? ==>
                && moduleId in initial.jwts
                && answer.root == VerifiedRoot(chain, objectRoot, initial.jwts[moduleId].signingId)
      ensures answer.SignatureOver? ==>
                forall other, data, id :: SeparateHash(chain, other) ==>
                  (answer.root == VerifiedRoot(other, data, id) <==>
                   && other.forkVersion == chain.forkVersion && data == objectRoot
                   && id == initial.jwts[moduleId].signingId)
      ensures answer.SignatureOver? ==>
                forall k :: 0 <= k < |old(events)| && events[k].Sign? && events[k].moduleId != moduleId ==>
                              AnswerAt(chain, initial, events, k) != answer
    {
      ghost var event := Sign(moduleId, objectRoot, managerSigns);
      RegisteredIff(chain, initial, events, moduleId);
      SigningIdsNeverChange(chain, initial, events);
      RunSnoc(chain, initial, events, event);
      events := events + [event];
      if moduleId !in jwts {
        return Refused;
      }
      if !managerSigns {
        return Refused;
      }
      var signingId := jwts[moduleId].signingId;
      answer := SignatureOver(PropCommitSigningRoot(chain, objectRoot, Some(signingId), COMMIT_BOOST_DOMAIN));
      forall other, data, id | SeparateHash(chain, other)
        ensures answer.root == VerifiedRoot(other, data, id) <==>
                other.forkVersion == chain.forkVersion && data == objectRoot && id == signingId
      {
        ModuleRootsSeparate(chain, objectRoot, signingId, other, data, id);
      }
      ghost var last := |events| - 1;
      forall k | 0 <= k < last && events[k].Sign? && events[k].moduleId != moduleId
        ensures AnswerAt(chain, initial, events, k) != answer
      {
        if AnswerAt(chain, initial, events, k).SignatureOver? {
          NoSharedSignature(chain, initial, events, k, last);
        }
      }
    }

    /** Revoking succeeds exactly if the module has been registered all along; from then on it has left. */
    method HandleRevokeModule(moduleId: ModuleId) returns (answer: Answer)
      requires Valid()
      modifies this`jwts, this`events
      ensures Valid() && events == old(events) + [Revoke(moduleId)]
      ensures answer == if old(Registered(moduleId)) then Done else Refused
      ensures !Registered(moduleId) && jwts == old(jwts) - {moduleId}
    {
      ghost var after := events + [Revoke(moduleId)];
      assert moduleId in jwts <==> Registered(moduleId) by {
        RegisteredIff(chain, initial, events, moduleId);
      }
      assert Run(chain, initial, after) == Step(chain, Modelled(), Revoke(moduleId)).0 by {
        RunSnoc(chain, initial, events, Revoke(moduleId));
      }
      assert !AlwaysRegistered(chain, initial, after, moduleId) by {
        RegisteredIff(chain, initial, after, moduleId);
      }
      events := after;
      if moduleId !in jwts {
        return Refused;
      }
      jwts := jwts - {moduleId};
      return Done;
    }

    /** The loop of the reload handler over the request's map, in any order. */
    method NewConfigs(secrets: map<ModuleId, string>) returns (res: Option<Modules>)
      ensures res.Some? <==> secrets.Keys <= jwts.Keys
      ensures res.Some? ==> res.value == Replaced(jwts, secrets)
    {
      var newConfigs: Modules := map[];
      var remaining := secrets.Keys;
      while remaining != {}
        invariant remaining <= secrets.Keys && secrets.Keys - remaining <= jwts.Keys
        invariant newConfigs.Keys == secrets.Keys - remaining
        invariant forall id :: id in newConfigs ==>
                                 newConfigs[id] == ModuleSigningConfig(id, secrets[id], jwts[id].signingId)
        decreases |remaining|
      {
        var id :| id in remaining;
        if id !in jwts {
          return None;
        }
        newConfigs := newConfigs[id := ModuleSigningConfig(id, secrets[id], jwts[id].signingId)];
        remaining := remaining - {id};
      }
      return Some(newConfigs);
    }

    /** The reload handler on the shared state. */
    method ApplyReload(request: ReloadRequest, env: ReloadEnv) returns (answer: Answer)
      modifies this`jwts, this`adminSecret
      ensures (Modelled(), answer) == ReloadStep(old(Modelled()), request, env)
    {
      if !env.configLoads {
        return Refused;
      }
      if request.jwtSecrets.Some? {
        var newConfigs := NewConfigs(request.jwtSecrets.value);
        if newConfigs.None? {
          return Refused;
        }
        jwts := newConfigs.value;
      }
      if request.adminSecret.Some? {
        adminSecret := request.adminSecret.value;
      }
      return if env.managerStarts then Done else Refused;
    }

    /**
      A reload is done exactly if the config loads, every named module has been
      registered all along, and the manager starts. If the config does not load or
      a named module is unknown or has left, nothing changes. Otherwise, even if
      the manager does not start, what the request carries is in place and what it
      leaves out is as before; signing ids stay those the modules started with.
     */
    method HandleReload(request: ReloadRequest, env: ReloadEnv) returns (answer: Answer)
      requires Valid()
      modifies this`jwts, this`adminSecret, this`events
      ensures Valid() && events == old(events) + [Reload(request, env)]
      ensures var known := request.jwtSecrets.Some? ==>
                             forall id :: id in request.jwtSecrets.value ==> old(Registered(id));
              && answer == (if env.configLoads && env.managerStarts && known then Done else Refused)
              && (if env.configLoads && known then
                    && Carries(Modelled(), request)
                    && (request.jwtSecrets.None? ==> jwts == old(jwts))
                    && (request.adminSecret.None? ==> adminSecret == old(adminSecret))
                  else jwts == old(jwts) && adminSecret == old(adminSecret))
      ensures jwts.Keys <= old(jwts).Keys <= initial.jwts.Keys
      ensures forall id :: id in jwts ==> jwts[id].signingId == initial.jwts[id].signingId
    {
      ghost var before, after := events, events + [Reload(request, env)];
      forall id
        ensures id in jwts <==> Registered(id)
      {
        RegisteredIff(chain, initial, before, id);
      }
      assert Run(chain, initial, after) == ReloadStep(Modelled(), request, env).0 by {
        RunSnoc(chain, initial, before, Reload(request, env));
      }
      SigningIdsNeverChange(chain, initial, before);
      SigningIdsNeverChange(chain, initial, after);
      ReloadOutcome(Modelled(), request, env);
      answer := ApplyReload(request, env);
      events := after;
    }
  }
}
