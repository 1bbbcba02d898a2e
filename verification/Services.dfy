/**
 `services/registration.py`, `services/authentication.py` and the mutating handlers of
 `api/router.py` as objects updating the shared stores in the order of the source. Each method is
 proved to take exactly the step that `Ceremony.ServerStep` describes, so the run properties proved
 there are properties of any interleaving of completed calls on these objects.
 */
module Services {
  import opened Prelude
  import opened Domain
  import opened Json
  import opened Repository
  import opened Ceremony
  import opened Memory
  import Base64Url

  class RegistrationService {
    const env: Env
    const credentials: InMemoryCredentialRepository
    const challenges: InMemoryChallengeStore
    const clock: FrozenClock
    const audit: AuditSink

    ghost predicate Valid()
      reads credentials
    {
      credentials.Valid() && challenges.clock == clock
    }

    ghost function State(): Server
      reads credentials, challenges, clock, audit
    {
      Server(World(credentials.byId, audit.events, clock.time), challenges.store)
    }

    constructor (env: Env, credentials: InMemoryCredentialRepository, challenges: InMemoryChallengeStore,
                 clock: FrozenClock, audit: AuditSink)
      requires credentials.Valid() && challenges.clock == clock
      ensures Valid()
      ensures this.env == env && this.credentials == credentials && this.challenges == challenges
      ensures this.clock == clock && this.audit == audit
    {
      this.env := env;
      this.credentials := credentials;
      this.challenges := challenges;
      this.clock := clock;
      this.audit := audit;
    }

    /** `begin`; the challenge and the handle are the fresh random values. */
    method Begin(user: User, challenge: Bytes, handle: Str) returns (existing: Repo)
      requires Valid()
      modifies challenges, audit
      ensures Valid()
      ensures var r := ServerStep(env, old(State()), RegisterBegin(user, challenge, handle));
              State() == r.0 && r.1 == Issued(challenge, existing, handle)
    {
      existing := ListByUser(credentials.byId, user.id);
      var now := clock.time;
      challenges.Put(RegistrationChallenge(challenge, user, now, now + env.config.challengeTtl), handle);
      audit.Emit(AuditEvent(RegistrationBegan, now, Some(user.id), None, None));
    }

    method Finish(response: Fields, handle: Str, deviceName: Str) returns (r: Result<Credential, PasskeyError>)
      requires Valid()
      modifies credentials, challenges, audit
      ensures Valid()
      ensures var s := ServerStep(env, old(State()), RegisterFinish(response, handle, deviceName));
              && State() == s.0
              && s.1 == match r case Ok(c) => Registered(c) case Err(e) => Failed(e)
    {
      var stored := challenges.Consume(handle);
      if stored == None || !stored.value.RegistrationChallenge? {
        Fail(ChallengeExpired, None);
        return Err(ChallengeNotFound);
      }
      var user := stored.value.user;
      var verified := env.verifyRegistration(response, stored.value.challenge);
      if verified.Err? {
        Fail(RegistrationFailed, Some(user.id));
        return Err(verified.error);
      }
      var v := verified.value;
      if Find(credentials.byId, v.credentialId) != None {
        Fail(RegistrationFailed, Some(user.id));
        return Err(CredentialAlreadyExists);
      }
      var now := clock.time;
      var credential := Credential(
        v.credentialId, user.id, v.publicKey, v.signCount, v.transports, v.aaguid,
        v.backupEligible, v.backupState, deviceName, env.config.residentKeyRequired,
        v.attestationFmt, Some(now), None);
      credentials.Add(credential);
      audit.Emit(AuditEvent(RegistrationSucceeded, now, Some(user.id), Some(Base64Url.Encode(v.credentialId)), None));
      return Ok(credential);
    }

    method Fail(kind: EventType, userId: Option<Str>)
      modifies audit
      ensures audit.events == old(audit.events) + [AuditEvent(kind, clock.time, userId, None, None)]
    {
      audit.Emit(AuditEvent(kind, clock.time, userId, None, None));
    }
  }

  datatype AuthenticationResult = AuthenticationResult(userId: Str, credential: Credential, userVerified: bool)

  class AuthenticationService {
    const env: Env
    const credentials: InMemoryCredentialRepository
    const challenges: InMemoryChallengeStore
    const clock: FrozenClock
    const audit: AuditSink

    ghost predicate Valid()
      reads credentials
    {
      credentials.Valid() && challenges.clock == clock
    }

    ghost function State(): Server
      reads credentials, challenges, clock, audit
    {
      Server(World(credentials.byId, audit.events, clock.time), challenges.store)
    }

    constructor (env: Env, credentials: InMemoryCredentialRepository, challenges: InMemoryChallengeStore,
                 clock: FrozenClock, audit: AuditSink)
      requires credentials.Valid() && challenges.clock == clock
      ensures Valid()
      ensures this.env == env && this.credentials == credentials && this.challenges == challenges
      ensures this.clock == clock && this.audit == audit
    {
      this.env := env;
      this.credentials := credentials;
      this.challenges := challenges;
      this.clock := clock;
      this.audit := audit;
    }

    method Begin(userId: Option<Str>, challenge: Bytes, handle: Str) returns (allow: Repo)
      requires Valid()
      modifies challenges, audit
      ensures Valid()
      ensures var r := ServerStep(env, old(State()), AuthenticateBegin(userId, challenge, handle));
              State() == r.0 && r.1 == Issued(challenge, allow, handle)
    {
      allow := [];
      if userId != None && userId.value != [] {
        allow := ListByUser(credentials.byId, userId.value);
      }
      var now := clock.time;
      challenges.Put(AuthenticationChallenge(challenge, userId, now, now + env.config.challengeTtl), handle);
      audit.Emit(AuditEvent(AuthenticationBegan, now, userId, None, None));
    }

    method Finish(response: Fields, handle: Str) returns (r: Result<AuthenticationResult, PasskeyError>)
      requires Valid()
      modifies credentials, challenges, audit
      ensures Valid()
      ensures var s := ServerStep(env, old(State()), AuthenticateFinish(response, handle));
              && State() == s.0
              && s.1 == match r
                        case Ok(a) => Authenticated(a.userId, a.credential, a.userVerified)
                        case Err(e) => Failed(e)
    {
      var stored := challenges.Consume(handle);
      if stored == None || !stored.value.AuthenticationChallenge? {
        Fail(ChallengeExpired, None);
        return Err(ChallengeNotFound);
      }
      var resolved := ResolveCredential(response, stored.value);
      if resolved.Err? {
        return Err(resolved.error);
      }
      var credential := resolved.value;
      var verified := env.verifyAuthentication(response, stored.value.challenge, credential);
      if verified.Err? {
        Fail(AuthenticationFailed, Some(credential.userId));
        return Err(verified.error);
      }
      var advanced := EnforceSignCount(credential, verified.value);
      if !advanced {
        return Err(CloneDetectedError);
      }
      var now := clock.time;
      credentials.UpdateUsage(credential.credentialId, verified.value.newSignCount, now);
      audit.Emit(AuditEvent(AuthenticationSucceeded, now, Some(credential.userId),
                            Some(Base64Url.Encode(credential.credentialId)), None));
      var updated := credential.(signCount := verified.value.newSignCount, lastUsedAt := Some(now));
      return Ok(AuthenticationResult(credential.userId, updated, verified.value.userVerified));
    }

    method ResolveCredential(response: Fields, stored: Challenge) returns (r: Result<Credential, PasskeyError>)
      requires stored.AuthenticationChallenge?
      modifies audit
      ensures match Resolve(credentials.byId, response, stored.userId)
              case Some(c) => r == Ok(c) && audit.events == old(audit.events)
              case None => r == Err(CredentialNotFound)
                           && audit.events == old(audit.events) + [AuditEvent(AuthenticationFailed, clock.time, stored.userId, None, None)]
    {
      var id := CredentialIdFrom(response);
      var credential: Option<Credential> := None;
      if id != None {
        credential := Find(credentials.byId, id.value);
      }
      if credential == None || (stored.userId != None && credential.value.userId != stored.userId.value) {
        Fail(AuthenticationFailed, stored.userId);
        return Err(CredentialNotFound);
      }
      return Ok(credential.value);
    }

    /** True when the ceremony may go on; otherwise the clone has been reported and, by policy, revoked. */
    method EnforceSignCount(credential: Credential, verified: VerifiedAuthentication) returns (ok: bool)
      requires credentials.Valid()
      modifies credentials, audit
      ensures credentials.Valid()
      ensures ok <==> CountAdvances(credential.signCount, verified.newSignCount)
      ensures ok ==> credentials.byId == old(credentials.byId) && audit.events == old(audit.events)
      ensures !ok ==> audit.events == old(audit.events)
                                      + [AuditEvent(CloneSuspected, clock.time, Some(credential.userId),
                                                    Some(Base64Url.Encode(credential.credentialId)),
                                                    Some((credential.signCount, verified.newSignCount)))]
      ensures !ok ==> credentials.byId ==
                      if env.config.signCountPolicy.FlagDisable?
                      then Repository.Delete(old(credentials.byId), credential.credentialId, credential.userId)
                      else old(credentials.byId)
    {
      var before, after := credential.signCount, verified.newSignCount;
      if after == 0 && before == 0 {
        return true;
      }
      if after > before {
        return true;
      }
      audit.Emit(AuditEvent(CloneSuspected, clock.time, Some(credential.userId),
                            Some(Base64Url.Encode(credential.credentialId)), Some((before, after))));
      if env.config.signCountPolicy == FlagDisable {
        credentials.Delete(credential.credentialId, credential.userId);
      }
      return false;
    }

    method Fail(kind: EventType, userId: Option<Str>)
      modifies audit
      ensures audit.events == old(audit.events) + [AuditEvent(kind, clock.time, userId, None, None)]
    {
      audit.Emit(AuditEvent(kind, clock.time, userId, None, None));
    }
  }

  /** The facade's two mutating handlers; the user is the one `get_user` resolved. */
  class Passkeys {
    const registration: RegistrationService
    const authentication: AuthenticationService

    constructor (env: Env, credentials: InMemoryCredentialRepository, challenges: InMemoryChallengeStore,
                 clock: FrozenClock, audit: AuditSink)
      requires credentials.Valid() && challenges.clock == clock
      ensures registration.Valid() && authentication.Valid()
      ensures registration.State() == authentication.State()
    {
      registration := new RegistrationService(env, credentials, challenges, clock, audit);
      authentication := new AuthenticationService(env, credentials, challenges, clock, audit);
    }

    method RenameCredential(userId: Str, credentialId: Str, name: Str)
      requires registration.Valid()
      modifies registration.credentials
      ensures registration.Valid()
      ensures registration.State() ==
              ServerStep(registration.env, old(registration.State()), Op.RenameCredential(userId, credentialId, name)).0
    {
      var raw := Base64Url.Decode(credentialId);
      if raw != None {
        registration.credentials.Rename(raw.value, userId, name);
      }
    }

    method DeleteCredential(userId: Str, credentialId: Str)
      requires registration.Valid()
      modifies registration.credentials, registration.audit
      ensures registration.Valid()
      ensures registration.State() ==
              ServerStep(registration.env, old(registration.State()), RevokeCredential(userId, credentialId)).0
    {
      var raw := Base64Url.Decode(credentialId);
      if raw != None {
        registration.credentials.Delete(raw.value, userId);
        registration.audit.Emit(
          AuditEvent(CredentialRevoked, registration.clock.time, Some(userId), Some(credentialId), None));
      }
    }
  }
}
