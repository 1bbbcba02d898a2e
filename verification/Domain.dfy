/** Entities and value objects of `domain/`, `audit.py`, `exceptions.py` and the policy fields of `config.py`. */
module Domain {
  import opened Prelude

  datatype User = User(id: Str, name: Str, displayName: Str)

  datatype Transport = Usb | Nfc | Ble | Internal | Hybrid

  datatype Credential = Credential(
    credentialId: Bytes,
    userId: Str,
    publicKey: Bytes,
    signCount: nat,
    transports: seq<Transport>,
    aaguid: Option<Bytes>,
    backupEligible: bool,
    backupState: bool,
    deviceName: Str,
    isDiscoverable: bool,
    attestationFmt: Option<Str>,
    createdAt: Option<Instant>,
    lastUsedAt: Option<Instant>)

  /** The constructor is the ceremony the challenge is bound to. */
  datatype Challenge =
    | RegistrationChallenge(challenge: Bytes, user: User, createdAt: Instant, expiresAt: Instant)
    | AuthenticationChallenge(challenge: Bytes, userId: Option<Str>, createdAt: Instant, expiresAt: Instant)

  datatype VerifiedRegistration = VerifiedRegistration(
    credentialId: Bytes,
    publicKey: Bytes,
    signCount: nat,
    transports: seq<Transport>,
    aaguid: Option<Bytes>,
    backupEligible: bool,
    backupState: bool,
    attestationFmt: Option<Str>)

  datatype VerifiedAuthentication = VerifiedAuthentication(
    credentialId: Bytes,
    newSignCount: nat,
    userVerified: bool)

  datatype PasskeyError =
    | ChallengeNotFound
    | CredentialAlreadyExists
    | AttestationVerificationError
    | CredentialNotFound
    | AssertionVerificationError
    | CloneDetectedError

  datatype SignCountPolicy = StrictReject | FlagDisable

  datatype Config = Config(
    challengeTtl: nat,
    signCountPolicy: SignCountPolicy,
    residentKeyRequired: bool)

  datatype EventType =
    | RegistrationBegan
    | RegistrationSucceeded
    | RegistrationFailed
    | AuthenticationBegan
    | AuthenticationSucceeded
    | AuthenticationFailed
    | ChallengeExpired
    | CloneSuspected
    | CredentialRevoked

  /** `detail` is filled only by clone suspicion: the stored and the presented count. */
  datatype AuditEvent = AuditEvent(
    kind: EventType,
    timestamp: Instant,
    userId: Option<Str>,
    credentialId: Option<Str>,
    detail: Option<(nat, nat)>)
}
