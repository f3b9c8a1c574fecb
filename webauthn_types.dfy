/**
 * The records the WebAuthn handlers read and write, the values they take
 * from the session and the verify library, and the responses they send.
 */
module WebAuthnTypes {
  import opened Wrappers
  import Base64Url

  type UserId = string

  /** A Buffer / Uint8Array. */
  type Bytes = seq<Base64Url.Byte>

  /**
   * The user record, as types/nextauth.d.ts augments it: `currentChallenge`
   * is `string | null`; an absent `is2FAEnabled` reads as false.
   */
  datatype UserRec = UserRec(
    id: UserId,
    name: Option<string>,
    currentChallenge: Option<string>,
    is2FAEnabled: bool)

  /** The server session; `id` is optional in its type. */
  datatype Session = Session(id: Option<UserId>)

  datatype DeviceType = SingleDevice | MultiDevice

  /** A stored authenticator, as both register handlers build it. */
  datatype Authenticator = Authenticator(
    credentialID: Bytes,
    credentialPublicKey: Bytes,
    counter: nat,
    credentialBackedUp: bool,
    credentialDeviceType: DeviceType)

  /** `registrationInfo` of a verification result; every field may be missing. */
  datatype RegistrationInfo = RegistrationInfo(
    credentialPublicKey: Option<Bytes>,
    credentialID: Option<Bytes>,
    counter: Option<nat>,
    credentialBackedUp: Option<bool>,
    credentialDeviceType: Option<DeviceType>)

  /** What a call of `verifyRegistrationResponse` does: throw, or return a result. */
  datatype VerifyOutcome =
    | Throws(message: string)
    | Returns(verified: bool, registrationInfo: Option<RegistrationInfo>)

  /**
   * The verify library applied to one request body with the fixed origin and
   * relying-party ID, as a function of the challenge it is told to expect.
   */
  type Verifier = string -> VerifyOutcome

  /** `{ id, type: "public-key" }` in an exclude or allow list. */
  datatype CredentialDescriptor = CredentialDescriptor(id: Bytes, credType: string)

  datatype RegistrationOptions = RegistrationOptions(
    rpName: string,
    rpID: string,
    userID: UserId,
    userName: string,
    attestationType: string,
    excludeCredentials: seq<CredentialDescriptor>,
    residentKey: string,
    userVerification: string,
    challenge: string)

  datatype AuthenticationOptions = AuthenticationOptions(
    allowCredentials: seq<CredentialDescriptor>,
    userVerification: string,
    rpID: string,
    challenge: string)

  datatype Body =
    | Text(text: string)
    | ErrorJson(error: string)
    | RegistrationOptionsJson(registration: RegistrationOptions)
    | AuthenticationOptionsJson(authentication: AuthenticationOptions)
    | VerifiedJson(verified: bool)
    | VerifiedAuthenticatorJson(verified: bool, authenticator: Authenticator, owner: UserId)

  /** An HTTP response; `NoResponse` when a handler returns without sending one. */
  datatype Response = Response(status: int, body: Body) | NoResponse

  /** The JavaScript truthiness test `if (expectedChallenge)`: null and "" are both false. */
  predicate HasChallenge(u: UserRec) {
    u.currentChallenge.Some? && u.currentChallenge.value != ""
  }

  /** Whether a verification result carries the two fields a new authenticator needs. */
  predicate Complete(info: Option<RegistrationInfo>) {
    info.Some? && info.value.credentialID.Some? && info.value.credentialPublicKey.Some?
  }

  /** The authenticator both register handlers store, with its documented defaults. */
  function NewAuthenticator(info: Option<RegistrationInfo>): Authenticator
    requires Complete(info)
  {
    var i := info.value;
    Authenticator(
      i.credentialID.value,
      i.credentialPublicKey.value,
      i.counter.GetOr(0),
      i.credentialBackedUp.GetOr(false),
      i.credentialDeviceType.GetOr(SingleDevice))
  }

  /** `authenticators.map(a => ({ id: a.credentialID, type: "public-key" }))` */
  function Descriptors(auths: seq<Authenticator>): (r: seq<CredentialDescriptor>)
  {
    seq(|auths|, i requires 0 <= i < |auths| => CredentialDescriptor(auths[i].credentialID, "public-key"))
  }

  /** What `generateAuthenticationOptions` is given, with the challenge it generates. */
  function AllowOptions(owned: seq<Authenticator>, rpID: string, challenge: string): AuthenticationOptions {
    AuthenticationOptions(Descriptors(owned), "preferred", rpID, challenge)
  }
}
