/**
 * The registration route over the key-value store,
 * app/api/2fa/webauthn/register/route.ts: `GET` issues registration options
 * and remembers their challenge in the user record; `POST` verifies the
 * response, stores the user's one authenticator and turns two-factor
 * authentication on.
 */
module RegisterRoute {
  import opened Wrappers
  import opened WebAuthnTypes
  import opened KvStore

  const RpName: string := "NextAuth.js + Upstash + SimpleWebAuthn Example"

  /** The relying-party ID the auth route exports, by deployment. */
  function RpID(production: bool): string {
    if production then "next-auth-webauthn.vercel.app" else "localhost"
  }

  /** The options `GET` sends: nothing is ever excluded. */
  function OptionsFor(u: UserRec, production: bool, challenge: string): RegistrationOptions {
    RegistrationOptions(
      RpName, RpID(production), u.id, u.name.GetOr(""),
      "none", [], "required", "preferred",
      challenge)
  }

  /**
   * `GET`'s guards: a session whose id is truthy (defined and not "") and
   * names a `user:<id>` record.
   */
  predicate KnownUser(users: map<UserId, UserRec>, session: Option<Session>) {
    session.Some? && session.value.id.Some? && session.value.id.value != ""
    && session.value.id.value in users
  }

  /** `GET`; `challenge` is the one `generateRegistrationOptions` would generate. */
  method Get(kv: Kv, session: Option<Session>, production: bool, challenge: string) returns (response: Response)
    modifies kv
    // No session, an undefined or empty id, or no `user:<id>` record: 401
    // and nothing written (`!userId` holds for "" too).
    ensures !KnownUser(old(kv.users), session) ==>
      response == Response(401, Text("Unauthorized")) && unchanged(kv)
    // Otherwise the record is rewritten with the new challenge and every other field kept.
    ensures KnownUser(old(kv.users), session) ==>
      var id := session.value.id.value;
      var u := old(kv.users)[id];
      && response == Response(200, RegistrationOptionsJson(OptionsFor(u, production, challenge)))
      && response.body.registration.excludeCredentials == []
      && kv.users == old(kv.users)[id := u.(currentChallenge := Some(challenge))]
      && kv.authenticatorByUser == old(kv.authenticatorByUser)
  {
    if session.None? {
      return Response(401, Text("Unauthorized"));
    }
    var userId := session.value.id;
    if userId.None? || userId.value == "" {
      return Response(401, Text("Unauthorized"));
    }
    if userId.value !in kv.users {
      return Response(401, Text("Unauthorized"));
    }
    var user := kv.users[userId.value];
    var options := OptionsFor(user, production, challenge);
    kv.SetUser(userId.value, user.(currentChallenge := Some(options.challenge)));
    response := Response(200, RegistrationOptionsJson(options));
  }

  /**
   * `POST`; `verify` is `verifyRegistrationResponse` on this request's body,
   * as a function of the expected challenge. The session's id is not
   * checked: an undefined one reads the record `user:undefined`.
   */
  method Post(kv: Kv, session: Option<Session>, verify: Verifier) returns (response: Response)
    modifies kv
    ensures !(session.Some? && KeyPart(session.value.id) in old(kv.users)) ==>
      response == Response(401, Text("Unauthorized")) && unchanged(kv)
    // No stored challenge: verify is never consulted; 401, nothing written.
    ensures session.Some? && KeyPart(session.value.id) in old(kv.users) ==>
      !HasChallenge(old(kv.users)[KeyPart(session.value.id)]) ==>
        response == Response(401, Text("Unauthorized")) && unchanged(kv)
    // verify throws: 400 with a JSON error, nothing written.
    ensures session.Some? && KeyPart(session.value.id) in old(kv.users) ==>
      var u := old(kv.users)[KeyPart(session.value.id)];
      HasChallenge(u) && verify(u.currentChallenge.value).Throws? ==>
        response == Response(400, ErrorJson(verify(u.currentChallenge.value).message)) && unchanged(kv)
    // No credential ID or public key in the result: 401, nothing written.
    ensures session.Some? && KeyPart(session.value.id) in old(kv.users) ==>
      var u := old(kv.users)[KeyPart(session.value.id)];
      HasChallenge(u) && verify(u.currentChallenge.value).Returns?
        && !Complete(verify(u.currentChallenge.value).registrationInfo) ==>
        response == Response(401, Text("Unauthorized")) && unchanged(kv)
    // Success, whatever `verified` says: the user's single authenticator slot is
    // overwritten, 2FA is turned on, and the challenge stays in the record.
    ensures session.Some? && KeyPart(session.value.id) in old(kv.users) ==>
      var k := KeyPart(session.value.id);
      var u := old(kv.users)[k];
      HasChallenge(u) && verify(u.currentChallenge.value).Returns?
        && Complete(verify(u.currentChallenge.value).registrationInfo) ==>
        var outcome := verify(u.currentChallenge.value);
        && kv.authenticatorByUser == old(kv.authenticatorByUser)[k := NewAuthenticator(outcome.registrationInfo)]
        && kv.users == old(kv.users)[k := u.(is2FAEnabled := true)]
        && kv.users[k].currentChallenge == u.currentChallenge
        && response == Response(200, VerifiedJson(outcome.verified))
  {
    if session.None? {
      return Response(401, Text("Unauthorized"));
    }
    var k := KeyPart(session.value.id);
    if k !in kv.users {
      return Response(401, Text("Unauthorized"));
    }
    var user := kv.users[k];
    var expectedChallenge := user.currentChallenge;
    var verification: Option<VerifyOutcome> := None;
    if HasChallenge(user) {
      verification := Some(verify(expectedChallenge.value));
    }
    if verification.Some? && verification.value.Throws? {
      return Response(400, ErrorJson(verification.value.message));
    }
    if verification.None? {
      return Response(401, Text("Unauthorized"));
    }
    var verified := verification.value.verified;
    var registrationInfo := verification.value.registrationInfo;
    if !Complete(registrationInfo) {
      return Response(401, Text("Unauthorized"));
    }
    kv.SetAuthenticator(k, NewAuthenticator(registrationInfo));
    kv.SetUser(k, user.(is2FAEnabled := true));
    response := Response(200, VerifiedJson(verified));
  }
}
