/**
 * The registration handler over Prisma, pages/api/2fa/webauthn/register-old.ts:
 * GET issues registration options and remembers their challenge; POST
 * verifies the authenticator's response, stores the new authenticator and
 * turns two-factor authentication on.
 */
module RegisterOld {
  import opened Wrappers
  import opened WebAuthnTypes
  import opened PrismaStore

  const RpName: string := "Example"
  const RpID: string := "localhost"

  /** What `generateRegistrationOptions` is given, with the challenge it generates. */
  function OptionsFor(u: UserRec, existing: seq<Authenticator>, challenge: string): RegistrationOptions {
    RegistrationOptions(
      RpName, RpID, u.id, u.name.GetOr(""),
      "none", Descriptors(existing), "required", "preferred",
      challenge)
  }

  /**
   * The default `handler`. `challenge` is the one `generateRegistrationOptions`
   * would generate; `verify` is `verifyRegistrationResponse` on this request's
   * body, as a function of the expected challenge.
   */
  method Handler(db: PrismaDb, httpMethod: string, session: Option<Session>, challenge: string, verify: Verifier)
    returns (response: Response)
    requires db.Valid()
    modifies db
    ensures db.Valid()
    // No session, or no user record for it: 401 and nothing written.
    ensures !SignedIn(old(db.users), session) ==>
      response == Response(401, ErrorJson("Unauthorized")) && unchanged(db)
    // GET: options listing the user's authenticators; only the challenge is written.
    ensures SignedIn(old(db.users), session) && httpMethod == "GET" ==>
      var id := session.value.id.value;
      var u := old(db.users)[id];
      && response == Response(200, RegistrationOptionsJson(OptionsFor(u, OwnedBy(old(db.authenticators), id), challenge)))
      && db.users == old(db.users)[id := u.(currentChallenge := Some(challenge))]
      && db.authenticators == old(db.authenticators)
    // POST without a stored challenge: verify is never consulted, 400, nothing written.
    ensures SignedIn(old(db.users), session) && httpMethod == "POST" ==>
      !HasChallenge(old(db.users)[session.value.id.value]) ==>
        response == Response(400, ErrorJson("Invalid response")) && unchanged(db)
    // POST where verify throws: 400 with its message, nothing written.
    ensures SignedIn(old(db.users), session) && httpMethod == "POST" ==>
      var u := old(db.users)[session.value.id.value];
      HasChallenge(u) && verify(u.currentChallenge.value).Throws? ==>
        response == Response(400, ErrorJson(verify(u.currentChallenge.value).message)) && unchanged(db)
    // POST where the result lacks a credential ID or public key: 400, nothing written.
    ensures SignedIn(old(db.users), session) && httpMethod == "POST" ==>
      var u := old(db.users)[session.value.id.value];
      HasChallenge(u) && verify(u.currentChallenge.value).Returns?
        && !Complete(verify(u.currentChallenge.value).registrationInfo) ==>
        response == Response(400, ErrorJson("Invalid response")) && unchanged(db)
    // POST success, whatever `verified` says: one authenticator appended for this
    // user, 2FA turned on, the stored challenge left as it was.
    ensures SignedIn(old(db.users), session) && httpMethod == "POST" ==>
      var id := session.value.id.value;
      var u := old(db.users)[id];
      HasChallenge(u) && verify(u.currentChallenge.value).Returns?
        && Complete(verify(u.currentChallenge.value).registrationInfo) ==>
        var outcome := verify(u.currentChallenge.value);
        var a := NewAuthenticator(outcome.registrationInfo);
        && db.authenticators == old(db.authenticators) + [AuthenticatorRow(id, a)]
        && OwnedBy(db.authenticators, id) == OwnedBy(old(db.authenticators), id) + [a]
        && (forall other :: other != id ==> OwnedBy(db.authenticators, other) == OwnedBy(old(db.authenticators), other))
        && db.users == old(db.users)[id := u.(is2FAEnabled := true)]
        && db.users[id].currentChallenge == u.currentChallenge
        && response == Response(200, VerifiedAuthenticatorJson(outcome.verified, a, id))
    // Any other method: the handler returns without responding or writing.
    ensures SignedIn(old(db.users), session) && httpMethod != "GET" && httpMethod != "POST" ==>
      response == NoResponse && unchanged(db)
  {
    if session.None? {
      return Response(401, ErrorJson("Unauthorized"));
    }
    var userId := session.value.id;
    var user := db.FindUser(userId);
    if user.None? {
      return Response(401, ErrorJson("Unauthorized"));
    }
    var u := user.value;

    if httpMethod == "GET" {
      var userAuthenticators := OwnedBy(db.authenticators, userId.value);
      var options := OptionsFor(u, userAuthenticators, challenge);
      db.SetChallenge(u.id, options.challenge);
      response := Response(200, RegistrationOptionsJson(options));
    } else if httpMethod == "POST" {
      var expectedChallenge := u.currentChallenge;
      var verification: Option<VerifyOutcome> := None;
      if HasChallenge(u) {
        verification := Some(verify(expectedChallenge.value));
      }
      if verification.Some? && verification.value.Throws? {
        return Response(400, ErrorJson(verification.value.message));
      }
      if verification.None? {
        return Response(400, ErrorJson("Invalid response"));
      }
      var verified := verification.value.verified;
      var registrationInfo := verification.value.registrationInfo;
      if !Complete(registrationInfo) {
        return Response(400, ErrorJson("Invalid response"));
      }
      var authenticator := NewAuthenticator(registrationInfo);
      db.CreateAuthenticator(u.id, authenticator);
      db.Enable2FA(u.id);
      response := Response(200, VerifiedAuthenticatorJson(verified, authenticator, u.id));
    } else {
      response := NoResponse;
    }
  }
}
