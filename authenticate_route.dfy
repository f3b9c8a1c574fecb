/**
 * The authentication-options route over Prisma,
 * app/api/2fa/webauthn/authenticate/route.ts: `GET` lists the user's
 * authenticators and remembers a new challenge.
 */
module AuthenticateRoute {
  import opened Wrappers
  import opened WebAuthnTypes
  import opened PrismaStore

  const RpID: string := "localhost"

  /** `GET`; `challenge` is the one the options library would generate. */
  method Get(db: PrismaDb, session: Option<Session>, challenge: string) returns (response: Response)
    requires db.Valid()
    modifies db
    ensures db.Valid()
    ensures !SignedIn(old(db.users), session) ==>
      response == Response(401, Text("Unauthorized")) && unchanged(db)
    // Always 200 once signed in, with or without authenticators; only this
    // user's challenge is written.
    ensures SignedIn(old(db.users), session) ==>
      var id := session.value.id.value;
      && response == Response(200, AuthenticationOptionsJson(AllowOptions(OwnedBy(old(db.authenticators), id), RpID, challenge)))
      && db.users == old(db.users)[id := old(db.users)[id].(currentChallenge := Some(challenge))]
      && db.authenticators == old(db.authenticators)
  {
    if session.None? {
      return Response(401, Text("Unauthorized"));
    }
    var userId := session.value.id;
    var user := db.FindUser(userId);
    if user.None? {
      return Response(401, Text("Unauthorized"));
    }
    var userAuthenticators := OwnedBy(db.authenticators, userId.value);
    var options := AllowOptions(userAuthenticators, RpID, challenge);
    db.SetChallenge(user.value.id, options.challenge);
    response := Response(200, AuthenticationOptionsJson(options));
  }
}
