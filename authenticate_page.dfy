/**
 * The authentication-options handler over Prisma,
 * pages/api/2fa/webauthn/authenticate.ts: GET lists the user's
 * authenticators and remembers a new challenge; other methods get 405.
 */
module AuthenticatePage {
  import opened Wrappers
  import opened WebAuthnTypes
  import opened PrismaStore

  const RpID: string := "localhost"

  /** The default `handler`; `challenge` is the one the options library would generate. */
  method Handler(db: PrismaDb, httpMethod: string, session: Option<Session>, challenge: string)
    returns (response: Response)
    requires db.Valid()
    modifies db
    ensures db.Valid()
    ensures !SignedIn(old(db.users), session) ==>
      response == Response(401, ErrorJson("Unauthorized")) && unchanged(db)
    // GET: every authenticator of the user in table order, even none; only
    // this user's challenge is written.
    ensures SignedIn(old(db.users), session) && httpMethod == "GET" ==>
      var id := session.value.id.value;
      && response == Response(200, AuthenticationOptionsJson(AllowOptions(OwnedBy(old(db.authenticators), id), RpID, challenge)))
      && db.users == old(db.users)[id := old(db.users)[id].(currentChallenge := Some(challenge))]
      && db.authenticators == old(db.authenticators)
    ensures SignedIn(old(db.users), session) && httpMethod != "GET" ==>
      response == Response(405, ErrorJson("Method not allowed")) && unchanged(db)
  {
    if session.None? {
      return Response(401, ErrorJson("Unauthorized"));
    }
    var userId := session.value.id;
    var user := db.FindUser(userId);
    if user.None? {
      return Response(401, ErrorJson("Unauthorized"));
    }
    if httpMethod == "GET" {
      var userAuthenticators := OwnedBy(db.authenticators, userId.value);
      var options := AllowOptions(userAuthenticators, RpID, challenge);
      db.SetChallenge(user.value.id, options.challenge);
      return Response(200, AuthenticationOptionsJson(options));
    }
    response := Response(405, ErrorJson("Method not allowed"));
  }
}
