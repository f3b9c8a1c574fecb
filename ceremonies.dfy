/**
 * Sequences of requests against the handlers, showing how the records
 * evolve across a ceremony as the code is written: a challenge is never
 * consumed, and authentication options need no enrollment.
 */
module Ceremonies {
  import opened Wrappers
  import opened WebAuthnTypes
  import opened PrismaStore
  import opened KvStore
  import RegisterOld
  import RegisterRoute
  import AuthenticatePage

  /**
   * Register over Prisma, then ask for authentication options: the new
   * authenticator is allowed last, after the user's earlier ones, 2FA is on,
   * and the authentication challenge has replaced the registration one.
   */
  method EnrollThenAuthenticate(db: PrismaDb, id: UserId, c1: string, verify: Verifier, c2: string)
    returns (r1: Response, r2: Response, r3: Response)
    requires db.Valid() && id in db.users
    requires c1 != "" && verify(c1).Returns? && Complete(verify(c1).registrationInfo)
    modifies db
    ensures db.Valid()
    ensures r1.Response? && r2.Response? && r3.Response?
    ensures r1.status == 200 && r2.status == 200 && r3.status == 200
    ensures r3.body.AuthenticationOptionsJson?
    ensures var a := NewAuthenticator(verify(c1).registrationInfo);
      r3.body.authentication.allowCredentials == Descriptors(OwnedBy(old(db.authenticators), id) + [a])
    ensures id in db.users && db.users[id].is2FAEnabled && db.users[id].currentChallenge == Some(c2)
  {
    var session := Some(Session(Some(id)));
    r1 := RegisterOld.Handler(db, "GET", session, c1, verify);
    r2 := RegisterOld.Handler(db, "POST", session, c1, verify);
    r3 := AuthenticatePage.Handler(db, "GET", session, c2);
  }

  /**
   * Authentication options for a user without any authenticator: 200 with an
   * empty allow list, and the challenge is stored all the same.
   */
  method AuthenticateWithoutEnrollment(db: PrismaDb, id: UserId, c: string) returns (r: Response)
    requires db.Valid() && id in db.users
    requires forall i :: 0 <= i < |db.authenticators| ==> db.authenticators[i].userId != id
    modifies db
    ensures r.Response? && r.status == 200 && r.body.AuthenticationOptionsJson?
    ensures r.body.authentication.allowCredentials == []
    ensures id in db.users && db.users[id].currentChallenge == Some(c)
  {
    OwnedByNone(db.authenticators, id);
    r := AuthenticatePage.Handler(db, "GET", Some(Session(Some(id))), c);
  }

  /**
   * Over the key-value store, the same registration response can be posted
   * twice after one `GET`: the challenge is not consumed, both posts
   * succeed, and the second overwrites the first authenticator.
   */
  method ReplayedRegistration(kv: Kv, id: UserId, c: string, verify: Verifier, verify2: Verifier)
    returns (r1: Response, r2: Response, r3: Response)
    requires id != "" && id in kv.users
    requires c != ""
    requires verify(c).Returns? && Complete(verify(c).registrationInfo)
    requires verify2(c).Returns? && Complete(verify2(c).registrationInfo)
    modifies kv
    ensures r1.Response? && r2.Response? && r3.Response?
    ensures r1.status == 200 && r2.status == 200 && r3.status == 200
    ensures id in kv.users && kv.users[id].currentChallenge == Some(c) && kv.users[id].is2FAEnabled
    ensures id in kv.authenticatorByUser
      && kv.authenticatorByUser[id] == NewAuthenticator(verify2(c).registrationInfo)
  {
    var session := Some(Session(Some(id)));
    r1 := RegisterRoute.Get(kv, session, false, c);
    r2 := RegisterRoute.Post(kv, session, verify);
    r3 := RegisterRoute.Post(kv, session, verify2);
  }
}
