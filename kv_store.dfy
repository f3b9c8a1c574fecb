/**
 * The key-value store the app-router registration route uses, in memory.
 * Of its keys only two families are touched: `user:<k>` holds a user
 * record and `user:authenticator:by-user-id:<k>` holds that user's single
 * authenticator. Each family is a map from the `<k>` part.
 */
module KvStore {
  import opened Wrappers
  import opened WebAuthnTypes

  /** The text a template literal gives `${userId}`: an undefined id reads "undefined". */
  function KeyPart(id: Option<UserId>): (key: string) {
    if id.Some? then id.value else "undefined"
  }

  class Kv {
    /** `user:<k>` */
    var users: map<string, UserRec>
    /** `user:authenticator:by-user-id:<k>` */
    var authenticatorByUser: map<string, Authenticator>

    constructor (users0: map<string, UserRec>, authenticators0: map<string, Authenticator>)
      ensures users == users0 && authenticatorByUser == authenticators0
    {
      users := users0;
      authenticatorByUser := authenticators0;
    }

    /** `kv.set("user:" + k, u)` */
    method SetUser(k: string, u: UserRec)
      modifies this
      ensures users == old(users)[k := u]
      ensures authenticatorByUser == old(authenticatorByUser)
    {
      users := users[k := u];
    }

    /** `kv.set("user:authenticator:by-user-id:" + k, a)`: replaces any earlier one. */
    method SetAuthenticator(k: string, a: Authenticator)
      modifies this
      ensures authenticatorByUser == old(authenticatorByUser)[k := a]
      ensures users == old(users)
    {
      authenticatorByUser := authenticatorByUser[k := a];
    }
  }
}
