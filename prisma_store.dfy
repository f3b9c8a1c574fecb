/**
 * The Prisma tables the pages handlers use, in memory: the `user` table
 * keyed by id and the `authenticator` table as a sequence of rows, each
 * with the id of the user that owns it.
 */
module PrismaStore {
  import opened Wrappers
  import opened WebAuthnTypes

  /** A row of the `authenticator` table. */
  datatype AuthenticatorRow = AuthenticatorRow(userId: UserId, authenticator: Authenticator)

  /** `prisma.authenticator.findMany({ where: { userId } })`, in table order. */
  function OwnedBy(rows: seq<AuthenticatorRow>, userId: UserId): (owned: seq<Authenticator>)
    decreases |rows|
  {
    if rows == [] then []
    else
      var rest := OwnedBy(rows[..|rows| - 1], userId);
      var last := rows[|rows| - 1];
      if last.userId == userId then rest + [last.authenticator] else rest
  }

  /** An authenticator is listed for a user exactly when a row of that user holds it. */
  lemma {:induction false} OwnedByMembership(rows: seq<AuthenticatorRow>, userId: UserId, a: Authenticator)
    ensures a in OwnedBy(rows, userId) <==> AuthenticatorRow(userId, a) in rows
    decreases |rows|
  {
    if rows != [] {
      var init := rows[..|rows| - 1];
      OwnedByMembership(init, userId, a);
      assert rows == init + [rows[|rows| - 1]];
    }
  }

  /** The listing keeps table order: it distributes over concatenation of tables. */
  lemma {:induction false} OwnedByAppend(rows: seq<AuthenticatorRow>, more: seq<AuthenticatorRow>, userId: UserId)
    ensures OwnedBy(rows + more, userId) == OwnedBy(rows, userId) + OwnedBy(more, userId)
    decreases |more|
  {
    if more == [] {
      assert rows + more == rows;
    } else {
      var init := more[..|more| - 1];
      OwnedByAppend(rows, init, userId);
      assert (rows + more)[..|rows + more| - 1] == rows + init;
    }
  }

  /** Appending a row of one user changes no other user's listing, and adds one entry to its own. */
  lemma AppendRow(rows: seq<AuthenticatorRow>, row: AuthenticatorRow, userId: UserId)
    ensures OwnedBy(rows + [row], userId)
      == OwnedBy(rows, userId) + (if row.userId == userId then [row.authenticator] else [])
  {
    OwnedByAppend(rows, [row], userId);
    assert OwnedBy([row], userId) == OwnedBy([], userId) + (if row.userId == userId then [row.authenticator] else []);
  }

  /** A user with no rows has nothing listed. */
  lemma {:induction false} OwnedByNone(rows: seq<AuthenticatorRow>, userId: UserId)
    requires forall i :: 0 <= i < |rows| ==> rows[i].userId != userId
    ensures OwnedBy(rows, userId) == []
    decreases |rows|
  {
    if rows != [] {
      OwnedByNone(rows[..|rows| - 1], userId);
    }
  }

  /** The session names a user the `user` table holds. */
  predicate SignedIn(users: map<UserId, UserRec>, session: Option<Session>) {
    session.Some? && session.value.id.Some? && session.value.id.value in users
  }

  class PrismaDb {
    var users: map<UserId, UserRec>
    var authenticators: seq<AuthenticatorRow>

    /** Every user row is stored under its own id. */
    ghost predicate Valid()
      reads this
    {
      forall k :: k in users ==> users[k].id == k
    }

    constructor (users0: map<UserId, UserRec>, authenticators0: seq<AuthenticatorRow>)
      requires forall k :: k in users0 ==> users0[k].id == k
      ensures Valid()
      ensures users == users0 && authenticators == authenticators0
    {
      users := users0;
      authenticators := authenticators0;
    }

    /** `prisma.user.findUnique({ where: { id } })`; an undefined id finds nobody. */
    function FindUser(id: Option<UserId>): (r: Option<UserRec>)
      reads this
      requires Valid()
      ensures r.Some? <==> id.Some? && id.value in users
      ensures r.Some? ==> r.value == users[id.value] && r.value.id == id.value
    {
      if id.Some? && id.value in users then Some(users[id.value]) else None
    }

    /** `prisma.user.update({ where: { id }, data: { currentChallenge } })` */
    method SetChallenge(id: UserId, challenge: string)
      requires Valid() && id in users
      modifies this
      ensures Valid()
      ensures users == old(users)[id := old(users)[id].(currentChallenge := Some(challenge))]
      ensures authenticators == old(authenticators)
    {
      users := users[id := users[id].(currentChallenge := Some(challenge))];
    }

    /** `prisma.user.update({ where: { id }, data: { is2FAEnabled: true } })` */
    method Enable2FA(id: UserId)
      requires Valid() && id in users
      modifies this
      ensures Valid()
      ensures users == old(users)[id := old(users)[id].(is2FAEnabled := true)]
      ensures authenticators == old(authenticators)
    {
      users := users[id := users[id].(is2FAEnabled := true)];
    }

    /** `prisma.authenticator.create(...)`, connected to user `id`. */
    method CreateAuthenticator(id: UserId, a: Authenticator)
      requires Valid()
      modifies this
      ensures Valid()
      ensures authenticators == old(authenticators) + [AuthenticatorRow(id, a)]
      ensures users == old(users)
      ensures OwnedBy(authenticators, id) == OwnedBy(old(authenticators), id) + [a]
      ensures forall other :: other != id ==> OwnedBy(authenticators, other) == OwnedBy(old(authenticators), other)
    {
      AppendRow(authenticators, AuthenticatorRow(id, a), id);
      forall other | other != id
        ensures OwnedBy(authenticators + [AuthenticatorRow(id, a)], other) == OwnedBy(authenticators, other)
      {
        AppendRow(authenticators, AuthenticatorRow(id, a), other);
      }
      authenticators := authenticators + [AuthenticatorRow(id, a)];
    }
  }
}
