/**
 * The single-user credential store: the password hash kept in row id = 1 of the
 * `auth` table, and the in-memory set of session tokens.
 *
 * Bcrypt is a foreign call. `verify` stands for `Bun.password.verify`, and the salted
 * output of `Bun.password.hash` is supplied by the caller together with the bcrypt
 * guarantee that it verifies the password it was made from and is not empty.
 */
module Auth {
  import opened Wrappers

  /** Row id = 1 of the `auth` table, or its absence (a SELECT that finds nothing). */
  datatype AuthRow = NoRow | Row(passwordHash: Option<string>)

  class AuthStore {
    var row: AuthRow
    var sessions: set<string>
    /** `Bun.password.verify(password, hash)`. */
    const verify: (string, string) -> bool

    /** What bcrypt guarantees of a hash it produced from `password`. */
    predicate HashOf(password: string, hash: string) {
      hash != "" && verify(password, hash)
    }

    /** A freshly started server: the row as the database holds it, and no sessions. */
    constructor (verify: (string, string) -> bool, row: AuthRow)
      ensures this.verify == verify && this.row == row && sessions == {}
    {
      this.verify := verify;
      this.row := row;
      sessions := {};
    }

    /**
     * `auth?.passwordHash !== null`: only a present row whose hash is NULL reads as
     * "not set". A missing row yields `undefined`, which is not `null`.
     */
    function IsPasswordSet(): (b: bool)
      reads this
      ensures !b <==> row == Row(None)
      ensures row.NoRow? ==> b
    {
      match row
      case NoRow => true
      case Row(hash) => hash.Some?
    }

    /** `!auth?.passwordHash` rejects a missing row, a NULL hash and an empty hash. */
    function VerifyLogin(password: string): (b: bool)
      reads this
      ensures b ==> IsPasswordSet()
      ensures b <==> row.Row? && row.passwordHash.Some? && HashOf(password, row.passwordHash.value)
    {
      match row
      case NoRow => false
      case Row(hash) =>
        if hash.None? || hash.value == "" then false else verify(password, hash.value)
    }

    /** `!token` rejects `undefined` and the empty string before the set is consulted. */
    function IsValidSession(token: Option<string>): (b: bool)
      reads this
      ensures token == None || token == Some("") ==> !b
      ensures b <==> token.Some? && token.value != "" && token.value in sessions
    {
      match token
      case None => false
      case Some(t) => t != "" && t in sessions
    }

    /**
     * UPDATE of row id = 1: a missing row is left missing (the update touches no row);
     * otherwise the new hash is stored and the password verifies against it.
     */
    method SetPassword(password: string, hash: string)
      requires HashOf(password, hash)
      modifies this
      ensures sessions == old(sessions)
      ensures row == if old(row).NoRow? then NoRow else Row(Some(hash))
      ensures old(row).Row? ==> IsPasswordSet() && VerifyLogin(password)
    {
      if row.Row? {
        row := Row(Some(hash));
      }
    }

    method CreateSession(token: string)
      modifies this`sessions
      ensures sessions == old(sessions) + {token}
      ensures token in old(sessions) ==> sessions == old(sessions)
      ensures token != "" ==> IsValidSession(Some(token))
      ensures forall t: string :: t != token ==> IsValidSession(Some(t)) == old(IsValidSession(Some(t)))
    {
      sessions := sessions + {token};
    }

    method DestroySession(token: string)
      modifies this`sessions
      ensures sessions == old(sessions) - {token}
      ensures token !in old(sessions) ==> sessions == old(sessions)
      ensures !IsValidSession(Some(token))
      ensures forall t: string :: t != token ==> IsValidSession(Some(t)) == old(IsValidSession(Some(t)))
    {
      sessions := sessions - {token};
    }
  }
}
