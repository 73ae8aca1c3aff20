/**
 * The password hasher the server calls (`bcrypt.hash(password, 10)` to store a
 * password, `bcrypt.compare(password, hash)` to check one).
 *
 * bcrypt is a foreign library, so it is modelled as an IDEAL salted one-way
 * function: a hash record names its cost factor and salt, and its digest is a
 * symbolic term that is equal for two calls exactly when password, cost and salt
 * are equal. No member of the model reads a password back out of a record; the
 * only thing done with a stored record is `Verify`.
 */
module Bcrypt {

  /** The cost factor every call in the server passes. */
  const Rounds: nat := 10

  /** bcrypt draws a fresh random salt on every call; the model takes it as an input. */
  type Salt = nat

  /** The digest of a password under a cost and a salt, kept symbolic. */
  datatype Digest = Digest(secret: string, rounds: nat, salt: Salt)

  /** The self-describing stored hash: cost, salt and digest. */
  datatype HashRecord = HashRecord(rounds: nat, salt: Salt, digest: Digest)

  /** The one-way function itself: a record for a password under a given cost and salt. */
  function HashWith(password: string, rounds: nat, salt: Salt): HashRecord
  {
    HashRecord(rounds, salt, Digest(password, rounds, salt))
  }

  /**
   * `bcrypt.compare`: recompute the digest with the record's own cost and salt and
   * compare. Accepts exactly when the record is what hashing this password under
   * its cost and salt yields.
   */
  predicate Verify(password: string, h: HashRecord): (ok: bool)
    ensures ok <==> h == HashWith(password, h.rounds, h.salt)
  {
    h.digest == Digest(password, h.rounds, h.salt)
  }

  /**
   * `bcrypt.hash(password, 10)` with the salt it drew. The record verifies its own
   * password and no other one.
   */
  function Hash(password: string, salt: Salt): (h: HashRecord)
    ensures h.rounds == Rounds && h.salt == salt
    ensures Verify(password, h)
    ensures forall other :: Verify(other, h) ==> other == password
  {
    HashWith(password, Rounds, salt)
  }

  /** Two hashes of the same password under different salts differ. */
  lemma FreshSaltFreshRecord(password: string, s1: Salt, s2: Salt)
    requires s1 != s2
    ensures Hash(password, s1) != Hash(password, s2)
  {
  }
}
