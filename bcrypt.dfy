/** A symbolic model of the password hashing both servers use
    (`bcrypt.hash(password, 10)` and `bcrypt.compare`). The per-call random
    salt is a parameter; the digest is an opaque value that only `Verify`
    inspects, so the model hashes perfectly: a digest accepts exactly the
    password it was made from, whatever the salt. */
module Bcrypt {

  /** The stored `password_hash` / `password` column. `preimage` stands for
      what the one-way function commits to; nothing in the servers reads it
      except `Verify`. */
  datatype Digest = Digest(salt: nat, preimage: string)

  /** `bcrypt.hash(password, 10)` with the random salt drawn by the caller. */
  function Hash(password: string, salt: nat): (d: Digest)
    ensures Verify(password, d)
    ensures d.salt == salt
  {
    Digest(salt, password)
  }

  /** `bcrypt.compare(password, digest)`. */
  predicate Verify(password: string, d: Digest) {
    d.preimage == password
  }

  /** A digest accepts no password other than the one it was made from.
      This follows from the definitions alone: it states the abstraction. */
  lemma VerifyOnlyOriginal(password: string, other: string, salt: nat)
    requires Verify(other, Hash(password, salt))
    ensures other == password
  {
  }

  /** Two hashes of one password differ whenever their salts differ.
      This follows from the definitions alone: it states the abstraction. */
  lemma SaltedHashesDiffer(password: string, s1: nat, s2: nat)
    requires s1 != s2
    ensures Hash(password, s1) != Hash(password, s2)
  {
  }
}
