/**
 * The password hashing the controllers call: `BCrypt.HashPassword` and
 * `BCrypt.Verify`. The cipher itself is not modelled; a salted digest
 * stands in for it, and the model relies on no more than that a hash made
 * from a password verifies against that password. The random salt
 * `HashPassword` draws is a parameter.
 */
module Hashing {

  type Salt = nat

  /** A stored password hash: the salt and the digest of salt and password. */
  datatype PasswordHash = BCrypt(salt: Salt, digest: nat)

  const DigestModulus: nat := 0x1_0000_0000

  /** The salted digest of password `p`. */
  function Digest(salt: Salt, p: string): (d: nat)
    ensures d < DigestModulus
  {
    if p == [] then salt % DigestModulus
    else (Digest(salt, p[..|p| - 1]) * 31 + p[|p| - 1] as int) % DigestModulus
  }

  /** `BCrypt.Verify`: `p` hashes to the stored digest under the stored salt. */
  predicate Verify(p: string, h: PasswordHash) {
    Digest(h.salt, p) == h.digest
  }

  /** `BCrypt.HashPassword`: a hash under `salt` that `p` verifies against. */
  function HashPassword(salt: Salt, p: string): (h: PasswordHash)
    ensures h.salt == salt
    ensures Verify(p, h)
  {
    BCrypt(salt, Digest(salt, p))
  }
}
