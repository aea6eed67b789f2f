/** Password hashing (bcrypt in the source) kept abstract: a salted one-way hash and a
    verifier, with the one property the application relies on. */
module Passwords {

  datatype Crypto = Crypto(hash: (string, nat) -> string, verify: (string, string) -> bool)

  /** Verification accepts the password that produced a hash, whatever the salt. */
  ghost predicate Sound(c: Crypto)
  {
    forall p, salt :: c.verify(p, c.hash(p, salt))
  }
}
