/**
 * Password hashing, as an abstract primitive. A `Digest` is what the store
 * keeps in place of a password; the only thing the rest of the model uses is
 * that a password verifies against its own digest and against no other.
 */
module Bcrypt {

  /** A password digest. The preimage is there only to define `Verify`. */
  datatype Digest = Digest(preimage: string)

  /** `bcrypt.hash(p, 10)`; the random salt is not modelled. */
  function Hash(p: string): Digest
  {
    Digest(p)
  }

  /** `bcrypt.compare(p, d)`. */
  predicate Verify(p: string, d: Digest)
  {
    d.preimage == p
  }

  /** A password verifies against its own hash ... */
  lemma VerifyHash(p: string)
    ensures Verify(p, Hash(p))
  {
  }

  /** ... and against no other password's hash. */
  lemma VerifyOnlyOwnHash(p: string, q: string)
    ensures Verify(p, Hash(q)) <==> p == q
  {
  }
}
