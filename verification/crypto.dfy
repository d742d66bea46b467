/**
  The credential store and the token service, idealised. argon2 is modelled
  as a perfect one-way digest: hashing is injective and `Verify` accepts
  exactly the password that was hashed. A signed token only records the user
  id it was issued for; checking a token is left to the caller as a partial
  function (see the request gates).
 */
module Crypto {

  /** A stored password hash. It is a different type from a plaintext password. */
  datatype Digest = Argon2(of: string)

  function Hash(password: string): Digest {
    Argon2(password)
  }

  /** `argon2.verify(hash, password)`. */
  predicate Verify(h: Digest, password: string) {
    h == Hash(password)
  }

  /** A hash verifies its own password and no other. */
  lemma VerifyAcceptsOnlyHashedPassword(p: string, q: string)
    ensures Verify(Hash(p), q) <==> p == q
  {
  }

  /** An access token as issued by `generateToken(userId, res)`. */
  datatype Token = AccessToken(userId: nat)

  function Sign(userId: nat): Token {
    AccessToken(userId)
  }
}
