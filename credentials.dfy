/** The password hasher (bcrypt) and the session issuer (jsonwebtoken), at the
    level of what the handlers rely on. */
module Credentials {

  /** A bcrypt digest: the salt drawn by `genSalt` and the one-way image of
      the password. The image is idealised as the password itself, so that
      `compare` succeeds exactly for the password that was hashed. */
  datatype Digest = Digest(salt: nat, image: string)

  /** `bcrypt.hash(password, salt)`; the salt is random, so it is a parameter. */
  function HashPassword(password: string, salt: nat): (h: Digest)
    ensures Matches(password, h)
    ensures forall other :: Matches(other, h) ==> other == password
  {
    Digest(salt, password)
  }

  /** `bcrypt.compare(password, hash)`. */
  predicate Matches(password: string, h: Digest) {
    h.image == password
  }

  /** `expiresIn: '7d'`, in the seconds of the JWT `iat` and `exp` claims. */
  const TokenLifetimeSeconds: int := 7 * 24 * 60 * 60

  /** The claims of the signed token: the payload `{ userId, email }` and the
      `iat`/`exp` claims that `jwt.sign` adds. */
  datatype Token = Token(userId: nat, email: string, issuedAt: int, expiresAt: int)

  /** `jwt.sign({ userId, email }, secret, { expiresIn: '7d' })` at clock
      `nowMs` (milliseconds): `iat` is the current time in whole seconds. */
  function IssueToken(userId: nat, email: string, nowMs: int): (t: Token)
    ensures t.userId == userId && t.email == email
    ensures t.issuedAt * 1000 <= nowMs < t.issuedAt * 1000 + 1000
    ensures t.expiresAt - t.issuedAt == 604800
  {
    var iat := nowMs / 1000;
    Token(userId, email, iat, iat + TokenLifetimeSeconds)
  }
}
