/**
 * The password hasher, kept abstract: a digest records its cost, its salt and
 * what it was computed from, and `Compare` accepts exactly the password it was
 * computed from. One-wayness and timing are outside the model.
 */
module Bcrypt {
  import opened Js

  /** The cost passed to `bcrypt.hash` by the signup handler. */
  const SaltRounds: nat := 10

  datatype Digest = Digest(rounds: nat, salt: nat, secret: JsString)

  /** `bcrypt.hash(password, SaltRounds)` with the salt it drew. */
  function Hash(password: JsString, salt: nat): (d: Digest)
    ensures d.rounds == SaltRounds && d.salt == salt
    ensures Compare(password, d)
  {
    Digest(SaltRounds, salt, password)
  }

  /** `bcrypt.compare(password, digest)`. */
  predicate Compare(password: JsString, d: Digest) {
    d.secret == password
  }
}
