/**
 * The password hasher (passlib's `sha256_crypt`) is a library outside the model.
 * It is a pair of functions handed to the site: `hash` turns a password and a
 * salt into a digest, `verify` checks a password against a stored digest. The
 * salt that `encrypt` draws at random is an argument of the operation that hashes.
 */
module Credentials {

  type Digest = string

  type Salt = nat

  datatype Hasher = Hasher(hash: (string, Salt) -> Digest, verify: (string, Digest) -> bool)
  {
    /** The one law assumed of the library: a password verifies against its own digest. */
    ghost predicate Sound() {
      forall p, s :: verify(p, hash(p, s))
    }
  }
}
