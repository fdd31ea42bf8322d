/**
 * Salted password hashing: a fresh random HMAC key serves as the salt, the
 * HMAC of the password under that key is the stored hash, and verification
 * recomputes the HMAC under the stored salt and compares.
 */
module Passwords {
  import opened Models
  import opened Crypto

  datatype PasswordHash = PasswordHash(hash: Digest, salt: Key)

  /**
   * Whether `password` matches a stored hash and salt. Text encodings of the
   * hash and salt are left out: comparing the digests is comparing their
   * encodings, since the encoding is one-to-one.
   */
  predicate VerifyPasswordHash(hmac: Hmac, password: string, storedHash: Digest, storedSalt: Key) {
    hmac(storedSalt, password) == storedHash
  }

  /** Hashes `password` under `key`, the random key a new HMAC instance draws. */
  function CreatePasswordHash(hmac: Hmac, key: Key, password: string): (r: PasswordHash)
    ensures r.salt == key
    ensures VerifyPasswordHash(hmac, password, r.hash, r.salt)
  {
    PasswordHash(hmac(key, password), key)
  }

  /**
   * A candidate passes verification against a freshly created hash exactly
   * when it collides with the original password under the same key; the
   * original password itself always passes.
   */
  lemma VerifyCreatedHash(hmac: Hmac, key: Key, password: string, candidate: string)
    ensures var h := CreatePasswordHash(hmac, key, password);
      VerifyPasswordHash(hmac, candidate, h.hash, h.salt) <==> hmac(key, candidate) == hmac(key, password)
    ensures var h := CreatePasswordHash(hmac, key, password);
      VerifyPasswordHash(hmac, password, h.hash, h.salt)
  {
  }
}
