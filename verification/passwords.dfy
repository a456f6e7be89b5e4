/** Password storage. The application stores `generate_password_hash(p)` and
    later asks `check_password_hash(stored, q)`. The key-derivation function is
    a foreign primitive; here it is replaced by a deterministic, injective
    stand-in that tags the plaintext with the method name, which is all the
    routes rely on: the stored value is never the plaintext, and checking a
    candidate against a stored hash succeeds exactly for the original password. */
module Passwords {

  const Method: string := "pbkdf2:sha256$"

  function Hash(password: string): (h: string)
    ensures h != password
  {
    Method + password
  }

  /** `check_password_hash(stored, candidate)`. */
  predicate CheckHash(stored: string, candidate: string) {
    stored == Hash(candidate)
  }

  /** Distinct passwords never share a stored hash. */
  lemma HashInjective(p: string, q: string)
    ensures Hash(p) == Hash(q) ==> p == q
  {
    if Hash(p) == Hash(q) {
      assert p == Hash(p)[|Method|..];
      assert q == Hash(q)[|Method|..];
    }
  }

  /** A stored hash accepts the password it was made from and nothing else. */
  lemma CheckHashAcceptsOnlyOriginal(p: string, q: string)
    ensures CheckHash(Hash(p), q) <==> p == q
  {
    HashInjective(p, q);
  }
}
