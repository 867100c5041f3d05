/**
 * Stand-in for werkzeug's generate_password_hash / check_password_hash.
 * The real functions salt and stretch the password; the model only needs
 * a deterministic hash that `Check` accepts for the password it was made
 * from and rejects for every other password. Nothing else about `Hash`
 * is used by the rest of the model.
 */
module Passwords {
  const Prefix: string := "hash$"

  /** The stored form of a password. */
  function Hash(password: string): string {
    Prefix + password
  }

  /** Does the stored hash `h` match the submitted `password`? */
  predicate Check(h: string, password: string) {
    h == Hash(password)
  }

  /** A hash made from a password is accepted for that password. */
  lemma CheckHash(password: string)
    ensures Check(Hash(password), password)
  {
  }

  /** A hash made from a password is rejected for any other password. */
  lemma CheckRejectsOther(password: string, other: string)
    requires other != password
    ensures !Check(Hash(password), other)
  {
    assert Hash(password)[|Prefix|..] == password;
    assert Hash(other)[|Prefix|..] == other;
  }
}
