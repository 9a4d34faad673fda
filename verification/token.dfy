/** The credential verifier, `userHash`: the expected token is the hex
    SHA-512 digest of the account's stored hash, then the salt, then the
    timestamp. */
module Token {

  import opened Wrappers
  import opened Values
  import opened Users

  /** The hex SHA-512 digest of everything fed to `hash.update`, in order. */
  type Digester = string -> string

  /** `userHash(user, authSalt, authTS)`. `None` when `hash.update(user.hash)`
      throws, which it does for anything but a string (a missing property
      reads as `undefined`). */
  function UserHash(sha512Hex: Digester, user: User, authSalt: string, authTS: string): Option<string>
  {
    if HashField in user && user[HashField].Str? then
      Some(sha512Hex(user[HashField].s + authSalt + authTS))
    else
      None
  }

  /** The expected token depends on the stored hash, the salt and the
      timestamp only through their concatenation: any other property of the
      user, and where the boundaries between the three fall, make no
      difference. */
  lemma UserHashDependsOnlyOnConcatenation(sha512Hex: Digester, user1: User, salt1: string, ts1: string,
                                           user2: User, salt2: string, ts2: string)
    requires HashField in user1 && user1[HashField].Str?
    requires HashField in user2 && user2[HashField].Str?
    requires user1[HashField].s + salt1 + ts1 == user2[HashField].s + salt2 + ts2
    ensures UserHash(sha512Hex, user1, salt1, ts1) == UserHash(sha512Hex, user2, salt2, ts2)
  {
  }

  /** An instance of the boundary freedom: moving a character from the salt
      to the front of the timestamp leaves the expected token unchanged. */
  lemma SaltTimestampBoundaryIsFree(sha512Hex: Digester, user: User, salt: string, c: char, ts: string)
    requires HashField in user && user[HashField].Str?
    ensures UserHash(sha512Hex, user, salt + [c], ts) == UserHash(sha512Hex, user, salt, [c] + ts)
  {
    assert user[HashField].s + (salt + [c]) + ts == user[HashField].s + salt + ([c] + ts);
    UserHashDependsOnlyOnConcatenation(sha512Hex, user, salt + [c], ts, user, salt, [c] + ts);
  }

}
