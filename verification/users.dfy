/** The stored user record as the gate sees it: a JavaScript object, here a
    map from property names to values. */
module Users {

  import opened Values

  type User = map<string, Value>

  const HashField: string := "hash"
  const SaltField: string := "salt"
  const LockedField: string := "locked"

  /** `user.locked` used as a condition: a missing property is `undefined`,
      which is falsy. */
  predicate IsLocked(user: User)
  {
    LockedField in user && Truthy(user[LockedField])
  }

  /** `delete user.hash; delete user.salt` on the fetched record, which is
      then attached to the request: it has neither secret-bearing property
      and keeps every other one. */
  function Sanitize(user: User): (clean: User)
    ensures HashField !in clean && SaltField !in clean
    ensures forall k :: k in user && k != HashField && k != SaltField ==> k in clean && clean[k] == user[k]
    ensures forall k :: k in clean ==> k in user
  {
    user - {HashField, SaltField}
  }

  /** Sanitizing twice is sanitizing once, and sanitizing keeps the lock
      state: the attached identity is the same account with its secrets
      removed. */
  lemma SanitizeIdempotent(user: User)
    ensures Sanitize(Sanitize(user)) == Sanitize(user)
    ensures IsLocked(Sanitize(user)) == IsLocked(user)
  {
  }

}
