/** The password hashing library seen from the handlers: `hash(password)`
    yields the stored hash and `compare(password, hash)` checks a password
    against it. Salt, cost factor and timing are not modelled; the only
    property the handlers may rely on is that a password matches its own hash. */
module Hashing {

  datatype Hasher = Hasher(hash: string -> string, compare: (string, string) -> bool)

  /** `compare(p, hash(p))` holds for every password. */
  ghost predicate Sound(h: Hasher) {
    forall p :: h.compare(p, h.hash(p))
  }

  /** Additionally, no other password matches a hash (collision freedom). */
  ghost predicate Exact(h: Hasher) {
    forall p, q :: h.compare(q, h.hash(p)) ==> q == p
  }
}
