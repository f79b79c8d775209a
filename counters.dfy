/** The counters container the engine uses for posting lists and scores: a map
    from a key to a count; looking up an absent key gives 0. The library refuses a
    negative key or count in every operation, so no counters object ever holds one
    (NonNegative). */
module Counters {

  type Counters = map<int, int>

  predicate NonNegative(c: Counters) {
    forall k | k in c :: k >= 0 && c[k] >= 0
  }

  /** counters_get */
  function Get(c: Counters, key: int): int {
    if key in c then c[key] else 0
  }

  /** The iterators of the hashtable, counters and bag libraries visit their items in an
      order they do not promise; a loop over them takes any item not yet visited. */
  method Choose<T>(s: set<T>) returns (x: T)
    requires s != {}
    ensures x in s
  {
    x :| x in s;
  }
}
