/** What the two denial-of-existence provers of libval/val_assertion.c share. */
module Denial {
  import opened Names

  const TYPE_NS := 2
  const TYPE_CNAME := 5
  const TYPE_SOA := 6
  const TYPE_DNAME := 39
  const TYPE_DS := 43

  /** The types of a name that is_type_set finds in its bitmap: see TypeBitmap.TypesReported. */
  function Reported(types: set<int>): set<int> {
    set t | t in types && 1 <= t < 256
  }

  /** A type bitmap at the query name itself denies the type: neither the type nor an alias is there. */
  predicate TypesDeny(types: set<int>, qtype: int) {
    && (qtype == TYPE_DS ==> TYPE_NS in types && TYPE_SOA !in types)
    && qtype !in types && TYPE_CNAME !in types && TYPE_DNAME !in types
  }

  /** The wildcard at an encloser. */
  function Wildcard(ce: Name): Name {
    [[0x2a]] + ce
  }
}
