/**
 * Sentinel keys and the legal key range (NumberRange, knheap.h lines 25-37),
 * instantiated for a 32-bit signed key type: it has no infinity, so the
 * infimum is its lowest value and the supremum its largest.
 */
module NumberRange {
  /** The infimum sentinel, `inf()`. */
  const INF: int := -0x8000_0000
  /** The supremum sentinel, `sup()`. */
  const SUP: int := 0x7FFF_FFFF

  /** Every value a key variable can hold. */
  type Key = k: int | INF <= k <= SUP

  /** `contains(k)`: the keys a caller may insert. */
  predicate Contains(k: Key) {
    INF < k && k < SUP
  }

  /**
   * Legal keys lie strictly between the sentinels, and neither sentinel is
   * itself a legal key: the sentinels can always be told apart from data.
   */
  lemma SentinelsAreNotKeys(k: Key)
    ensures Contains(k) <==> k != INF && k != SUP
    ensures !Contains(INF) && !Contains(SUP)
    ensures Contains(k) ==> INF < k < SUP
  {
  }
}
