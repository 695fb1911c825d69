/** Compile-time sizing of the hierarchical queue (knheap.h, lines 9-13). */
module Tuning {
  /** Capacity of the top output cache `buffer1`. */
  const KNBufferSize1: nat := 32
  /** Bandwidth: capacity of the insertion heap and of each level's output cache. */
  const KNN: nat := 512
  /** Maximal arity of a tournament level. */
  const KNKMAX: nat := 64
  /** log2 of KNKMAX. */
  const LogKNKMAX: nat := 6
}
