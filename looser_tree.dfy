/**
 * The inline accessors of one tournament level (KNLooserTree, knheap.h
 * lines 179-239). Only the counters they read are modelled: the current
 * arity `k` with its logarithm, the top of the stack of free segment
 * slots, the element count and the sentinel element that empty segments
 * point at.
 */
module LooserTrees {
  import opened NumberRange
  import opened ElementBags
  import opened Tuning

  /** 2 to the power e. */
  function Pow2(e: nat): (r: nat)
    ensures r >= 1
  {
    if e == 0 then 1 else 2 * Pow2(e - 1)
  }

  /** Powers of two grow strictly with the exponent. */
  lemma {:induction false} Pow2Below(e: nat, f: nat)
    requires e < f
    ensures Pow2(e) < Pow2(f)
    decreases f
  {
    if e < f - 1 {
      Pow2Below(e, f - 1);
    }
  }

  /**
   * An arity 2^e with e at most the largest logarithm is below the largest
   * arity exactly when e is below the largest logarithm.
   */
  lemma ArityBelowMax(e: nat)
    requires e <= LogKNKMAX
    ensures Pow2(e) < KNKMAX <==> e < LogKNKMAX
  {
    assert Pow2(LogKNKMAX) == KNKMAX;
    if e < LogKNKMAX {
      Pow2Below(e, LogKNKMAX);
    }
  }

  class LooserTree<V(0)> {
    /** Current arity; invariant k = 1 << logK. */
    var k: nat
    /** log of the current arity. */
    var logK: nat
    /** Index of the last valid entry of the stack `empty`, -1 when it is empty. */
    var lastFree: int
    /** Total number of elements stored in the level. */
    var size: nat
    /** Target of empty segment pointers, carrying the supremum after `init`. */
    var dummy: Element<V>

    /** The state after `init(sup)`. */
    ghost predicate Valid()
      reads this
    {
      logK <= LogKNKMAX && k == Pow2(logK) &&
      -1 <= lastFree < KNKMAX &&
      dummy.key == SUP
    }

    /**
     * `spaceIsAvailable`: a new segment fits when the tree may still
     * double its arity or a freed segment slot is on the stack. With the
     * invariant k = 2^logK this is the same as logK being below its
     * maximum or the stack being non-empty.
     */
    function SpaceIsAvailable(): (r: bool)
      reads this
      requires Valid()
      ensures r <==> (logK < LogKNKMAX || lastFree >= 0)
      ensures !r ==> k == KNKMAX && lastFree == -1
    {
      ArityBelowMax(logK);
      k < KNKMAX || lastFree >= 0
    }

    /** `getSize`: the number of elements stored in the level. */
    function GetSize(): (r: nat)
      reads this
      ensures r == size
    {
      size
    }

    /** `getSupremum`: the key of the sentinel element, the supremum. */
    function GetSupremum(): (r: Key)
      reads this
      requires Valid()
      ensures r == SUP && !Contains(r)
    {
      dummy.key
    }
  }
}
