/**
 * The bookkeeping of `sortTo` (knheap.h lines 123-149): slots 1..sz of the
 * heap hold the live elements still to be output together with a growing
 * bag of unused elements, each carrying the supremum, while the output
 * array holds the elements already taken, in increasing order.
 */
module SortOrder {
  import opened NumberRange
  import opened ElementBags
  import opened HeapOrder

  /** Writing x into slot i extends the prefix before slot i by x. */
  lemma UpdateSnoc<T>(t: seq<T>, u: seq<T>, i: nat, x: T)
    requires i < |t| && u == t[i := x]
    ensures u[..i + 1] == t[..i] + [x]
  {
  }

  /**
   * While live elements remain, the root is one of them, and no live
   * element has a smaller key: unused elements carry the supremum, which
   * is larger than every legal key.
   */
  lemma RootOfLive<V>(s: seq<Element<V>>, n: nat, live: multiset<Element<V>>, dead: multiset<Element<V>>)
    requires HeapOrdered(s, n) && Bag(s, 1, n + 1) == live + dead
    requires LegalBag(live) && AllSup(dead) && |live| > 0
    ensures n >= 1 && s[1] in live && KeysAtLeast(live, s[1].key)
  {
    var e :| e in live;
    assert Member(live, e);
    BagSize(s, 1, n + 1);
    RootIsMinOfBag(s, n);
    assert e in Bag(s, 1, n + 1);
    if s[1] !in live {
      assert Member(dead, s[1]);
    }
    forall x | x in live ensures s[1].key <= x.key {
      assert x in Bag(s, 1, n + 1);
    }
  }

  /** Taking the root out of the heap leaves a hole at the root. */
  lemma StartRound<V>(s: seq<Element<V>>, n: nat, live: multiset<Element<V>>, dead: multiset<Element<V>>)
    requires HeapOrdered(s, n) && n >= 1 && Bag(s, 1, n + 1) == live + dead && s[1] in live
    ensures Sinking(s, n, 1, live - multiset{s[1]} + dead)
  {
    HoleAtRoot(s, n);
    var r := s[1];
    forall e ensures (live + dead)[e] == (live - multiset{r} + dead + multiset{r})[e] {
    }
    assert live + dead == live - multiset{r} + dead + multiset{r};
  }

  /** The element freed at the end of a round joins the unused ones. */
  lemma EndRound<V>(live: multiset<Element<V>>, dead: multiset<Element<V>>, x: Element<V>)
    requires AllSup(dead) && x.key == SUP
    ensures live + dead + multiset{x} == live + (dead + multiset{x})
    ensures AllSup(dead + multiset{x})
  {
    forall e | e in dead + multiset{x} ensures e.key == SUP {
      if e != x {
        assert Member(dead, e);
      }
    }
  }

  /**
   * Copying the root to the output moves it from the live elements to the
   * output, keeps the output sorted, and the rest of the live elements
   * still have keys no smaller than the last one output.
   */
  lemma Emit<V>(out: seq<Element<V>>, live: multiset<Element<V>>, before: multiset<Element<V>>, root: Element<V>)
    requires multiset(out) + live == before && root in live && KeysAtLeast(live, root.key)
    requires Sorted(out) && (|out| > 0 ==> KeysAtLeast(live, out[|out| - 1].key))
    ensures multiset(out + [root]) + (live - multiset{root}) == before
    ensures |live - multiset{root}| == |live| - 1
    ensures Sorted(out + [root]) && KeysAtLeast(live - multiset{root}, root.key)
  {
    var rest := live - multiset{root};
    assert live == rest + multiset{root};
    assert multiset(out + [root]) == multiset(out) + multiset{root};
    var t := out + [root];
    if |out| > 0 {
      assert Member(live, root);
    }
    forall i, j | 0 <= i < j < |t| ensures InOrder(t, i, j) {
      if j < |out| {
        assert InOrder(out, i, j);
      } else if i < |out| - 1 {
        assert InOrder(out, i, |out| - 1);
      }
    }
    forall e | e in rest ensures root.key <= e.key {
      assert Member(live, e);
    }
  }

  /**
   * Once every live element has been output, all of slots 1..n are unused:
   * the slot layout is that of an empty heap.
   */
  lemma AllDead<V>(s: seq<Element<V>>, n: nat, cap: nat, dead: multiset<Element<V>>)
    requires Framed(s, n, cap) && Bag(s, 1, n + 1) == dead && AllSup(dead)
    ensures Framed(s, 0, cap)
  {
    forall i | 0 < i <= cap ensures Dead(s, i) {
      if i <= n {
        BagHas(s, 1, n + 1, i);
        assert Member(dead, s[i]);
      } else {
        assert Dead(s, i);
      }
    }
  }

  /**
   * The state of the outer loop of `sortTo` on n slots with capacity cap,
   * where `out` has been output so far: slots 1..n are in heap order and
   * hold the live elements and the unused ones, and `out`, sorted and
   * no larger than any live element, together with the live elements is
   * what the heap held on entry.
   */
  ghost predicate Sorting<V>(s: seq<Element<V>>, n: nat, cap: nat, out: seq<Element<V>>,
                             live: multiset<Element<V>>, dead: multiset<Element<V>>, before: multiset<Element<V>>) {
    Framed(s, n, cap) && HeapOrdered(s, n) && Bag(s, 1, n + 1) == live + dead &&
    LegalBag(live) && AllSup(dead) && |out| + |live| == n &&
    multiset(out) + live == before &&
    Sorted(out) && (|out| > 0 ==> KeysAtLeast(live, out[|out| - 1].key))
  }

  /** Entering `sortTo`: nothing is output and every element is live. */
  lemma SortStart<V>(s: seq<Element<V>>, n: nat, cap: nat)
    requires Framed(s, n, cap) && HeapOrdered(s, n) && LegalBag(Bag(s, 1, n + 1))
    ensures Sorting(s, n, cap, [], Bag(s, 1, n + 1), multiset{}, Bag(s, 1, n + 1))
  {
    BagSize(s, 1, n + 1);
  }

  /** Starting a round: the root is live, and taking it out leaves a hole at the root. */
  lemma BeginRound<V>(s: seq<Element<V>>, n: nat, cap: nat, out: seq<Element<V>>,
                      live: multiset<Element<V>>, dead: multiset<Element<V>>, before: multiset<Element<V>>)
    requires Sorting(s, n, cap, out, live, dead, before) && |out| < n
    ensures 1 <= n && s[1] in live
    ensures Sinking(s, n, 1, live - multiset{s[1]} + dead)
  {
    RootOfLive(s, n, live, dead);
    StartRound(s, n, live, dead);
  }

  /**
   * Finishing a round: after the root s[1] is output and the hole has sunk
   * and been marked unused, leaving t, the loop state holds again with one
   * more element output.
   */
  lemma FinishRound<V>(s: seq<Element<V>>, t: seq<Element<V>>, n: nat, cap: nat, out: seq<Element<V>>, out': seq<Element<V>>,
                       live: multiset<Element<V>>, dead: multiset<Element<V>>, before: multiset<Element<V>>, freed: Element<V>)
    requires Sorting(s, n, cap, out, live, dead, before) && |out| < n
    requires Framed(t, n, cap) && HeapOrdered(t, n) && freed.key == SUP
    requires Bag(t, 1, n + 1) == live - multiset{s[1]} + dead + multiset{freed}
    requires out' == out + [s[1]]
    ensures Sorting(t, n, cap, out', live - multiset{s[1]}, dead + multiset{freed}, before)
  {
    RootOfLive(s, n, live, dead);
    Emit(out, live, before, s[1]);
    LegalBagSub(live - multiset{s[1]}, live);
    EndRound(live - multiset{s[1]}, dead, freed);
  }

  /**
   * Leaving `sortTo`: with every element output, the output is the sorted
   * contents of the heap on entry, and all slots are unused.
   */
  lemma SortEnd<V>(s: seq<Element<V>>, n: nat, cap: nat, out: seq<Element<V>>,
                   live: multiset<Element<V>>, dead: multiset<Element<V>>, before: multiset<Element<V>>)
    requires Sorting(s, n, cap, out, live, dead, before) && |out| == n
    ensures Framed(s, 0, cap) && HeapOrdered(s, 0)
    ensures Bag(s, 1, 0 + 1) == multiset{} && LegalBag(Bag(s, 1, 0 + 1))
    ensures Sorted(out) && multiset(out) == before
  {
    assert live == multiset{};
    AllDead(s, n, cap, dead);
  }
}
