/**
 * Facts about the array layout of a binary min-heap, stated over the
 * sequence of slots: slot 1 is the root and the parent of slot i is slot
 * i / 2.
 */
module HeapOrder {
  import opened NumberRange
  import opened ElementBags

  /** The parent slot of slot i (`i >> 1` in knheap.h). */
  function Parent(i: nat): nat {
    i / 2
  }

  /** Slot i of s exists and holds the supremum: it is unused. */
  ghost predicate Dead<V>(s: seq<Element<V>>, i: nat) {
    i < |s| && s[i].key == SUP
  }

  /** Every slot after n up to cap is unused. */
  ghost predicate DeadAbove<V>(s: seq<Element<V>>, n: nat, cap: nat) {
    forall i :: n < i <= cap ==> Dead(s, i)
  }

  /**
   * The slot layout of a heap of capacity cap holding n elements: the
   * infimum in slot 0, the supremum in slot cap + 1, and every slot after n
   * up to cap unused.
   */
  ghost predicate Framed<V>(s: seq<Element<V>>, n: nat, cap: nat) {
    |s| == cap + 2 && s[0].key == INF && s[cap + 1].key == SUP &&
    n <= cap && DeadAbove(s, n, cap)
  }

  /** Writing a live slot keeps the layout. */
  lemma WriteBelow<V>(s: seq<Element<V>>, n: nat, cap: nat, h: nat, x: Element<V>)
    requires Framed(s, n, cap) && 1 <= h <= n
    ensures Framed(s[h := x], n, cap)
  {
    var t := s[h := x];
    forall i | n < i <= cap ensures Dead(t, i) {
      assert Dead(s, i);
    }
  }

  /** Min-heap order on slots 1..n of s: no parent's key exceeds its child's. */
  ghost predicate HeapOrdered<V>(s: seq<Element<V>>, n: nat) {
    n < |s| && forall i :: 2 <= i <= n ==> s[Parent(i)].key <= s[i].key
  }

  /**
   * Heap order on slots 1..n around a hole at slot h: every parent-child
   * edge that does not touch h is ordered, and h's parent is no greater than
   * h's children (so the hole may be filled from either side).
   */
  ghost predicate OrderedAround<V>(s: seq<Element<V>>, n: nat, h: nat) {
    n < |s| && 1 <= h <= n &&
    (forall i :: 2 <= i <= n && i != h && Parent(i) != h ==> s[Parent(i)].key <= s[i].key) &&
    (h >= 2 ==> ChildrenAtLeast(s, n, h, s[Parent(h)].key))
  }

  /** Every child of slot h within 1..n (slots 2h and 2h + 1) has a key of at least k. */
  ghost predicate ChildrenAtLeast<V>(s: seq<Element<V>>, n: nat, h: nat, k: Key) {
    n < |s| &&
    (2 * h <= n ==> k <= s[2 * h].key) &&
    (2 * h + 1 <= n ==> k <= s[2 * h + 1].key)
  }

  /** The root of a heap holds the smallest key of slots 1..n. */
  lemma {:induction false} RootIsMin<V>(s: seq<Element<V>>, n: nat, i: nat)
    requires HeapOrdered(s, n) && 1 <= i <= n
    ensures s[1].key <= s[i].key
    decreases i
  {
    if i > 1 {
      RootIsMin(s, n, Parent(i));
    }
  }

  /** The root of a heap has the smallest key of every element in slots 1..n. */
  lemma RootIsMinOfBag<V>(s: seq<Element<V>>, n: nat)
    requires HeapOrdered(s, n)
    ensures n > 0 ==> s[1] in Bag(s, 1, n + 1)
    ensures forall e :: e in Bag(s, 1, n + 1) ==> s[1].key <= e.key
  {
    if n > 0 {
      BagHas(s, 1, n + 1, 1);
    }
    forall e | e in Bag(s, 1, n + 1) ensures s[1].key <= e.key {
      BagIn(s, 1, n + 1, e);
      var i :| 1 <= i < n + 1 && s[i] == e;
      RootIsMin(s, n, i);
    }
  }

  /** A hole at the very root of a heap is a hole in an ordered array. */
  lemma HoleAtRoot<V>(s: seq<Element<V>>, n: nat)
    requires HeapOrdered(s, n) && n >= 1
    ensures OrderedAround(s, n, 1)
  {
  }

  /**
   * One step of moving a hole down the min-path: the smaller child c of the
   * hole h moves up into h, and the hole is now at c.
   */
  lemma SiftDownStep<V>(s: seq<Element<V>>, n: nat, h: nat, c: nat)
    requires OrderedAround(s, n, h)
    requires Parent(c) == h && 2 <= c <= n
    requires ChildrenAtLeast(s, n, h, s[c].key)
    ensures OrderedAround(s[h := s[c]], n, c)
  {
    var t := s[h := s[c]];
    forall i | 2 <= i <= n && i != c && Parent(i) != c
      ensures t[Parent(i)].key <= t[i].key
    {
      if Parent(i) == h {
        assert i == 2 * h || i == 2 * h + 1;
      } else if i == h {
      }
    }
    if 2 * c <= n {
      assert s[c].key <= s[2 * c].key by { assert Parent(2 * c) == c; }
    }
    if 2 * c + 1 <= n {
      assert s[c].key <= s[2 * c + 1].key by { assert Parent(2 * c + 1) == c; }
    }
  }

  /**
   * One step of moving a hole up: while the hole's parent p has a key
   * greater than k, p moves down into the hole and the hole moves to p.
   */
  lemma SiftUpStep<V>(s: seq<Element<V>>, n: nat, h: nat, k: Key)
    requires OrderedAround(s, n, h) && ChildrenAtLeast(s, n, h, k)
    requires 2 <= h <= n && s[Parent(h)].key > k
    ensures OrderedAround(s[h := s[Parent(h)]], n, Parent(h))
    ensures ChildrenAtLeast(s[h := s[Parent(h)]], n, Parent(h), k)
  {
    var p := Parent(h);
    var t := s[h := s[p]];
    forall i | 2 <= i <= n && i != p && Parent(i) != p
      ensures t[Parent(i)].key <= t[i].key
    {
      if Parent(i) == h {
        assert i == 2 * h || i == 2 * h + 1;
      }
    }
    assert h == 2 * p || h == 2 * p + 1;
    var sib := if h == 2 * p then 2 * p + 1 else 2 * p;
    if sib <= n {
      assert Parent(sib) == p;
      assert s[p].key <= s[sib].key;
    }
    if p >= 2 {
      assert s[Parent(p)].key <= s[p].key;
    }
  }

  /**
   * Filling a hole with an element that fits between the hole's parent and
   * its children restores the heap order.
   */
  lemma FillHole<V>(s: seq<Element<V>>, n: nat, h: nat, e: Element<V>)
    requires OrderedAround(s, n, h) && ChildrenAtLeast(s, n, h, e.key) && h <= n
    requires h >= 2 ==> s[Parent(h)].key <= e.key
    ensures HeapOrdered(s[h := e], n)
  {
    var t := s[h := e];
    forall i | 2 <= i <= n ensures t[Parent(i)].key <= t[i].key {
      if Parent(i) == h {
        assert i == 2 * h || i == 2 * h + 1;
      } else if i == h {
      }
    }
  }

  /** The elements in slots lo..hi-1 of s. */
  ghost function Bag<V>(s: seq<Element<V>>, lo: nat, hi: nat): multiset<Element<V>>
    requires lo <= hi <= |s|
    decreases hi - lo
  {
    if lo == hi then multiset{} else Bag(s, lo, hi - 1) + multiset{s[hi - 1]}
  }

  /** A non-empty slice is the shorter slice followed by its last slot. */
  lemma SliceSnoc<T>(s: seq<T>, lo: nat, hi: nat)
    requires lo < hi <= |s|
    ensures s[lo..hi] == s[lo..hi - 1] + [s[hi - 1]]
  {
  }

  /** Appending x adds one copy of x to the multiset of a sequence. */
  lemma MultisetSnoc<T>(a: seq<T>, x: T)
    ensures multiset(a + [x]) == multiset(a) + multiset{x}
  {
  }

  /** Bag is the multiset of the slice. */
  lemma {:induction false} BagIsSlice<V>(s: seq<Element<V>>, lo: nat, hi: nat)
    requires lo <= hi <= |s|
    ensures Bag(s, lo, hi) == multiset(s[lo..hi])
    decreases hi - lo
  {
    if lo < hi {
      BagIsSlice(s, lo, hi - 1);
      SliceSnoc(s, lo, hi);
      MultisetSnoc(s[lo..hi - 1], s[hi - 1]);
    }
  }

  /** The bag of a range has one element per slot. */
  lemma {:induction false} BagSize<V>(s: seq<Element<V>>, lo: nat, hi: nat)
    requires lo <= hi <= |s|
    ensures |Bag(s, lo, hi)| == hi - lo
    decreases hi - lo
  {
    if lo < hi {
      BagSize(s, lo, hi - 1);
    }
  }

  /** Every slot of the range is in its bag. */
  lemma {:induction false} BagHas<V>(s: seq<Element<V>>, lo: nat, hi: nat, i: nat)
    requires lo <= i < hi <= |s|
    ensures s[i] in Bag(s, lo, hi)
    decreases hi - lo
  {
    if i < hi - 1 {
      BagHas(s, lo, hi - 1, i);
    }
  }

  /** Every element of the bag sits in some slot of the range. */
  lemma {:induction false} BagIn<V>(s: seq<Element<V>>, lo: nat, hi: nat, e: Element<V>)
    requires lo <= hi <= |s| && e in Bag(s, lo, hi)
    ensures exists i :: lo <= i < hi && s[i] == e
    decreases hi - lo
  {
    if e != s[hi - 1] {
      BagIn(s, lo, hi - 1, e);
    }
  }

  /** Overwriting slot i of the range exchanges its occupant for x in the bag. */
  lemma {:induction false} BagUpdate<V>(s: seq<Element<V>>, lo: nat, hi: nat, i: nat, x: Element<V>)
    requires lo <= i < hi <= |s|
    ensures Bag(s[i := x], lo, hi) + multiset{s[i]} == Bag(s, lo, hi) + multiset{x}
    decreases hi - lo
  {
    var t := s[i := x];
    if i == hi - 1 {
      BagFrame(s, t, lo, hi - 1);
      assert Bag(t, lo, hi) == Bag(s, lo, hi - 1) + multiset{x};
    } else {
      BagUpdate(s, lo, hi - 1, i, x);
      assert t[hi - 1] == s[hi - 1];
      AddBoth(Bag(t, lo, hi - 1), Bag(s, lo, hi - 1), s[i], x, s[hi - 1]);
    }
  }

  /**
   * Writing x over slot i of a range whose bag is m plus the old occupant
   * makes the range's bag m plus x.
   */
  lemma WriteSlot<V>(s: seq<Element<V>>, lo: nat, hi: nat, i: nat, x: Element<V>, m: multiset<Element<V>>)
    requires lo <= i < hi <= |s|
    requires Bag(s, lo, hi) == m + multiset{s[i]}
    ensures Bag(s[i := x], lo, hi) == m + multiset{x}
  {
    BagUpdate(s, lo, hi, i, x);
    Cancel(Bag(s[i := x], lo, hi), m + multiset{x}, s[i]);
  }

  /** The bag of a range depends only on the slots of the range. */
  lemma {:induction false} BagFrame<V>(s: seq<Element<V>>, t: seq<Element<V>>, lo: nat, hi: nat)
    requires lo <= hi <= |s| && hi <= |t|
    requires forall i :: lo <= i < hi ==> s[i] == t[i]
    ensures Bag(s, lo, hi) == Bag(t, lo, hi)
    decreases hi - lo
  {
    if lo < hi {
      BagFrame(s, t, lo, hi - 1);
    }
  }

  /**
   * The state of the climbing loop of `insert` (and of the second phase of
   * `deleteMin`): slots 1..n are ordered around the hole, whose children
   * are no smaller than the key k being placed, and the bag of slots 1..n
   * is `bag` plus whatever the hole currently holds.
   */
  ghost predicate Climbing<V>(s: seq<Element<V>>, n: nat, hole: nat, k: Key, bag: multiset<Element<V>>) {
    n < |s| && s[0].key == INF &&
    OrderedAround(s, n, hole) && ChildrenAtLeast(s, n, hole, k) &&
    Bag(s, 1, n + 1) == bag + multiset{s[hole]}
  }

  /** A fresh slot n appended to a heap of n - 1 slots is a hole to climb from. */
  lemma ClimbStart<V>(s: seq<Element<V>>, n: nat, k: Key, bag: multiset<Element<V>>)
    requires 1 <= n < |s| && s[0].key == INF
    requires HeapOrdered(s, n - 1) && Bag(s, 1, n) == bag
    ensures Climbing(s, n, n, k, bag)
  {
  }

  /**
   * One pass of the climbing loop: the parent of the hole, whose key exceeds
   * the legal key k, moves down into the hole. The infimum in slot 0 makes
   * sure the parent is a real slot.
   */
  lemma ClimbStep<V>(s: seq<Element<V>>, n: nat, hole: nat, k: Key, bag: multiset<Element<V>>)
    requires Climbing(s, n, hole, k, bag) && Contains(k)
    requires s[Parent(hole)].key > k
    ensures 1 <= Parent(hole) < hole
    ensures Climbing(s[hole := s[Parent(hole)]], n, Parent(hole), k, bag)
  {
    var p := Parent(hole);
    SiftUpStep(s, n, hole, k);
    WriteSlot(s, 1, n + 1, hole, s[p], bag);
    assert s[hole := s[p]][p] == s[p];
  }

  /** When the climbing loop stops, the element with key k fills the hole. */
  lemma ClimbDone<V>(s: seq<Element<V>>, n: nat, hole: nat, e: Element<V>, bag: multiset<Element<V>>)
    requires Climbing(s, n, hole, e.key, bag)
    requires s[Parent(hole)].key <= e.key
    ensures HeapOrdered(s[hole := e], n)
    ensures Bag(s[hole := e], 1, n + 1) == bag + multiset{e}
  {
    FillHole(s, n, hole, e);
    WriteSlot(s, 1, n + 1, hole, e, bag);
  }

  /**
   * The state of the descending loop of `deleteMin`: slots 1..n are ordered
   * around the hole, the last slot n still holds `last`, and the bag of
   * slots 1..n is `bag` plus whatever the hole currently holds.
   */
  ghost predicate Descending<V>(s: seq<Element<V>>, n: nat, hole: nat, last: Element<V>, bag: multiset<Element<V>>) {
    n < |s| && s[0].key == INF && s[n] == last &&
    OrderedAround(s, n, hole) &&
    (hole == n ==> s[Parent(hole)].key <= last.key) &&
    Bag(s, 1, n + 1) == bag + multiset{s[hole]}
  }

  /** Removing the root of a heap leaves a hole at the root. */
  lemma DescendStart<V>(s: seq<Element<V>>, n: nat)
    requires HeapOrdered(s, n) && n >= 1 && s[0].key == INF
    ensures Descending(s, n, 1, s[n], Bag(s, 1, n + 1) - multiset{s[1]})
  {
    HoleAtRoot(s, n);
    assert Parent(1) == 0;
    BagHas(s, 1, n + 1, 1);
    TakeOut(Bag(s, 1, n + 1), s[1]);
  }

  /**
   * One pass of the descending loop, while the hole has two children: the
   * smaller child c moves up into the hole (the left one on a tie).
   */
  lemma DescendStep<V>(s: seq<Element<V>>, n: nat, hole: nat, left: nat, c: nat, last: Element<V>, bag: multiset<Element<V>>)
    requires Descending(s, n, hole, last, bag) && left == 2 * hole && left < n
    requires c == left || c == left + 1
    requires c == left + 1 <==> s[left].key > s[left + 1].key
    ensures hole < c <= n && Parent(c) == hole
    ensures Descending(s[hole := s[c]], n, c, last, bag)
  {
    SiftDownStep(s, n, hole, c);
    WriteSlot(s, 1, n + 1, hole, s[c], bag);
    if c == n {
      assert s[hole := s[c]][Parent(c)] == last;
    }
  }

  /**
   * When the descending loop stops, either the hole reached the last slot
   * (so slots 1..n-1 already form the smaller heap) or the last element
   * must climb from the hole within slots 1..n-1.
   */
  lemma DescendDone<V>(s: seq<Element<V>>, n: nat, hole: nat, last: Element<V>, bag: multiset<Element<V>>)
    requires Descending(s, n, hole, last, bag) && 2 * hole >= n
    ensures Bubbling(s, n, hole, last, bag, Bag(s, 1, n) - multiset{s[hole]})
  {
    assert Bag(s, 1, n + 1) == Bag(s, 1, n) + multiset{last};
    if hole < n {
      BagHas(s, 1, n, hole);
      var rest := Bag(s, 1, n) - multiset{s[hole]};
      assert Bag(s, 1, n) == rest + multiset{s[hole]};
      Cancel(rest + multiset{last}, bag, s[hole]);
      forall i | 2 <= i <= n - 1 && i != hole && Parent(i) != hole
        ensures s[Parent(i)].key <= s[i].key
      {
      }
    } else {
      forall i | 2 <= i <= n - 1 ensures s[Parent(i)].key <= s[i].key {
        assert Parent(i) != n;
      }
      Cancel(Bag(s, 1, n), bag, last);
    }
  }

  /** Taking out an element of a bag and putting it back gives the bag again. */
  lemma TakeOut<T>(m: multiset<T>, x: T)
    requires x in m
    ensures m - multiset{x} + multiset{x} == m
  {
    forall e ensures (m - multiset{x} + multiset{x})[e] == m[e] {
    }
  }

  /**
   * The state of the inner loop of `sortTo` on n slots: a hole moves down
   * from the root, the other slots of 1..n holding `bag`. Unlike in
   * `deleteMin` the last slot takes part in the descent, since unused slots
   * carry the supremum and so sink below every live element.
   */
  ghost predicate Sinking<V>(s: seq<Element<V>>, n: nat, hole: nat, bag: multiset<Element<V>>) {
    OrderedAround(s, n, hole) && Bag(s, 1, n + 1) == bag + multiset{s[hole]}
  }

  /**
   * One pass of the inner loop of `sortTo`, while the hole has a child in
   * 1..n: the smaller child moves up. Slot n + 1 holds the supremum, so it
   * is never taken.
   */
  lemma SinkStep<V>(s: seq<Element<V>>, n: nat, cap: nat, hole: nat, left: nat, c: nat, bag: multiset<Element<V>>)
    requires Framed(s, n, cap) && Sinking(s, n, hole, bag) && left == 2 * hole && left <= n
    requires c == left || c == left + 1
    requires c == left + 1 <==> s[left].key > s[left + 1].key
    ensures hole < c <= n && Parent(c) == hole
    ensures Sinking(s[hole := s[c]], n, c, bag)
  {
    if n == cap {
      assert s[n + 1].key == SUP;
    } else {
      assert Dead(s, n + 1);
    }
    SiftDownStep(s, n, hole, c);
    WriteSlot(s, 1, n + 1, hole, s[c], bag);
  }

  /**
   * The end of one round of `sortTo`: the hole has no child in 1..n, and
   * marking it unused leaves slots 1..n in heap order, holding `bag` and
   * one more unused element.
   */
  lemma SinkDone<V>(s: seq<Element<V>>, n: nat, hole: nat, bag: multiset<Element<V>>)
    requires Sinking(s, n, hole, bag) && 2 * hole > n
    ensures HeapOrdered(s[hole := Element(SUP, s[hole].value)], n)
    ensures Bag(s[hole := Element(SUP, s[hole].value)], 1, n + 1) == bag + multiset{Element(SUP, s[hole].value)}
  {
    FillHole(s, n, hole, Element(SUP, s[hole].value));
    WriteSlot(s, 1, n + 1, hole, Element(SUP, s[hole].value), bag);
  }

  /** One more copy of z can be added to both sides of a bag equation. */
  lemma AddBoth<T>(a: multiset<T>, b: multiset<T>, p: T, q: T, z: T)
    requires a + multiset{p} == b + multiset{q}
    ensures a + multiset{z} + multiset{p} == b + multiset{z} + multiset{q}
  {
    forall e ensures (a + multiset{z} + multiset{p})[e] == (b + multiset{z} + multiset{q})[e] {
      assert (a + multiset{p})[e] == (b + multiset{q})[e];
    }
  }

  /** One copy of x can be taken off both sides of a bag equation. */
  lemma Cancel<T>(a: multiset<T>, b: multiset<T>, x: T)
    requires a + multiset{x} == b + multiset{x}
    ensures a == b
  {
    forall e ensures a[e] == b[e] {
      assert (a + multiset{x})[e] == (b + multiset{x})[e];
    }
  }

  /**
   * The state of the second loop of `deleteMin` on n slots, where `last` is
   * the element of slot n: either the hole reached slot n and slots
   * 1..n - 1 already hold `bag` in heap order, or the hole is below n and
   * `last` climbs into slots 1..n - 1, which hold `rest` besides the hole.
   */
  ghost predicate Bubbling<V>(s: seq<Element<V>>, n: nat, hole: nat, last: Element<V>, bag: multiset<Element<V>>, rest: multiset<Element<V>>) {
    1 <= hole <= n < |s| && s[n] == last &&
    (hole == n ==> s[Parent(hole)].key <= last.key && HeapOrdered(s, n - 1) && Bag(s, 1, n) == bag) &&
    (hole < n ==> Climbing(s, n - 1, hole, last.key, rest) && rest + multiset{last} == bag)
  }

  /** One pass of the second loop: the parent of the hole moves down into it. */
  lemma BubbleStep<V>(s: seq<Element<V>>, n: nat, hole: nat, last: Element<V>, bag: multiset<Element<V>>, rest: multiset<Element<V>>)
    requires Bubbling(s, n, hole, last, bag, rest) && Contains(last.key)
    requires s[Parent(hole)].key > last.key
    ensures 1 <= Parent(hole) < hole
    ensures Bubbling(s[hole := s[Parent(hole)]], n, Parent(hole), last, bag, rest)
  {
    ClimbStep(s, n - 1, hole, last.key, rest);
  }

  /**
   * The end of `deleteMin` on a heap of n slots: the last element goes into
   * the hole, after which slots 1..n - 1 are a heap holding `bag`.
   */
  lemma FillLast<V>(s: seq<Element<V>>, n: nat, hole: nat, last: Element<V>, bag: multiset<Element<V>>, rest: multiset<Element<V>>)
    requires Bubbling(s, n, hole, last, bag, rest) && s[Parent(hole)].key <= last.key
    ensures HeapOrdered(s[hole := last], n - 1)
    ensures Bag(s[hole := last], 1, n) == bag
  {
    if hole < n {
      ClimbDone(s, n - 1, hole, last, rest);
    } else {
      assert s[hole := last] == s;
    }
  }

  /**
   * Marking slot n unused after a deletion: slots 1..m, where m = n - 1,
   * keep their order and contents, and the layout now has m elements.
   */
  lemma RetireLast<V>(t: seq<Element<V>>, n: nat, m: nat, cap: nat)
    requires Framed(t, n, cap) && m + 1 == n
    requires HeapOrdered(t, m)
    ensures HeapOrdered(t[n := Element(SUP, t[n].value)], m)
    ensures Bag(t[n := Element(SUP, t[n].value)], 1, n) == Bag(t, 1, n)
    ensures Framed(t[n := Element(SUP, t[n].value)], m, cap)
  {
    var u := t[n := Element(SUP, t[n].value)];
    BagFrame(t, u, 1, n);
    forall i | m < i <= cap ensures Dead(u, i) {
      if i > n {
        assert Dead(t, i);
      }
    }
  }
  /**
   * The end of `deleteMin`: `last` fills the hole and slot n = m + 1 is
   * marked unused; slots 1..m are a heap holding `bag` in the layout for m
   * elements.
   */
  lemma DeleteDone<V>(s: seq<Element<V>>, t: seq<Element<V>>, u: seq<Element<V>>, n: nat, m: nat, cap: nat, hole: nat, last: Element<V>, bag: multiset<Element<V>>, rest: multiset<Element<V>>)
    requires Framed(s, n, cap) && m + 1 == n
    requires Bubbling(s, n, hole, last, bag, rest) && s[Parent(hole)].key <= last.key
    requires t == s[hole := Element(last.key, s[n].value)] && u == t[n := Element(SUP, t[n].value)]
    ensures HeapOrdered(u, m) && Bag(u, 1, m + 1) == bag && Framed(u, m, cap)
    ensures u[n].key == SUP
  {
    FillLast(s, n, hole, last, bag, rest);
    WriteBelow(s, n, cap, hole, last);
    RetireLast(t, n, m, cap);
  }


}
