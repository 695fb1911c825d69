/**
 * Queue elements (KNElement, knheap.h line 40) and the two properties the
 * buffers keep of them: a run is ascending by key, and a bag of elements
 * holds only legal keys.
 */
module ElementBags {
  import opened NumberRange

  /** An element of the queue: a key with its opaque payload (KNElement, line 40). */
  datatype Element<V> = Element(key: Key, value: V)

  /** The keys of `s` do not decrease from left to right. */
  ghost predicate Sorted<V>(s: seq<Element<V>>) {
    forall i, j {:trigger InOrder(s, i, j)} :: 0 <= i < j < |s| ==> InOrder(s, i, j)
  }

  /**
   * Slots i and j of s exist and the key in slot i is no larger than the
   * key in slot j. The quantifier of `Sorted` fires only on this term.
   */
  ghost predicate InOrder<V>(s: seq<Element<V>>, i: nat, j: nat) {
    i < |s| && j < |s| && s[i].key <= s[j].key
  }

  /** Every element of the bag `m` has a legal key. */
  ghost predicate LegalBag<V>(m: multiset<Element<V>>) {
    forall e {:trigger Member(m, e)} :: e in m ==> Contains(e.key)
  }

  /**
   * e occurs in m. The quantifiers over the elements of a bag fire only on
   * this term, so a proof states each membership it relies on.
   */
  ghost predicate Member<V>(m: multiset<Element<V>>, e: Element<V>) {
    e in m
  }

  /** A sub-bag of a bag of legal elements is legal. */
  lemma LegalBagSub<V>(a: multiset<Element<V>>, b: multiset<Element<V>>)
    requires a <= b && LegalBag(b)
    ensures LegalBag(a)
  {
    forall e | e in a ensures Contains(e.key) {
      assert Member(b, e);
    }
  }

  /** Adding an element with a legal key to a legal bag keeps it legal. */
  lemma LegalBagAdd<V>(a: multiset<Element<V>>, e: Element<V>)
    requires LegalBag(a) && Contains(e.key)
    ensures LegalBag(a + multiset{e})
  {
    forall x | x in a + multiset{e} ensures Contains(x.key) {
      if x != e {
        assert Member(a, x);
      }
    }
  }

  /** No element of the bag `m` has a key below k. */
  ghost predicate KeysAtLeast<V>(m: multiset<Element<V>>, k: Key) {
    forall e {:trigger Member(m, e)} :: e in m ==> k <= e.key
  }

  /** Every element of the bag `m` carries the supremum: it marks an unused slot. */
  ghost predicate AllSup<V>(m: multiset<Element<V>>) {
    forall e {:trigger Member(m, e)} :: e in m ==> e.key == SUP
  }

  /** The first element of a sorted sequence has the smallest key of all its elements. */
  lemma SortedHeadIsMin<V>(s: seq<Element<V>>, e: Element<V>)
    requires Sorted(s) && e in multiset(s)
    ensures |s| > 0 && s[0].key <= e.key
  {
    assert e in s;
    var i :| 0 <= i < |s| && s[i] == e;
    if i > 0 {
      assert InOrder(s, 0, i);
    }
  }

  /** The union of two legal bags is legal. */
  lemma LegalBagUnion<V>(a: multiset<Element<V>>, b: multiset<Element<V>>)
    requires LegalBag(a) && LegalBag(b)
    ensures LegalBag(a + b)
  {
    forall e | e in a + b ensures Contains(e.key) {
      if e in a {
        assert Member(a, e);
      } else {
        assert Member(b, e);
      }
    }
  }
}
