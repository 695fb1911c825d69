/**
 * Merging ascending runs of elements. The merge levels, their output
 * buffers and the deletion buffer `buffer1` together hold one ascending
 * run; the model's body for emptying the insertion heap merges the sorted
 * contents of that heap into it. The tournament trees that do this in the
 * library are not part of this model, so this merge is a stand-in for
 * them, not a model of their code.
 */
module SortedRuns {
  import opened NumberRange
  import opened ElementBags

  /** The merge of two runs, taking from `a` on equal keys. */
  function Merge<V>(a: seq<Element<V>>, b: seq<Element<V>>): seq<Element<V>>
    decreases |a| + |b|
  {
    if |a| == 0 then b
    else if |b| == 0 then a
    else if a[0].key <= b[0].key then [a[0]] + Merge(a[1..], b)
    else [b[0]] + Merge(a, b[1..])
  }

  /** Prepending an element no larger than the head keeps a run sorted. */
  lemma SortedCons<V>(x: Element<V>, s: seq<Element<V>>)
    requires Sorted(s) && (|s| > 0 ==> x.key <= s[0].key)
    ensures Sorted([x] + s)
  {
    var t := [x] + s;
    forall i, j | 0 <= i < j < |t| ensures InOrder(t, i, j) {
      if i > 0 {
        assert InOrder(s, i - 1, j - 1);
      } else if j > 1 {
        assert InOrder(s, 0, j - 1);
      }
    }
  }

  /** A suffix of a sorted run is sorted. */
  lemma SortedDrop<V>(s: seq<Element<V>>, k: nat)
    requires Sorted(s) && k <= |s|
    ensures Sorted(s[k..])
  {
    var t := s[k..];
    forall i, j | 0 <= i < j < |t| ensures InOrder(t, i, j) {
      assert InOrder(s, i + k, j + k);
    }
  }

  /**
   * The merge holds exactly the elements of both runs, and its first
   * element is the head of one of them.
   */
  lemma {:induction false} MergeContents<V>(a: seq<Element<V>>, b: seq<Element<V>>)
    ensures multiset(Merge(a, b)) == multiset(a) + multiset(b)
    ensures |Merge(a, b)| == |a| + |b|
    ensures |Merge(a, b)| > 0 ==> Merge(a, b)[0] == (if |a| == 0 then b[0] else if |b| == 0 || a[0].key <= b[0].key then a[0] else b[0])
    decreases |a| + |b|
  {
    if |a| > 0 && |b| > 0 {
      if a[0].key <= b[0].key {
        MergeContents(a[1..], b);
        assert a == [a[0]] + a[1..];
      } else {
        MergeContents(a, b[1..]);
        assert b == [b[0]] + b[1..];
      }
    }
  }

  /** The merge of two sorted runs is sorted. */
  lemma {:induction false} MergeSorted<V>(a: seq<Element<V>>, b: seq<Element<V>>)
    requires Sorted(a) && Sorted(b)
    ensures Sorted(Merge(a, b))
    decreases |a| + |b|
  {
    if |a| > 0 && |b| > 0 {
      if a[0].key <= b[0].key {
        SortedDrop(a, 1);
        MergeSorted(a[1..], b);
        MergeContents(a[1..], b);
        if |a| > 1 {
          SortedHeadIsMin(a, a[1]);
        }
        SortedCons(a[0], Merge(a[1..], b));
      } else {
        SortedDrop(b, 1);
        MergeSorted(a, b[1..]);
        MergeContents(a, b[1..]);
        if |b| > 1 {
          SortedHeadIsMin(b, b[1]);
        }
        SortedCons(b[0], Merge(a, b[1..]));
      }
    }
  }
}
