/**
 * The two-level sequence heap (KNHeap, knheap.h lines 244-333): new
 * elements go into a bounded binary heap, and the smallest elements of
 * the merge levels wait, in ascending order, in the deletion buffer
 * `buffer1`, read from the cursor `minBuffer1` up to its end, where a
 * supremum sentinel marks the exhausted buffer.
 *
 * The merge levels (the tournament trees, their buffers `buffer2` and
 * `activeLevels`) are represented by one ascending sequence `below`, whose
 * length is the counter `size`. The cached part of `buffer1` followed by
 * `below` is the stream of everything outside the insertion heap, in
 * ascending order.
 */
module KNHeaps {
  import opened NumberRange
  import opened ElementBags
  import opened Tuning
  import opened BinaryHeaps
  import opened SortedRuns

  /**
   * The smaller of a lower bound of a bag and the head of a sorted
   * sequence is a lower bound of both together.
   */
  lemma FrontIsMin<V>(a: multiset<Element<V>>, s: seq<Element<V>>, k: Key)
    requires Sorted(s) && (|s| > 0 ==> k <= s[0].key)
    requires forall e :: e in a ==> k <= e.key
    ensures forall e :: e in a + multiset(s) ==> k <= e.key
  {
    forall e | e in a + multiset(s) ensures k <= e.key {
      if e !in a {
        SortedHeadIsMin(s, e);
      }
    }
  }

  /** A sequence is its prefix followed by the rest. */
  lemma Split<V>(s: seq<Element<V>>, c: nat)
    requires c <= |s|
    ensures s[..c] + s[c..] == s
  {
  }

  /** Taking the front off the stream takes one copy of it out of the queue. */
  lemma TakeFront<V>(heap: multiset<Element<V>>, s: seq<Element<V>>, t: seq<Element<V>>)
    requires |s| > 0 && t == s[1..]
    ensures heap + multiset(t) == heap + multiset(s) - multiset{s[0]}
  {
    assert s == [s[0]] + t;
  }

  /** Taking an element out of the insertion heap takes one copy of it out of the queue. */
  lemma TakeFromHeap<V>(heap: multiset<Element<V>>, m: multiset<Element<V>>, x: Element<V>)
    requires x in heap
    ensures heap - multiset{x} + m == heap + m - multiset{x}
  {
  }

  /** Adding an element to the insertion heap adds one copy of it to the queue. */
  lemma PutIntoHeap<V>(heap: multiset<Element<V>>, m: multiset<Element<V>>, x: Element<V>)
    ensures heap + multiset{x} + m == heap + m + multiset{x}
  {
  }

  /**
   * Merging the sorted contents of the insertion heap into the stream
   * leaves the queue's contents as they were.
   */
  lemma Flushed<V>(empty: multiset<Element<V>>, heap: multiset<Element<V>>, s: seq<Element<V>>,
                   run: seq<Element<V>>, merged: seq<Element<V>>)
    requires empty == multiset{} && multiset(run) == heap
    requires multiset(merged) == multiset(s) + multiset(run)
    ensures empty + multiset(merged) == heap + multiset(s)
  {
  }

  class KNHeap<V(0)> {
    /** The insertion buffer, `BinaryHeap<Key, Value, KNN>`. */
    const insertHeap: BinaryHeap<V>
    /** The overall delete buffer, with one extra slot for the sentinel. */
    const buffer1: array<Element<V>>
    /** Index of the smallest cached element of `buffer1`. */
    var minBuffer1: nat
    /** The number of elements in the merge levels. */
    var size: nat
    /** The elements of the merge levels, in the order they will be output. */
    var below: seq<Element<V>>

    /** The elements outside the insertion heap, smallest first. */
    function Stream(): seq<Element<V>>
      reads this, buffer1
      requires minBuffer1 <= KNBufferSize1 < buffer1.Length
    {
      buffer1[minBuffer1..KNBufferSize1] + below
    }

    /**
     * The stream is ascending and holds legal elements, and `buffer1` ends
     * in the supremum sentinel. `buffer1` may be exhausted while the merge
     * levels still hold elements; this is the state in which
     * `refillBuffer1` is called.
     */
    ghost predicate Cached()
      reads this, buffer1
    {
      buffer1.Length == KNBufferSize1 + 1 && buffer1[KNBufferSize1].key == SUP &&
      minBuffer1 <= KNBufferSize1 && |below| == size &&
      Sorted(Stream()) && LegalBag(multiset(Stream()))
    }

    /** `buffer1` is exhausted only when the merge levels are empty. */
    ghost predicate Refilled()
      reads this, buffer1
    {
      Cached() && (minBuffer1 == KNBufferSize1 ==> size == 0)
    }

    /** The insertion heap, separate from `buffer1`, and the stream in any state. */
    ghost predicate Shape()
      reads this, insertHeap, insertHeap.data, buffer1
    {
      insertHeap.Valid() && insertHeap.capacity == KNN &&
      buffer1 != insertHeap.data && Cached()
    }

    /** The object invariant. */
    ghost predicate Valid()
      reads this, insertHeap, insertHeap.data, buffer1
    {
      Shape() && Refilled()
    }

    /** Everything the queue holds. */
    ghost function Contents(): multiset<Element<V>>
      reads this, insertHeap, insertHeap.data, buffer1
      requires Shape()
    {
      insertHeap.Elements() + multiset(Stream())
    }

    /** `KNHeap(sup, infimum)`: an empty queue with an exhausted `buffer1`. */
    constructor ()
      ensures Valid() && Contents() == multiset{}
      ensures fresh(insertHeap) && fresh(insertHeap.data) && fresh(buffer1)
    {
      insertHeap := new BinaryHeap<V>(KNN);
      buffer1 := new Element<V>[KNBufferSize1 + 1];
      minBuffer1 := KNBufferSize1;
      size := 0;
      below := [];
      new;
      buffer1[KNBufferSize1] := Element(SUP, buffer1[KNBufferSize1].value);
    }

    /**
     * `getSize`: the merge levels, the insertion heap and the cached part
     * of `buffer1` together; this is the number of elements held.
     */
    function GetSize(): (r: nat)
      reads this, insertHeap, insertHeap.data, buffer1
      requires Shape()
      ensures r == |Contents()|
    {
      size + insertHeap.GetSize() + (KNBufferSize1 - minBuffer1)
    }

    /**
     * `getMin`: an element with the smallest key held, or the supremum
     * sentinel when the queue is empty. On equal keys the element cached in
     * `buffer1` is reported rather than the one in the insertion heap.
     */
    function GetMin(): (r: Element<V>)
      reads this, insertHeap, insertHeap.data, buffer1
      requires Valid()
      ensures Contents() == multiset{} ==> r.key == SUP
      ensures Contents() != multiset{} ==> r in Contents()
      ensures forall e :: e in Contents() ==> r.key <= e.key
      ensures minBuffer1 < KNBufferSize1 && r.key == buffer1[minBuffer1].key ==> r == buffer1[minBuffer1]
    {
      var key1 := buffer1[minBuffer1].key;
      var key2 := insertHeap.GetMinKey();
      var r := if key2 >= key1 then buffer1[minBuffer1] else Element(key2, insertHeap.GetMinValue());
      FrontIsMin(insertHeap.Elements(), Stream(), r.key);
      r
    }

    /** Copy the front of `src` into the cached part of `buffer1`. */
    method CopyFront(src: seq<Element<V>>)
      requires buffer1.Length == KNBufferSize1 + 1 && minBuffer1 <= KNBufferSize1
      requires KNBufferSize1 - minBuffer1 <= |src|
      modifies buffer1
      ensures buffer1[minBuffer1..KNBufferSize1] == src[..KNBufferSize1 - minBuffer1]
      ensures buffer1[KNBufferSize1] == old(buffer1[KNBufferSize1])
    {
      var j := minBuffer1;
      while j < KNBufferSize1
        invariant minBuffer1 <= j <= KNBufferSize1
        invariant buffer1[minBuffer1..j] == src[..j - minBuffer1]
        invariant buffer1[KNBufferSize1] == old(buffer1[KNBufferSize1])
        modifies buffer1
      {
        buffer1[j] := src[j - minBuffer1];
        j := j + 1;
      }
    }

    /**
     * `refillBuffer1`, on the merge levels as one ascending sequence: the
     * exhausted `buffer1` is filled, right-aligned, with up to
     * KNBufferSize1 of the next elements of the stream. The stream, and so
     * what the queue holds, is unchanged, and afterwards `buffer1` is
     * exhausted only if the merge levels are empty.
     */
    method RefillBuffer1()
      requires Cached() && minBuffer1 == KNBufferSize1
      modifies this, buffer1
      ensures Refilled() && Stream() == old(Stream())
    {
      var m: nat := if size < KNBufferSize1 then size else KNBufferSize1;
      ghost var stream := below;
      assert Stream() == stream;
      minBuffer1 := KNBufferSize1 - m;
      CopyFront(below);
      below := below[m..];
      size := size - m;
      Split(stream, m);
    }
 
    /**
     * Replacing the stream by a longer one: the cached part of `buffer1`
     * keeps its length and takes the front of `merged`, and the merge
     * levels hold the rest.
     */
    method Restream(merged: seq<Element<V>>)
      requires buffer1.Length == KNBufferSize1 + 1 && buffer1[KNBufferSize1].key == SUP
      requires minBuffer1 <= KNBufferSize1 && KNBufferSize1 - minBuffer1 <= |merged|
      requires Sorted(merged) && LegalBag(multiset(merged))
      modifies this, buffer1
      ensures Cached() && Stream() == merged && minBuffer1 == old(minBuffer1)
    {
      var c := KNBufferSize1 - minBuffer1;
      CopyFront(merged);
      below := merged[c..];
      size := |below|;
      Split(merged, c);
    }

    /**
     * Merging a sorted run of legal elements into the stream: `buffer1`
     * keeps its fill level and takes the smallest elements of the merge,
     * and is refilled if it was exhausted. This stands in for the
     * insertion of a segment into the merge levels, whose code is not part
     * of this model.
     */
    method AddRun(run: seq<Element<V>>)
      requires Refilled() && Sorted(run) && LegalBag(multiset(run))
      modifies this, buffer1
      ensures Refilled() && Stream() == Merge(old(Stream()), run)
    {
      var merged := Merge(Stream(), run);
      MergeContents(Stream(), run);
      MergeSorted(Stream(), run);
      LegalBagUnion(multiset(Stream()), multiset(run));
      Restream(merged);
      if minBuffer1 == KNBufferSize1 {
        RefillBuffer1();
      }
    }

    /**
     * `emptyInsertHeap`, on the merge levels as one ascending sequence: the
     * insertion heap is sorted into a new run, which is merged into the
     * stream (see AddRun). Afterwards the insertion heap is empty and the
     * queue holds what it held before.
     */
    method EmptyInsertHeap()
      requires Valid()
      modifies this, insertHeap, insertHeap.data, buffer1
      ensures Valid() && insertHeap.size == 0 && Contents() == old(Contents())
    {
      var run := new Element<V>[insertHeap.size];
      insertHeap.SortTo(run);
      assert run[..] == run[..old(insertHeap.size)];
      ghost var stream := Stream();
      AddRun(run[..]);
      MergeContents(stream, run[..]);
      Flushed(insertHeap.Elements(), old(insertHeap.Elements()), stream, run[..], Stream());
    }

    /**
     * Taking the front of the stream out of `buffer1`: the cursor advances,
     * and an exhausted `buffer1` is refilled.
     */
    method Advance()
      requires Refilled() && minBuffer1 < KNBufferSize1
      modifies this, buffer1
      ensures Refilled() && Stream() == old(Stream()[1..])
    {
      ghost var stream := Stream();
      SortedDrop(stream, 1);
      minBuffer1 := minBuffer1 + 1;
      assert Stream() == stream[1..];
      assert stream == [stream[0]] + stream[1..];
      LegalBagSub(multiset(stream[1..]), multiset(stream));
      if minBuffer1 == KNBufferSize1 {
        RefillBuffer1();
      }
    }

    /**
     * The `buffer1` branch of `deleteMin`: report the front of the stream,
     * advance the cursor and refill an exhausted `buffer1`. The insertion
     * heap is not touched.
     */
    method PopBuffer1() returns (key: Key, value: V)
      requires Valid() && minBuffer1 < KNBufferSize1
      requires insertHeap.GetMinKey() >= buffer1[minBuffer1].key
      modifies this, buffer1
      ensures Valid() && Element(key, value) == old(GetMin()) == old(Stream())[0]
      ensures insertHeap.size == old(insertHeap.size) && insertHeap.Elements() == old(insertHeap.Elements())
      ensures Stream() == old(Stream())[1..]
      ensures Contents() == old(Contents()) - multiset{Element(key, value)}
    {
      ghost var heap := insertHeap.Elements();
      ghost var stream := Stream();
      key := buffer1[minBuffer1].key;
      value := buffer1[minBuffer1].value;
      assert stream[0] == Element(key, value) == GetMin();
      Advance();
      TakeFront(heap, stream, Stream());
    }

    /**
     * The insertion-heap branch of `deleteMin`: report the heap's minimum
     * and delete it there. The stream is not touched.
     */
    method PopInsertHeap() returns (key: Key, value: V)
      requires Valid() && insertHeap.GetMinKey() < buffer1[minBuffer1].key
      modifies insertHeap, insertHeap.data
      ensures Valid() && Element(key, value) == old(GetMin())
      ensures insertHeap.size == old(insertHeap.size) - 1 && Stream() == old(Stream())
      ensures Contents() == old(Contents()) - multiset{Element(key, value)}
    {
      ghost var heap := insertHeap.Elements();
      ghost var stream := Stream();
      key := insertHeap.GetMinKey();
      value := insertHeap.GetMinValue();
      assert Element(key, value) in heap && Element(key, value) == GetMin();
      insertHeap.DeleteMin();
      assert Stream() == stream;
      TakeFromHeap(heap, multiset(stream), Element(key, value));
    }

    /**
     * `deleteMin`: remove and report the element `getMin` reports. When it
     * comes from `buffer1` the cursor advances, an exhausted `buffer1` is
     * refilled and the insertion heap is left alone; otherwise it is deleted
     * from the insertion heap and the stream is left alone.
     */
    method DeleteMin() returns (key: Key, value: V)
      requires Valid() && Contents() != multiset{}
      modifies this, insertHeap, insertHeap.data, buffer1
      ensures Valid()
      ensures Element(key, value) == old(GetMin())
      ensures Element(key, value) in old(Contents())
      ensures forall e :: e in old(Contents()) ==> key <= e.key
      ensures Contents() == old(Contents()) - multiset{Element(key, value)}
      ensures old(insertHeap.GetMinKey()) >= old(buffer1[minBuffer1].key) ==>
        insertHeap.size == old(insertHeap.size) && insertHeap.Elements() == old(insertHeap.Elements()) &&
        Stream() == old(Stream())[1..]
      ensures old(insertHeap.GetMinKey()) < old(buffer1[minBuffer1].key) ==>
        insertHeap.size == old(insertHeap.size) - 1 && Stream() == old(Stream())
    {
      ghost var min := GetMin();
      var key1 := buffer1[minBuffer1].key;
      var key2 := insertHeap.GetMinKey();
      if key2 >= key1 {
        assert minBuffer1 < KNBufferSize1; // the queue is not empty (knheap.h line 317)
        key, value := PopBuffer1();
      } else {
        key, value := PopInsertHeap();
      }
      assert Element(key, value) == min;
    }

    /**
     * `insert`: a full insertion heap is first emptied into the merge
     * levels, then the element goes into the insertion heap.
     */
    method Insert(k: Key, v: V)
      requires Valid() && Contains(k)
      modifies this, insertHeap, insertHeap.data, buffer1
      ensures Valid()
      ensures Contents() == old(Contents()) + multiset{Element(k, v)}
      ensures insertHeap.size == if old(insertHeap.size) == KNN then 1 else old(insertHeap.size) + 1
      ensures old(insertHeap.size) < KNN ==>
        unchanged(this, buffer1) && Stream() == old(Stream()) &&
        insertHeap.Elements() == old(insertHeap.Elements()) + multiset{Element(k, v)}
      ensures old(insertHeap.size) == KNN ==> insertHeap.Elements() == multiset{Element(k, v)}
    {
      if insertHeap.GetSize() == KNN {
        EmptyInsertHeap();
      }
      ghost var heap := insertHeap.Elements();
      ghost var stream := Stream();
      insertHeap.Insert(k, v);
      assert Stream() == stream;
      PutIntoHeap(heap, multiset(stream), Element(k, v));
    }
  }
}
