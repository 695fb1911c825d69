/**
 * The fixed-capacity binary min-heap used as the insertion buffer
 * (BinaryHeap, knheap.h lines 44-175). Slot 0 holds the infimum sentinel,
 * slot capacity + 1 the supremum sentinel, slots 1..size the live elements
 * in heap order, and every slot between size and the supremum sentinel has
 * the supremum as its key, so the sift loops never test array bounds.
 */
module BinaryHeaps {
  import opened NumberRange
  import opened ElementBags
  import opened HeapOrder
  import opened SortOrder

  class BinaryHeap<V(0)> {
    /** The template parameter `capacity`. */
    const capacity: nat
    /** `data[capacity + 2]`. */
    const data: array<Element<V>>
    /** Index of the last used slot. */
    var size: nat

    /** The sentinels in place; this is what the constructor sets up before `reset`. */
    ghost predicate Sentinels()
      reads this, data
    {
      data.Length == capacity + 2 &&
      data[0].key == INF && data[capacity + 1].key == SUP
    }

    /** The object invariant. */
    ghost predicate Valid()
      reads this, data
    {
      data.Length == capacity + 2 && Framed(data[..], size, capacity) &&
      LegalBag(Bag(data[..], 1, size + 1)) &&
      HeapOrdered(data[..], size)
    }

    /** The live elements: the contents of slots 1..size. */
    ghost function Elements(): multiset<Element<V>>
      reads this, data
      requires Valid()
    {
      Bag(data[..], 1, size + 1)
    }

    /** The live elements are exactly the contents of the slots 1..size. */
    lemma ElementsAreLiveSlots()
      requires Valid()
      ensures Elements() == multiset(data[1..size + 1])
    {
      BagIsSlice(data[..], 1, size + 1);
      assert data[..][1..size + 1] == data[1..size + 1];
    }

    /** `BinaryHeap()`: place both sentinels, then `reset`. */
    constructor (capacity: nat)
      ensures Valid() && fresh(data) && this.capacity == capacity
      ensures size == 0 && Elements() == multiset{}
    {
      this.capacity := capacity;
      data := new Element<V>[capacity + 2];
      new;
      data[0] := Element(INF, data[0].value);
      data[capacity + 1] := Element(SUP, data[capacity + 1].value);
      Reset();
    }

    /** `reset`: empty the heap and mark every slot 1..capacity as dead. */
    method Reset()
      requires Sentinels()
      modifies this, data
      ensures Valid() && size == 0 && Elements() == multiset{}
      ensures forall i :: 1 <= i <= capacity ==> data[i].key == SUP
    {
      size := 0;
      var i := 1;
      while i <= capacity
        invariant 1 <= i <= capacity + 1 && size == 0
        invariant Sentinels()
        invariant forall j :: 1 <= j < i ==> data[j].key == SUP
        modifies data
      {
        data[i] := Element(SUP, data[i].value);
        i := i + 1;
      }
    }

    /** `getSize`. */
    function GetSize(): (r: nat)
      reads this, data
      requires Valid()
      ensures r == |Elements()|
    {
      BagSize(data[..], 1, size + 1);
      size
    }

    /**
     * `getMinKey`: the key in slot 1. On a non-empty heap it is the key of a
     * live element and no live key is smaller; on an empty heap it is the
     * supremum sentinel.
     */
    function GetMinKey(): (r: Key)
      reads this, data
      requires Valid()
      ensures size == 0 ==> r == SUP
      ensures size > 0 ==> Contains(r) && data[1] in Elements() && data[1].key == r
      ensures forall e :: e in Elements() ==> r <= e.key
    {
      RootIsMinOfBag(data[..], size);
      assert size == 0 && capacity > 0 ==> Dead(data[..], 1);
      assert size > 0 ==> Member(Elements(), data[1]);
      data[1].key
    }

    /**
     * `getMinValue`: the payload in slot 1; on a non-empty heap, paired with
     * `getMinKey` it is a live element of minimum key.
     */
    function GetMinValue(): (r: V)
      reads this, data
      requires Valid()
      ensures size > 0 ==> Element(GetMinKey(), r) in Elements()
    {
      data[1].value
    }

    /**
     * The inner loop of `sortTo` and the marking that follows it: the hole
     * at the root moves down, taking the smaller child into it, as long as
     * it has a child among slots 1..sz; the slot where it ends is marked
     * unused. The element left there, `freed`, carries the supremum.
     */
    method SinkRoot(sz: nat, ghost bag: multiset<Element<V>>) returns (ghost freed: Element<V>)
      requires data.Length == capacity + 2 && Framed(data[..], sz, capacity)
      requires Sinking(data[..], sz, 1, bag)
      modifies data
      ensures Framed(data[..], sz, capacity) && HeapOrdered(data[..], sz)
      ensures freed.key == SUP && Bag(data[..], 1, sz + 1) == bag + multiset{freed}
    {
      var hole: nat := 1;
      var succ: nat := 2;
      while succ <= sz
        invariant Framed(data[..], sz, capacity) && Sinking(data[..], sz, hole, bag)
        invariant succ == 2 * hole
        modifies data
        decreases sz - hole
      {
        ghost var left := succ;
        if data[succ].key > data[succ + 1].key {
          succ := succ + 1;
        }
        ghost var s := data[..];
        SinkStep(s, sz, capacity, hole, left, succ, bag);
        WriteBelow(s, sz, capacity, hole, s[succ]);
        data[hole] := data[succ];
        assert data[..] == s[hole := s[succ]];
        hole := succ;
        succ := succ * 2;
      }

      // the slot where the hole stops becomes unused
      ghost var s := data[..];
      freed := Element(SUP, s[hole].value);
      SinkDone(s, sz, hole, bag);
      WriteBelow(s, sz, capacity, hole, freed);
      data[hole] := Element(SUP, data[hole].value);
      assert data[..] == s[hole := freed];
    }

    /**
     * One round of `sortTo`, the body of its loop: copy the root to slot i
     * of `to`, then sink the hole it leaves and mark its last place unused.
     */
    method OutputRoot(to: array<Element<V>>, i: nat, sz: nat, ghost live: multiset<Element<V>>,
                      ghost dead: multiset<Element<V>>, ghost before: multiset<Element<V>>)
      returns (ghost live': multiset<Element<V>>, ghost dead': multiset<Element<V>>)
      requires to != data && i < sz && i < to.Length && data.Length == capacity + 2
      requires Sorting(data[..], sz, capacity, to[..i], live, dead, before)
      modifies data, to
      ensures Sorting(data[..], sz, capacity, to[..i + 1], live', dead', before)
      ensures forall j :: 0 <= j < to.Length && j != i ==> to[j] == old(to[j])
    {
      ghost var s := data[..];
      ghost var out := to[..i];
      BeginRound(s, sz, capacity, out, live, dead, before);
      // the root goes to the output
      ghost var t := to[..];
      to[i] := data[1];
      UpdateSnoc(t, to[..], i, s[1]);

      // the hole it leaves sinks along the smaller children
      ghost var freed := SinkRoot(sz, live - multiset{s[1]} + dead);
      FinishRound(s, data[..], sz, capacity, out, to[..i + 1], live, dead, before, freed);
      live' := live - multiset{s[1]};
      dead' := dead + multiset{freed};
    }

    /**
     * `sortTo(to)`: output the elements in increasing order of key to the
     * first size slots of `to` and leave the heap empty. Each round copies
     * the root and sinks the hole it leaves to the bottom of slots 1..sz,
     * where sz is the size on entry; unused slots carry the supremum, so
     * they sink below every live element.
     */
    method SortTo(to: array<Element<V>>)
      requires Valid() && to != data && size <= to.Length
      modifies this, data, to
      ensures Valid() && size == 0 && Elements() == multiset{}
      ensures Sorted(to[..old(size)]) && multiset(to[..old(size)]) == old(Elements())
      ensures forall j :: old(size) <= j < to.Length ==> to[j] == old(to[j])
    {
      ghost var before := Elements();
      SortStart(data[..], size, capacity);
      assert to[..0] == [];
      ghost var live, dead := OutputAll(to, before);
      SortEnd(data[..], size, capacity, to[..size], live, dead, before);
      size := 0;
    }

    /**
     * The outer loop of `sortTo`: each round outputs the root and lets the
     * hole it leaves sink, until all size elements have been output.
     */
    method OutputAll(to: array<Element<V>>, ghost before: multiset<Element<V>>)
      returns (ghost live: multiset<Element<V>>, ghost dead: multiset<Element<V>>)
      requires to != data && size <= to.Length && data.Length == capacity + 2
      requires Sorting(data[..], size, capacity, to[..0], before, multiset{}, before)
      modifies data, to
      ensures Sorting(data[..], size, capacity, to[..size], live, dead, before)
      ensures forall j :: size <= j < to.Length ==> to[j] == old(to[j])
    {
      live, dead := before, multiset{};
      var sz: nat := size;
      var i: nat := 0; // the number of elements output so far
      while i < sz
        invariant i <= sz == size
        invariant Sorting(data[..], sz, capacity, to[..i], live, dead, before)
        invariant forall j :: sz <= j < to.Length ==> to[j] == old(to[j])
        modifies data, to
      {
        live, dead := OutputRoot(to, i, sz, live, dead, before);
        i := i + 1;
      }
    }

    /**
     * `insert(k, v)`: the new element enters at slot size + 1 and the hole
     * climbs while its parent's key exceeds k; the infimum in slot 0 stops it.
     */
    method Insert(k: Key, v: V)
      requires Valid()
      requires size < capacity
      requires Contains(k)
      modifies this, data
      ensures Valid()
      ensures size == old(size) + 1
      ensures Elements() == old(Elements()) + multiset{Element(k, v)}
    {
      ghost var before := Elements();
      size := size + 1;
      ClimbStart(data[..], size, k, before);
      var hole := ClimbFrom(k, before);
      // the new element takes the slot where the hole stopped
      ghost var s := data[..];
      ClimbDone(s, size, hole, Element(k, v), before);
      WriteBelow(s, size, capacity, hole, Element(k, v));
      data[hole] := Element(k, v);
      assert data[..] == s[hole := Element(k, v)];
      LegalBagAdd(before, Element(k, v));
    }

    /**
     * The loop of `insert`: the hole climbs from slot size while its
     * parent's key exceeds k; the infimum in slot 0 stops it at the root.
     */
    method ClimbFrom(k: Key, ghost bag: multiset<Element<V>>) returns (hole: nat)
      requires data.Length == capacity + 2 && Framed(data[..], size, capacity)
      requires Climbing(data[..], size, size, k, bag) && Contains(k)
      modifies data
      ensures Framed(data[..], size, capacity) && Climbing(data[..], size, hole, k, bag)
      ensures data[Parent(hole)].key <= k
    {
      hole := size;
      var pred: nat := hole / 2;
      var predKey := data[pred].key;
      while predKey > k // the infimum in slot 0 stops the climb at the root
        invariant Framed(data[..], size, capacity)
        invariant Climbing(data[..], size, hole, k, bag)
        invariant pred == Parent(hole) && predKey == data[pred].key
        modifies data
        decreases hole
      {
        ghost var s := data[..];
        ClimbStep(s, size, hole, k, bag);
        WriteBelow(s, size, capacity, hole, s[pred]);
        data[hole] := Element(predKey, data[pred].value);
        assert data[..] == s[hole := s[pred]];
        hole := pred;
        pred := pred / 2;
        predKey := data[pred].key;
      }
    }

    /**
     * The first loop of `deleteMin`: the hole left at the root moves down
     * the min-path, taking the smaller child (the left one on a tie) into
     * it, for as long as it has two children.
     */
    method MoveHoleDown(ghost last: Element<V>, ghost target: multiset<Element<V>>) returns (hole: nat)
      requires data.Length == capacity + 2 && Framed(data[..], size, capacity)
      requires Descending(data[..], size, 1, last, target)
      modifies data
      ensures Framed(data[..], size, capacity)
      ensures Descending(data[..], size, hole, last, target) && 2 * hole >= size
    {
      hole := 1;
      var succ: nat := 2;
      var sz: nat := size;
      while succ < sz
        invariant Framed(data[..], sz, capacity) && sz == size
        invariant Descending(data[..], sz, hole, last, target)
        invariant succ == 2 * hole
        modifies data
      {
        ghost var left := succ;
        if data[succ].key > data[succ + 1].key {
          succ := succ + 1;
        }
        ghost var s := data[..];
        DescendStep(s, sz, hole, left, succ, last, target);
        WriteBelow(s, sz, capacity, hole, s[succ]);
        data[hole] := data[succ];
        assert data[..] == s[hole := s[succ]];
        hole := succ;
        succ := succ * 2;
      }
    }

    /**
     * The second loop of `deleteMin`: the parent of the hole moves down
     * into it while its key exceeds the key of the last element.
     */
    method BubbleFrom(hole0: nat, ghost last: Element<V>, ghost target: multiset<Element<V>>, ghost rest: multiset<Element<V>>) returns (hole: nat)
      requires data.Length == capacity + 2 && Framed(data[..], size, capacity)
      requires Bubbling(data[..], size, hole0, last, target, rest) && Contains(last.key)
      modifies data
      ensures Framed(data[..], size, capacity) && Bubbling(data[..], size, hole, last, target, rest)
      ensures data[Parent(hole)].key <= last.key
    {
      hole := hole0;
      var bubble := data[size].key;
      var pred: nat := hole / 2;
      while data[pred].key > bubble // the infimum in slot 0 stops the climb at the root
        invariant Framed(data[..], size, capacity)
        invariant Bubbling(data[..], size, hole, last, target, rest)
        invariant bubble == last.key && pred == Parent(hole)
        decreases hole
      {
        ghost var s := data[..];
        BubbleStep(s, size, hole, last, target, rest);
        WriteBelow(s, size, capacity, hole, s[pred]);
        data[hole] := data[pred];
        assert data[..] == s[hole := s[pred]];
        hole := pred;
        pred := pred / 2;
      }
    }

    /**
     * The rest of `deleteMin`, once the hole has at most one child: the
     * element `last` of the last slot climbs from the hole while the hole's
     * parent has a larger key (the minimum at the root stops it), fills the
     * hole, and the last slot is marked unused.
     */
    method BubbleUpLast(hole0: nat, ghost last: Element<V>, ghost target: multiset<Element<V>>)
      requires data.Length == capacity + 2 && Framed(data[..], size, capacity)
      requires Descending(data[..], size, hole0, last, target) && 2 * hole0 >= size
      requires Contains(last.key)
      modifies this, data
      ensures size == old(size) - 1 && data.Length == capacity + 2
      ensures Framed(data[..], size, capacity) && HeapOrdered(data[..], size)
      ensures Bag(data[..], 1, size + 1) == target
      ensures data[old(size)].key == SUP
    {
      // the last element is the one to re-place
      var sz: nat := size;
      var bubble := data[sz].key;
      ghost var rest := Bag(data[..], 1, sz) - multiset{data[hole0]};
      DescendDone(data[..], sz, hole0, last, target);
      var hole := BubbleFrom(hole0, last, target, rest);

      // it fills the hole, and its old slot becomes unused
      ghost var s := data[..];
      data[hole] := Element(bubble, data[sz].value);
      ghost var t := data[..];
      assert t == s[hole := Element(bubble, s[sz].value)];
      data[size] := Element(SUP, data[size].value);
      ghost var u := data[..];
      assert u == t[sz := Element(SUP, t[sz].value)];
      size := sz - 1;
      DeleteDone(s, t, u, sz, size, capacity, hole, last, target, rest);
    }

    /**
     * `deleteMin`: move the hole from the root down the min-path while it has
     * two children, then let the last element climb from the hole into its
     * place, and mark the old last slot as unused.
     */
    method DeleteMin()
      requires Valid()
      requires size > 0
      modifies this, data
      ensures Valid()
      ensures size == old(size) - 1
      ensures old(data[1]) in old(Elements())
      ensures forall e :: e in old(Elements()) ==> old(data[1]).key <= e.key
      ensures Elements() == old(Elements()) - multiset{old(data[1])}
      ensures data[old(size)].key == SUP
    {
      ghost var target := Elements() - multiset{data[1]};
      ghost var last := data[size];
      RootIsMinOfBag(data[..], size);
      BagHas(data[..], 1, size + 1, size);
      assert Member(Elements(), last);
      LegalBagSub(target, Elements());
      DescendStart(data[..], size);

      // phase one: the root hole descends; phase two: the last element climbs into it
      var hole := MoveHoleDown(last, target);
      BubbleUpLast(hole, last, target);
    }

    /** `deleteMinFancy`: report the minimum element, then delete it. */
    method DeleteMinFancy() returns (key: Key, value: V)
      requires Valid()
      requires size > 0
      modifies this, data
      ensures Valid()
      ensures size == old(size) - 1
      ensures Element(key, value) in old(Elements())
      ensures forall e :: e in old(Elements()) ==> key <= e.key
      ensures Elements() == old(Elements()) - multiset{Element(key, value)}
      ensures key == old(GetMinKey()) && value == old(GetMinValue())
    {
      key := GetMinKey();
      value := GetMinValue();
      DeleteMin();
    }
  }
}
