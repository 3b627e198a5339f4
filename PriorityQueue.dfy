/** The Huffman coder's priority queue: a binary min-heap stored in a list,
    the children of position c at 2c + 1 and 2c + 2. The list is modified in
    place by appending, popping and swapping. */
module PriorityQueue {
  import opened HuffmanItems

  /** `parent(c) = (c - 1) // 2`; Python's floor division makes it -1 at the
      root, which the sift-up loop never asks for. */
  function Parent(c: nat): (p: int)
    ensures c == 0 ==> p == -1
    ensures c >= 1 ==> 0 <= p < c && (c == 2 * p + 1 || c == 2 * p + 2)
  {
    (c - 1) / 2
  }

  /** Every item is not below its parent's item. */
  ghost predicate IsHeap(s: seq<Item>)
  {
    forall k :: 0 < k < |s| ==> !Less(s[k], s[Parent(k)])
  }

  /** s with positions i and j swapped. */
  function Swap(s: seq<Item>, i: nat, j: nat): seq<Item>
    requires i < |s| && j < |s|
  {
    s[i := s[j]][j := s[i]]
  }

  /** Following parents from k reaches the root with items that never grow. */
  lemma {:induction false} HeapAboveRoot(s: seq<Item>, k: nat)
    requires IsHeap(s) && k < |s|
    ensures !Less(s[k], s[0])
    decreases k
  {
    if k == 0 {
      LessIrreflexive(s[0]);
    } else {
      var p := Parent(k);
      HeapAboveRoot(s, p);
      NotLessTransitive(s[0], s[p], s[k]);
    }
  }

  /** The root of a heap is a minimum. */
  lemma HeapRootMin(s: seq<Item>)
    requires IsHeap(s) && |s| >= 1
    ensures forall k :: 0 <= k < |s| ==> !Less(s[k], s[0])
  {
    forall k | 0 <= k < |s|
      ensures !Less(s[k], s[0])
    {
      HeapAboveRoot(s, k);
    }
  }

  /** The sift-up invariant: the heap order holds everywhere except between
      position i and its parent, and i's children are not below i's parent. */
  ghost predicate HeapExceptUp(s: seq<Item>, i: nat)
  {
    && (forall k :: 0 < k < |s| && k != i ==> !Less(s[k], s[Parent(k)]))
    && (0 < i < |s| ==> forall k :: 0 < k < |s| && Parent(k) == i ==> !Less(s[k], s[Parent(i)]))
  }

  /** A new last item breaks the order at most between it and its parent. */
  lemma SiftUpStart(s: seq<Item>, x: Item)
    requires IsHeap(s)
    ensures HeapExceptUp(s + [x], |s|)
  {
  }

  /** Swapping an item with a larger parent moves the break one level up. */
  lemma SiftUpStep(s: seq<Item>, i: nat)
    requires 0 < i < |s| && HeapExceptUp(s, i) && Less(s[i], s[Parent(i)])
    ensures HeapExceptUp(Swap(s, i, Parent(i)), Parent(i))
  {
    var p := Parent(i);
    var t := Swap(s, i, p);
    LessAsymmetric(s[i], s[p]);
    forall k | 0 < k < |t| && k != p
      ensures !Less(t[k], t[Parent(k)])
    {
      if Parent(k) == p && k != i {
        LessThenNotLess(s[i], s[p], s[k]);
      }
    }
    if 0 < p {
      forall k | 0 < k < |t| && Parent(k) == p
        ensures !Less(t[k], t[Parent(p)])
      {
        if k != i {
          NotLessTransitive(s[Parent(p)], s[p], s[k]);
        }
      }
    }
  }

  /** The sift-up loop stops at the root or below a parent that is not
      larger: the order is whole again. */
  lemma SiftUpDone(s: seq<Item>, i: nat)
    requires i < |s| && HeapExceptUp(s, i) && (i == 0 || !Less(s[i], s[Parent(i)]))
    ensures IsHeap(s)
  {
  }

  /** The sift-down invariant: the heap order holds everywhere except between
      position i and its children, which are not below i's parent. */
  ghost predicate HeapExceptDown(s: seq<Item>, i: nat)
  {
    && (forall k :: 0 < k < |s| && Parent(k) != i ==> !Less(s[k], s[Parent(k)]))
    && (0 < i < |s| ==> forall k :: 0 < k < |s| && Parent(k) == i ==> !Less(s[k], s[Parent(i)]))
  }

  /** j is a child of i holding a least item among i's children. */
  ghost predicate IsMinChild(s: seq<Item>, i: nat, j: nat)
  {
    && j < |s| && Parent(j) == i
    && forall k :: 0 < k < |s| && Parent(k) == i ==> !Less(s[k], s[j])
  }

  /** Replacing the root of a heap breaks the order at most below the root. */
  lemma SiftDownStart(s: seq<Item>, x: Item)
    requires IsHeap(s) && |s| >= 1
    ensures HeapExceptDown(s[0 := x], 0)
  {
  }

  /** The queue after the root is taken and the last item moved to the root:
      one item fewer, the order broken at most below the root, and every
      item not below the old root. */
  function AfterTakeRoot(s: seq<Item>): (t: seq<Item>)
    requires |s| >= 1
    ensures |t| == |s| - 1
  {
    if |s| == 1 then [] else s[..|s| - 1][0 := s[|s| - 1]]
  }

  lemma TakeRoot(s: seq<Item>)
    requires IsHeap(s) && |s| >= 1
    ensures HeapExceptDown(AfterTakeRoot(s), 0)
    ensures multiset(AfterTakeRoot(s)) + multiset{s[0]} == multiset(s)
    ensures forall k :: 0 <= k < |s| - 1 ==> !Less(AfterTakeRoot(s)[k], s[0])
  {
    var n := |s|;
    if n > 1 {
      SiftDownStart(s[..n - 1], s[n - 1]);
      TakeRootMultiset(s);
      TakeRootAbove(s);
    }
  }

  lemma TakeRootMultiset(s: seq<Item>)
    requires |s| >= 2
    ensures multiset(AfterTakeRoot(s)) + multiset{s[0]} == multiset(s)
  {
    var n := |s|;
    assert s == [s[0]] + s[1..n - 1] + [s[n - 1]];
    assert AfterTakeRoot(s) == [s[n - 1]] + s[1..n - 1];
  }

  lemma TakeRootAbove(s: seq<Item>)
    requires IsHeap(s) && |s| >= 2
    ensures forall k :: 0 <= k < |s| - 1 ==> !Less(AfterTakeRoot(s)[k], s[0])
  {
    HeapRootMin(s);
    var t := AfterTakeRoot(s);
    forall k | 0 <= k < |s| - 1
      ensures !Less(t[k], s[0])
    {
      if k == 0 {
        assert t[k] == s[|s| - 1];
      } else {
        assert t[k] == s[k];
      }
    }
  }

  /** Swapping an item with a least child that is not larger moves the break
      one level down. */
  lemma SiftDownStep(s: seq<Item>, i: nat, j: nat)
    requires i < |s| && HeapExceptDown(s, i) && IsMinChild(s, i, j) && !Less(s[i], s[j])
    ensures HeapExceptDown(Swap(s, i, j), j)
  {
    var t := Swap(s, i, j);
    forall k | 0 < k < |t| && Parent(k) != j
      ensures !Less(t[k], t[Parent(k)])
    {
      if k == i {
      } else if Parent(k) == i && k != j {
        assert !Less(s[k], s[j]);
      }
    }
    forall k | 0 < k < |t| && Parent(k) == j
      ensures !Less(t[k], t[i])
    {
    }
  }

  /** Swapping keeps every item not below m. */
  lemma SwapAbove(s: seq<Item>, i: nat, j: nat, m: Item)
    requires i < |s| && j < |s|
    requires forall k :: 0 <= k < |s| ==> !Less(s[k], m)
    ensures forall k :: 0 <= k < |s| ==> !Less(Swap(s, i, j)[k], m)
  {
  }

  /** The sift-down loop stops when i is below its least child, or when i has
      no children: the order is whole again. */
  lemma SiftDownDone(s: seq<Item>, i: nat, j: nat)
    requires i < |s| && HeapExceptDown(s, i)
    requires (2 * i + 1 >= |s|) || (IsMinChild(s, i, j) && Less(s[i], s[j]))
    ensures IsHeap(s)
  {
    if 2 * i + 1 < |s| {
      forall k | 0 < k < |s| && Parent(k) == i
        ensures !Less(s[k], s[i])
      {
        LessThenNotLess(s[i], s[j], s[k]);
      }
    }
  }

  class PriorityQueue {
    var a: seq<Item>

    /** `create_pq()` */
    constructor ()
      ensures a == []
    {
      a := [];
    }

    /** `children(pq, c)`: the one or two positions below c; the second
        only when it is inside the list. */
    function Children(c: nat): (r: seq<nat>)
      reads this
      ensures 1 <= |r| <= 2 && r[0] == 2 * c + 1
      ensures |r| == 2 <==> 2 * c + 2 < |a|
      ensures forall k :: 0 <= k < |r| ==> Parent(r[k]) == c
    {
      if 2 * c + 2 < |a| then [2 * c + 1, 2 * c + 2] else [2 * c + 1]
    }

    /** `has_children(pq, c)`: some position of the list has c as parent. */
    function HasChildren(c: nat): (r: bool)
      reads this
      ensures r <==> exists k :: 0 < k < |a| && Parent(k) == c
    {
      assert 2 * c + 1 < |a| ==> Parent(2 * c + 1) == c;
      2 * c + 1 < |a|
    }

    /** `exchange(pq, c, p)` */
    method Exchange(c: nat, p: nat)
      requires c < |a| && p < |a|
      modifies this
      ensures a == Swap(old(a), c, p)
      ensures multiset(a) == multiset(old(a))
    {
      a := a[c := a[p]][p := a[c]];
    }

    /** `set_root(pq, c)`: on an empty list the source only rebinds its
        local name, so the queue stays empty. */
    method SetRoot(x: Item)
      modifies this
      ensures old(a) == [] ==> a == []
      ensures old(a) != [] ==> a == old(a)[0 := x]
    {
      if |a| != 0 {
        a := a[0 := x];
      }
    }

    /** `add_last(pq, c)` */
    method AddLast(x: Item)
      modifies this
      ensures a == old(a) + [x]
    {
      a := a + [x];
    }

    /** `extract_last_from_pq(pq)`, a pop, which fails on an empty list. */
    method ExtractLast() returns (x: Item)
      requires |a| >= 1
      modifies this
      ensures a + [x] == old(a)
    {
      x := a[|a| - 1];
      a := a[..|a| - 1];
    }

    /** `insert_in_pq(pq, c)`: append and sift up while the item is below
        its parent. */
    method Insert(x: Item)
      requires IsHeap(a)
      modifies this
      ensures IsHeap(a)
      ensures |a| == |old(a)| + 1
      ensures multiset(a) == multiset(old(a)) + multiset{x}
    {
      SiftUpStart(a, x);
      AddLast(x);
      var i: nat := |a| - 1;
      while i != 0 && Less(a[i], a[Parent(i)])
        invariant i < |a| == |old(a)| + 1
        invariant multiset(a) == multiset(old(a)) + multiset{x}
        invariant HeapExceptUp(a, i)
      {
        var p := Parent(i);
        SiftUpStep(a, i);
        Exchange(i, p);
        i := p;
      }
      SiftUpDone(a, i);
    }

    /** `extract_min_from_pq(pq)`: take the root, move the last item to the
        root and sift it down, swapping with the first least child, until
        it is strictly below that child or has no children. The source
        fails on an empty list. */
    method ExtractMin() returns (m: Item)
      requires IsHeap(a) && |a| >= 1
      modifies this
      ensures m == old(a)[0]
      ensures IsHeap(a)
      ensures |a| == |old(a)| - 1
      ensures multiset(a) + multiset{m} == multiset(old(a))
      ensures forall k :: 0 <= k < |a| ==> !Less(a[k], m)
    {
      m := a[0];
      TakeRoot(a);
      var last := ExtractLast();
      SetRoot(last);
      var i: nat := 0;
      while HasChildren(i)
        invariant 0 < i ==> i < |a|
        invariant |a| == |old(a)| - 1
        invariant multiset(a) + multiset{m} == multiset(old(a))
        invariant HeapExceptDown(a, i)
        invariant forall k :: 0 <= k < |a| ==> !Less(a[k], m)
        decreases |a| - i
      {
        var j := MinChild(i);
        if Less(a[i], a[j]) {
          SiftDownDone(a, i, j);
          return;
        }
        SiftDownStep(a, i, j);
        SwapAbove(a, i, j, m);
        Exchange(i, j);
        i := j;
      }
      if |a| != 0 {
        SiftDownDone(a, i, i);
      }
    }

    /** `min(children(pq, i), key=...)`: the first child unless the second
        holds a strictly smaller item. */
    function MinChild(c: nat): (j: nat)
      reads this
      requires 2 * c + 1 < |a|
      ensures IsMinChild(a, c, j)
    {
      var ch := Children(c);
      LessIrreflexive(a[ch[0]]);
      if |ch| == 2 && Less(a[ch[1]], a[ch[0]]) then
        LessAsymmetric(a[ch[1]], a[ch[0]]);
        LessIrreflexive(a[ch[1]]);
        ch[1]
      else
        ch[0]
    }
  }
}
