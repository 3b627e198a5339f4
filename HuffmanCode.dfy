/** Building the Huffman code: the two lightest items are merged until one
    item is left, the codewords of the first gaining a leading 0 and those
    of the second a leading 1. */
module HuffmanCode {
  import opened Digits
  import opened HuffmanItems
  import opened PriorityQueue
  import opened Sequences

  /** u is a prefix of v. */
  predicate IsPrefix(u: Bits, v: Bits)
  {
    |u| <= |v| && v[..|u|] == u
  }

  lemma IsPrefixTrans(u: Bits, v: Bits, w: Bits)
    requires IsPrefix(u, v) && IsPrefix(v, w)
    ensures IsPrefix(u, w)
  {
    assert w[..|u|] == w[..|v|][..|u|];
  }

  /** No pair's codeword is a prefix of another pair's codeword (so, in
      particular, no two pairs share a codeword). */
  ghost predicate PrefixFree(ps: seq<Pair>)
  {
    forall i, j :: 0 <= i < |ps| && 0 <= j < |ps| && i != j ==> !IsPrefix(ps[i].code, ps[j].code)
  }

  /** Every codeword is a string of 0s and 1s. */
  ghost predicate Binary(ps: seq<Pair>)
  {
    forall i :: 0 <= i < |ps| ==> AllBelow(ps[i].code, 2)
  }

  ghost predicate NonEmptyCodes(ps: seq<Pair>)
  {
    forall i :: 0 <= i < |ps| ==> ps[i].code != []
  }

  /** An item the coder can work with: at least one pair, binary prefix-free
      codewords, and non-empty codewords once it holds two pairs or more. */
  ghost predicate WellCoded(x: Item)
  {
    && |x.pairs| >= 1 && PrefixFree(x.pairs) && Binary(x.pairs)
    && (|x.pairs| >= 2 ==> NonEmptyCodes(x.pairs))
  }

  /** The pairs with bit b in front of every codeword. */
  function Prepended(ps: seq<Pair>, b: nat): seq<Pair>
  {
    seq(|ps|, i requires 0 <= i < |ps| => Pair(ps[i].symbol, [b] + ps[i].code))
  }

  /** The item that replaces x and y in the queue. */
  function Merge(x: Item, y: Item): Item
  {
    Item(x.weight + y.weight, Prepended(x.pairs, 0) + Prepended(y.pairs, 1))
  }

  /** The characters of the pairs, with their multiplicities. */
  function PairSymbols(ps: seq<Pair>): multiset<nat>
  {
    if ps == [] then multiset{} else PairSymbols(ps[..|ps| - 1]) + multiset{ps[|ps| - 1].symbol}
  }

  /** The total weight of the items. */
  function Weights(s: seq<Item>): nat
  {
    if s == [] then 0 else Weights(s[..|s| - 1]) + s[|s| - 1].weight
  }

  /** The characters of all items, with their multiplicities. */
  function ItemSymbols(s: seq<Item>): multiset<nat>
  {
    if s == [] then multiset{} else ItemSymbols(s[..|s| - 1]) + PairSymbols(s[|s| - 1].pairs)
  }

  lemma {:induction false} PairSymbolsConcat(a: seq<Pair>, b: seq<Pair>)
    ensures PairSymbols(a + b) == PairSymbols(a) + PairSymbols(b)
    decreases |b|
  {
    if b != [] {
      var b' := b[..|b| - 1];
      var p := b[|b| - 1];
      assert a + b == (a + b') + [p];
      assert (a + b)[..|a + b| - 1] == a + b';
      PairSymbolsConcat(a, b');
      assert PairSymbols(a + b) == PairSymbols(a + b') + multiset{p.symbol};
      assert PairSymbols(b) == PairSymbols(b') + multiset{p.symbol};
    } else {
      assert a + b == a;
    }
  }

  lemma {:induction false} PrependedSymbols(ps: seq<Pair>, b: nat)
    ensures PairSymbols(Prepended(ps, b)) == PairSymbols(ps)
  {
    if ps != [] {
      assert Prepended(ps, b)[..|ps| - 1] == Prepended(ps[..|ps| - 1], b);
      PrependedSymbols(ps[..|ps| - 1], b);
    }
  }

  /** Merging adds the weights and keeps every character exactly once. */
  lemma MergeTotals(x: Item, y: Item)
    ensures Merge(x, y).weight == x.weight + y.weight
    ensures PairSymbols(Merge(x, y).pairs) == PairSymbols(x.pairs) + PairSymbols(y.pairs)
  {
    PairSymbolsConcat(Prepended(x.pairs, 0), Prepended(y.pairs, 1));
    PrependedSymbols(x.pairs, 0);
    PrependedSymbols(y.pairs, 1);
  }

  lemma {:induction false} TotalsConcat(a: seq<Item>, b: seq<Item>)
    ensures Weights(a + b) == Weights(a) + Weights(b)
    ensures ItemSymbols(a + b) == ItemSymbols(a) + ItemSymbols(b)
    decreases |b|
  {
    if b != [] {
      var b' := b[..|b| - 1];
      var x := b[|b| - 1];
      assert (a + b)[..|a + b| - 1] == a + b';
      assert (a + b)[|a + b| - 1] == x;
      TotalsConcat(a, b');
      assert Weights(a + b) == Weights(a + b') + x.weight;
      assert ItemSymbols(a + b) == ItemSymbols(a + b') + PairSymbols(x.pairs);
    } else {
      assert a + b == a;
    }
  }

  /** Taking item k out of t takes its weight and characters out of the
      totals. */
  lemma TotalsRemove(t: seq<Item>, k: nat)
    requires k < |t|
    ensures Weights(t) == Weights(t[..k] + t[k + 1..]) + t[k].weight
    ensures ItemSymbols(t) == ItemSymbols(t[..k] + t[k + 1..]) + PairSymbols(t[k].pairs)
  {
    TakeSnoc(t, k);
    SplitAt(t, k + 1);
    TotalsConcat(t[..k] + [t[k]], t[k + 1..]);
    TotalsConcat(t[..k], [t[k]]);
    TotalsConcat(t[..k], t[k + 1..]);
    assert [t[k]][..0] == [];
  }

  /** Where the last item of s sits in a permutation t of s. */
  lemma FindLast(s: seq<Item>, t: seq<Item>) returns (k: nat)
    requires multiset(s) == multiset(t) && s != []
    ensures k < |t| && t[k] == s[|s| - 1]
    ensures multiset(s[..|s| - 1]) == multiset(t[..k] + t[k + 1..])
  {
    var s' := s[..|s| - 1];
    var x := s[|s| - 1];
    assert s == s' + [x];
    assert x in multiset(t);
    k :| 0 <= k < |t| && t[k] == x;
    var t' := t[..k] + t[k + 1..];
    assert t == t[..k] + [x] + t[k + 1..];
    assert multiset(t) == multiset(t') + multiset{x};
    assert multiset(s') == multiset(s) - multiset{x} == multiset(t');
  }

  /** The total weight and the characters do not depend on the order of the
      items. */
  lemma {:induction false} TotalsPermutation(s: seq<Item>, t: seq<Item>)
    requires multiset(s) == multiset(t)
    ensures Weights(s) == Weights(t) && ItemSymbols(s) == ItemSymbols(t)
    decreases |s|
  {
    if s == [] {
      assert |t| == |multiset(t)| == 0;
    } else {
      var k := FindLast(s, t);
      var s', t' := s[..|s| - 1], t[..k] + t[k + 1..];
      TotalsPermutation(s', t');
      TotalsRemove(t, k);
      assert ItemSymbols(s) == ItemSymbols(s') + PairSymbols(t[k].pairs);
    }
  }

  /** A common first bit does not make a codeword a prefix of another. */
  lemma PrefixAfterBit(b: nat, u: Bits, v: Bits)
    requires !IsPrefix(u, v)
    ensures !IsPrefix([b] + u, [b] + v)
  {
    if |u| <= |v| {
      assert ([b] + v)[..|u| + 1][1..] == v[..|u|];
      assert ([b] + u)[1..] == u;
    }
  }

  /** Merging two well-coded items gives a well-coded item with at least two
      pairs: within each side the codewords keep their prefix-freeness, and
      across sides they differ in the first bit. */
  lemma MergeWellCoded(x: Item, y: Item)
    requires WellCoded(x) && WellCoded(y)
    ensures WellCoded(Merge(x, y)) && |Merge(x, y).pairs| >= 2
  {
    var xs, ys := Prepended(x.pairs, 0), Prepended(y.pairs, 1);
    var ps := xs + ys;
    forall i, j | 0 <= i < |ps| && 0 <= j < |ps| && i != j
      ensures !IsPrefix(ps[i].code, ps[j].code)
    {
      if i < |xs| && j < |xs| {
        PrefixAfterBit(0, x.pairs[i].code, x.pairs[j].code);
      } else if i >= |xs| && j >= |xs| {
        PrefixAfterBit(1, y.pairs[i - |xs|].code, y.pairs[j - |xs|].code);
      } else {
        assert ps[i].code[0] != ps[j].code[0];
      }
    }
    forall i | 0 <= i < |ps|
      ensures AllBelow(ps[i].code, 2)
    {
      if i < |xs| {
        assert AllBelow(x.pairs[i].code, 2);
      } else {
        assert AllBelow(y.pairs[i - |xs|].code, 2);
      }
    }
  }

  /** `for pair in x[1:]: pair[1] = b + pair[1]`, the codewords of an item
      updated in place. */
  method PrependBit(ps: seq<Pair>, b: nat) returns (r: seq<Pair>)
    ensures r == Prepended(ps, b)
  {
    r := ps;
    for k := 0 to |r|
      invariant |r| == |ps|
      invariant forall i :: 0 <= i < k ==> r[i] == Pair(ps[i].symbol, [b] + ps[i].code)
      invariant forall i :: k <= i < |r| ==> r[i] == ps[i]
    {
      r := r[k := Pair(r[k].symbol, [b] + r[k].code)];
    }
  }

  /** The queue invariant of the merge loop, for a queue that started as s0
      and has seen `merges` merges. */
  ghost predicate MergeLoop(a: seq<Item>, s0: seq<Item>, merges: nat)
  {
    && IsHeap(a) && |a| >= 1 && merges + |a| == |s0|
    && (forall x :: x in a ==> WellCoded(x))
    && Weights(a) == Weights(s0) && ItemSymbols(a) == ItemSymbols(s0)
    && (merges >= 1 ==> exists k :: 0 <= k < |a| && |a[k].pairs| >= 2)
  }

  lemma InQueue(a: seq<Item>, a': seq<Item>, x: Item)
    requires multiset(a') + multiset{x} == multiset(a)
    ensures x in a && forall y :: y in a' ==> y in a
  {
    assert x in multiset(a);
    forall y | y in a'
      ensures y in a
    {
      assert y in multiset(a');
      assert multiset(a)[y] > 0;
    }
  }

  lemma TotalsSnoc(s: seq<Item>, x: Item)
    ensures Weights(s + [x]) == Weights(s) + x.weight
    ensures ItemSymbols(s + [x]) == ItemSymbols(s) + PairSymbols(x.pairs)
  {
    assert (s + [x])[..|s|] == s;
  }

  /** Taking an item out of a queue and the totals of what is left. */
  lemma TotalsTake(a: seq<Item>, a': seq<Item>, x: Item)
    requires multiset(a') + multiset{x} == multiset(a)
    ensures Weights(a) == Weights(a') + x.weight
    ensures ItemSymbols(a) == ItemSymbols(a') + PairSymbols(x.pairs)
  {
    TotalsSnoc(a', x);
    TotalsPermutation(a' + [x], a);
  }

  /** Taking x and y out and putting their merge back keeps the totals. */
  lemma MergeStepTotals(a0: seq<Item>, a1: seq<Item>, a2: seq<Item>, a3: seq<Item>, x: Item, y: Item)
    requires multiset(a1) + multiset{x} == multiset(a0)
    requires multiset(a2) + multiset{y} == multiset(a1)
    requires multiset(a3) == multiset(a2) + multiset{Merge(x, y)}
    ensures Weights(a3) == Weights(a0) && ItemSymbols(a3) == ItemSymbols(a0)
  {
    var z := Merge(x, y);
    MergeTotals(x, y);
    TotalsTake(a0, a1, x);
    TotalsTake(a1, a2, y);
    TotalsTake(a3, a2, z);
    var px, py, s2 := PairSymbols(x.pairs), PairSymbols(y.pairs), ItemSymbols(a2);
    calc {
      ItemSymbols(a3);
      s2 + PairSymbols(z.pairs);
      s2 + (px + py);
      (s2 + py) + px;
      ItemSymbols(a0);
    }
  }

  /** ... and keeps every item well coded. */
  lemma MergeStepWellCoded(a0: seq<Item>, a1: seq<Item>, a2: seq<Item>, a3: seq<Item>, x: Item, y: Item)
    requires forall w :: w in a0 ==> WellCoded(w)
    requires multiset(a1) + multiset{x} == multiset(a0)
    requires multiset(a2) + multiset{y} == multiset(a1)
    requires multiset(a3) == multiset(a2) + multiset{Merge(x, y)}
    ensures forall w :: w in a3 ==> WellCoded(w)
    ensures exists k :: 0 <= k < |a3| && |a3[k].pairs| >= 2
  {
    InQueue(a0, a1, x);
    InQueue(a1, a2, y);
    var z := Merge(x, y);
    MergeWellCoded(x, y);
    assert z in multiset(a3);
    forall w | w in a3
      ensures WellCoded(w)
    {
      assert w in multiset(a3);
      if w != z {
        assert w in multiset(a2);
      }
    }
  }

  /** Taking x and y out and putting their merge back keeps the invariant. */
  lemma MergeStep(a0: seq<Item>, a1: seq<Item>, a2: seq<Item>, a3: seq<Item>, x: Item, y: Item,
                  s0: seq<Item>, merges: nat)
    requires MergeLoop(a0, s0, merges) && IsHeap(a3) && |a0| > 1
    requires multiset(a1) + multiset{x} == multiset(a0)
    requires multiset(a2) + multiset{y} == multiset(a1)
    requires multiset(a3) == multiset(a2) + multiset{Merge(x, y)}
    ensures MergeLoop(a3, s0, merges + 1)
  {
    MergeStepTotals(a0, a1, a2, a3, x, y);
    MergeStepWellCoded(a0, a1, a2, a3, x, y);
    assert |a3| == |a0| - 1 by {
      assert |multiset(a3)| == |multiset(a0)| - 1;
    }
  }

  /** `create_huffman_code(pq)`: merge the two least items until one is
      left, and take it out. The source fails on an empty queue. The result
      carries every character of the queue once with a prefix-free binary
      codeword, weighs what the whole queue weighed, and, when the queue held
      two items or more, has no empty codeword. */
  method CreateHuffmanCode(pq: PriorityQueue) returns (r: Item, ghost merges: nat)
    requires IsHeap(pq.a) && |pq.a| >= 1
    requires forall x :: x in pq.a ==> WellCoded(x)
    modifies pq
    ensures pq.a == []
    ensures merges == |old(pq.a)| - 1
    ensures r.weight == Weights(old(pq.a))
    ensures PairSymbols(r.pairs) == ItemSymbols(old(pq.a))
    ensures WellCoded(r)
    ensures |old(pq.a)| >= 2 ==> |r.pairs| >= 2 && NonEmptyCodes(r.pairs)
    ensures |old(pq.a)| == 1 ==> r == old(pq.a)[0]
  {
    ghost var s0 := pq.a;
    merges := 0;
    while |pq.a| > 1
      invariant MergeLoop(pq.a, s0, merges)
      invariant |s0| == 1 ==> pq.a == s0
      decreases |pq.a|
    {
      ghost var a0 := pq.a;
      var x := pq.ExtractMin();
      ghost var a1 := pq.a;
      var y := pq.ExtractMin();
      ghost var a2 := pq.a;
      var xs := PrependBit(x.pairs, 0);
      var ys := PrependBit(y.pairs, 1);
      pq.Insert(Item(x.weight + y.weight, xs + ys));
      MergeStep(a0, a1, a2, pq.a, x, y, s0, merges);
      merges := merges + 1;
    }
    ghost var a0 := pq.a;
    r := pq.ExtractMin();
    LastItem(a0, r, s0, merges);
  }

  /** The one item left carries the totals of the whole queue. */
  lemma LastItem(a: seq<Item>, r: Item, s0: seq<Item>, merges: nat)
    requires MergeLoop(a, s0, merges) && |a| == 1 && r == a[0]
    ensures r.weight == Weights(s0) && PairSymbols(r.pairs) == ItemSymbols(s0) && WellCoded(r)
    ensures merges >= 1 ==> |r.pairs| >= 2
  {
    assert a == [r];
    TotalsSnoc([], r);
    assert r in a;
    if merges >= 1 {
      var k :| 0 <= k < |a| && |a[k].pairs| >= 2;
      assert a[k] == r;
    }
  }
}
