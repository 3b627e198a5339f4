/** The values the Huffman coder stores in its priority queue. An item is the
    list `[weight, [character, encoding], [character, encoding], ...]`: the
    total number of occurrences of its characters, and for each character
    the codeword built so far, a string of '0' and '1' written here as the
    digits 0 and 1. Characters are their code points. Items are compared the
    way Python compares such lists: by weight, then pair by pair, each pair
    by character and then by codeword, a proper prefix coming first. */
module HuffmanItems {

  type Bits = seq<nat>

  datatype Pair = Pair(symbol: nat, code: Bits)

  datatype Item = Item(weight: nat, pairs: seq<Pair>)

  /** Python's `<` on two strings of '0' and '1'. */
  predicate CodeLess(a: Bits, b: Bits)
  {
    if b == [] then false
    else if a == [] then true
    else a[0] < b[0] || (a[0] == b[0] && CodeLess(a[1..], b[1..]))
  }

  /** Python's `<` on two `[character, encoding]` lists. */
  predicate PairLess(p: Pair, q: Pair)
  {
    p.symbol < q.symbol || (p.symbol == q.symbol && CodeLess(p.code, q.code))
  }

  /** Python's `<` on two lists of pairs. */
  predicate PairsLess(a: seq<Pair>, b: seq<Pair>)
  {
    if b == [] then false
    else if a == [] then true
    else PairLess(a[0], b[0]) || (a[0] == b[0] && PairsLess(a[1..], b[1..]))
  }

  /** Python's `<` on two items, `get_data(pq, i) < get_data(pq, j)`. */
  predicate Less(x: Item, y: Item)
  {
    x.weight < y.weight || (x.weight == y.weight && PairsLess(x.pairs, y.pairs))
  }

  lemma {:induction false} CodeLessIrreflexive(a: Bits)
    ensures !CodeLess(a, a)
  {
    if a != [] {
      CodeLessIrreflexive(a[1..]);
    }
  }

  lemma {:induction false} CodeLessTransitive(a: Bits, b: Bits, c: Bits)
    requires CodeLess(a, b) && CodeLess(b, c)
    ensures CodeLess(a, c)
  {
    if a != [] && a[0] == b[0] && b[0] == c[0] {
      CodeLessTransitive(a[1..], b[1..], c[1..]);
    }
  }

  lemma {:induction false} CodeLessTotal(a: Bits, b: Bits)
    requires a != b
    ensures CodeLess(a, b) || CodeLess(b, a)
  {
    if a != [] && b != [] && a[0] == b[0] {
      assert a == [a[0]] + a[1..] && b == [b[0]] + b[1..];
      CodeLessTotal(a[1..], b[1..]);
    }
  }

  lemma PairLessIrreflexive(p: Pair)
    ensures !PairLess(p, p)
  {
    CodeLessIrreflexive(p.code);
  }

  lemma PairLessTransitive(p: Pair, q: Pair, r: Pair)
    requires PairLess(p, q) && PairLess(q, r)
    ensures PairLess(p, r)
  {
    if p.symbol == q.symbol == r.symbol {
      CodeLessTransitive(p.code, q.code, r.code);
    }
  }

  lemma PairLessTotal(p: Pair, q: Pair)
    requires p != q
    ensures PairLess(p, q) || PairLess(q, p)
  {
    if p.symbol == q.symbol {
      CodeLessTotal(p.code, q.code);
    }
  }

  lemma {:induction false} PairsLessIrreflexive(a: seq<Pair>)
    ensures !PairsLess(a, a)
  {
    if a != [] {
      PairLessIrreflexive(a[0]);
      PairsLessIrreflexive(a[1..]);
    }
  }

  lemma {:induction false} PairsLessTransitive(a: seq<Pair>, b: seq<Pair>, c: seq<Pair>)
    requires PairsLess(a, b) && PairsLess(b, c)
    ensures PairsLess(a, c)
  {
    if a != [] {
      if PairLess(a[0], b[0]) && PairLess(b[0], c[0]) {
        PairLessTransitive(a[0], b[0], c[0]);
      } else if a[0] == b[0] && b[0] == c[0] {
        PairsLessTransitive(a[1..], b[1..], c[1..]);
      }
    }
  }

  lemma {:induction false} PairsLessTotal(a: seq<Pair>, b: seq<Pair>)
    requires a != b
    ensures PairsLess(a, b) || PairsLess(b, a)
  {
    if a != [] && b != [] {
      if a[0] == b[0] {
        assert a == [a[0]] + a[1..] && b == [b[0]] + b[1..];
        PairsLessTotal(a[1..], b[1..]);
      } else {
        PairLessTotal(a[0], b[0]);
      }
    }
  }

  /** The item order is a strict total order: no item is below itself, ... */
  lemma LessIrreflexive(x: Item)
    ensures !Less(x, x)
  {
    PairsLessIrreflexive(x.pairs);
  }

  /** ... it is transitive, ... */
  lemma LessTransitive(x: Item, y: Item, z: Item)
    requires Less(x, y) && Less(y, z)
    ensures Less(x, z)
  {
    if x.weight == y.weight == z.weight {
      PairsLessTransitive(x.pairs, y.pairs, z.pairs);
    }
  }

  /** ... and any two different items are ordered one way or the other. */
  lemma LessTotal(x: Item, y: Item)
    requires x != y
    ensures Less(x, y) || Less(y, x)
  {
    if x.weight == y.weight {
      PairsLessTotal(x.pairs, y.pairs);
    }
  }

  /** Hence "not below" is transitive: z >= y >= x gives z >= x. */
  lemma NotLessTransitive(x: Item, y: Item, z: Item)
    requires !Less(y, x) && !Less(z, y)
    ensures !Less(z, x)
  {
    if Less(z, x) {
      if x != y {
        LessTotal(x, y);
        LessTransitive(z, x, y);
      } else {
        LessIrreflexive(x);
      }
    }
  }

  /** And a strict step followed by a non-strict one: z >= y > x gives
      not z < x. */
  lemma LessThenNotLess(x: Item, y: Item, z: Item)
    requires Less(x, y) && !Less(z, y)
    ensures !Less(z, x)
  {
    if Less(z, x) {
      LessTransitive(z, x, y);
    }
  }

  /** Less is asymmetric. */
  lemma LessAsymmetric(x: Item, y: Item)
    requires Less(x, y)
    ensures !Less(y, x)
  {
    if Less(y, x) {
      LessTransitive(x, y, x);
      LessIrreflexive(x);
    }
  }
}
