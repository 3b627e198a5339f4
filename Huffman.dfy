/** The Huffman compressor and decompressor: count the characters, build the
    code, pack the codewords into bytes, and unpack them again. The file
    format's header, the pickled table and character count, is handed over
    as values. */
module Huffman {
  import opened Outcomes
  import opened Digits
  import opened HuffmanItems
  import opened PriorityQueue
  import opened HuffmanCode
  import opened HuffmanBits
  import opened HuffmanDecode
  import opened Sequences

  datatype HuffmanError = EmptyInput

  /** What `huffman_compress` writes: the code table, the number of
      characters, and the packed bytes. */
  datatype Compressed = Compressed(table: Table, numChars: nat, data: seq<nat>)

  ghost predicate Distinct(s: seq<nat>)
  {
    forall i, j :: 0 <= i < j < |s| ==> s[i] != s[j]
  }

  lemma FirstTwo(s: seq<nat>)
    requires Distinct(s) && |s| >= 2
    ensures s[0] != s[1]
  {
  }

  /** The text holds two different characters. */
  ghost predicate MultipleSymbols(text: seq<nat>)
  {
    exists i, j :: 0 <= i < |text| && 0 <= j < |text| && text[i] != text[j]
  }

  /** `sum(symb2freq.values())`, the counts taken in key order. */
  function SumCounts(order: seq<nat>, counts: map<nat, nat>): nat
    requires forall k :: 0 <= k < |order| ==> order[k] in counts
  {
    if order == [] then 0
    else SumCounts(order[..|order| - 1], counts) + counts[order[|order| - 1]]
  }

  /** Setting the count of a character that is not among the keys leaves the
      sum alone. */
  lemma {:induction false} SumCountsFresh(order: seq<nat>, counts: map<nat, nat>, c: nat, v: nat)
    requires forall k :: 0 <= k < |order| ==> order[k] in counts
    requires c !in order
    ensures SumCounts(order, counts[c := v]) == SumCounts(order, counts)
  {
    if order != [] {
      SumCountsFresh(order[..|order| - 1], counts, c, v);
    }
  }

  /** Counting one more occurrence of a key adds one to the sum. */
  lemma {:induction false} SumCountsBump(order: seq<nat>, counts: map<nat, nat>, c: nat)
    requires forall k :: 0 <= k < |order| ==> order[k] in counts
    requires Distinct(order) && c in order
    ensures SumCounts(order, counts[c := counts[c] + 1]) == SumCounts(order, counts) + 1
  {
    var init := order[..|order| - 1];
    if order[|order| - 1] == c {
      assert c !in init;
      SumCountsFresh(init, counts, c, counts[c] + 1);
    } else {
      assert c in init by {
        var k :| 0 <= k < |order| && order[k] == c;
        assert init[k] == c;
      }
      SumCountsBump(init, counts, c);
    }
  }

  lemma SumCountsSnoc(order: seq<nat>, counts: map<nat, nat>, c: nat)
    requires forall k :: 0 <= k < |order| ==> order[k] in counts
    requires c in counts
    ensures SumCounts(order + [c], counts) == SumCounts(order, counts) + counts[c]
  {
    assert (order + [c])[..|order|] == order;
  }

  /** The counting state after the first k characters. */
  ghost predicate Counted(text: seq<nat>, k: nat, order: seq<nat>, counts: map<nat, nat>)
  {
    k <= |text| && Tally(text[..k], order, counts)
  }

  /** order and counts are the Counter of seen: its characters in order of
      first occurrence, their numbers of occurrences, and their total. */
  ghost predicate Tally(seen: seq<nat>, order: seq<nat>, counts: map<nat, nat>)
  {
    Keys(seen, order, counts) && Counts(seen, counts) && SumCounts(order, counts) == |seen|
  }

  ghost predicate Keys(seen: seq<nat>, order: seq<nat>, counts: map<nat, nat>)
  {
    && Distinct(order)
    && (forall c :: c in order <==> c in seen)
    && (forall c :: c in counts <==> c in order)
    && (forall i :: 0 <= i < |order| ==> order[i] in counts)
  }

  ghost predicate Counts(seen: seq<nat>, counts: map<nat, nat>)
  {
    forall c :: c in counts ==> counts[c] == multiset(seen)[c]
  }

  /** `symb2freq += Counter(line)` for one more character: a new character
      is appended to the keys with count 1, a known one gets its count
      raised. */
  lemma CountStep(text: seq<nat>, k: nat, order: seq<nat>, counts: map<nat, nat>)
    requires Counted(text, k, order, counts) && k < |text|
    ensures text[k] in counts ==> Counted(text, k + 1, order, counts[text[k] := counts[text[k]] + 1])
    ensures text[k] !in counts ==> Counted(text, k + 1, order + [text[k]], counts[text[k] := 1])
  {
    var seen, c := text[..k], text[k];
    TakeSnoc(text, k);
    if c in counts {
      KeysKnown(seen, order, counts, c);
      CountsSnoc(seen, counts, c, counts[c] + 1);
      SumCountsBump(order, counts, c);
    } else {
      KeysNew(seen, order, counts, c);
      CountsSnoc(seen, counts, c, 1);
      SumCountsFresh(order, counts, c, 1);
      SumCountsSnoc(order, counts[c := 1], c);
    }
  }

  lemma KeysKnown(seen: seq<nat>, order: seq<nat>, counts: map<nat, nat>, c: nat)
    requires Keys(seen, order, counts) && c in counts
    ensures Keys(seen + [c], order, counts[c := counts[c] + 1])
  {
    forall d
      ensures d in seen + [c] <==> d in seen || d == c
    {
    }
  }

  lemma KeysNew(seen: seq<nat>, order: seq<nat>, counts: map<nat, nat>, c: nat)
    requires Keys(seen, order, counts) && c !in counts
    ensures Keys(seen + [c], order + [c], counts[c := 1])
  {
    var order' := order + [c];
    forall d
      ensures d in seen + [c] <==> d in seen || d == c
      ensures d in order' <==> d in order || d == c
    {
    }
    forall i | 0 <= i < |order|
      ensures order'[i] == order[i]
    {
    }
  }

  lemma CountsSnoc(seen: seq<nat>, counts: map<nat, nat>, c: nat, v: nat)
    requires Counts(seen, counts)
    requires v == (if c in counts then counts[c] else 0) + 1
    requires c in counts || c !in seen
    ensures Counts(seen + [c], counts[c := v])
  {
    assert multiset(seen + [c]) == multiset(seen) + multiset{c};
  }

  /** `symb2freq`, the Counter of the text: its keys in order of first
      occurrence, each once, and for each key its number of occurrences. */
  method CountSymbols(text: seq<nat>) returns (order: seq<nat>, counts: map<nat, nat>)
    ensures Distinct(order)
    ensures forall c :: c in order <==> c in text
    ensures forall c :: c in counts <==> c in order
    ensures forall i :: 0 <= i < |order| ==> order[i] in counts
    ensures forall c :: c in counts ==> counts[c] == multiset(text)[c]
    ensures SumCounts(order, counts) == |text|
  {
    order, counts := [], map[];
    for k := 0 to |text|
      invariant Counted(text, k, order, counts)
    {
      CountStep(text, k, order, counts);
      var c := text[k];
      if c in counts {
        counts := counts[c := counts[c] + 1];
      } else {
        order, counts := order + [c], counts[c := 1];
      }
    }
    assert text[..|text|] == text;
  }

  /** A queue entry `[value, [key, '']]`: one character with the empty
      codeword. */
  ghost predicate IsLeaf(x: Item)
  {
    |x.pairs| == 1 && x.pairs[0].code == []
  }

  lemma LeafSymbols(x: Item)
    requires |x.pairs| == 1
    ensures PairSymbols(x.pairs) == multiset{x.pairs[0].symbol}
  {
    assert x.pairs[..0] == [];
  }

  /** The leaves `[value, [key, '']]` for the keys in key order, each
      weighing the count of its key. */
  function Leaves(order: seq<nat>, counts: map<nat, nat>): seq<Item>
    requires forall k :: 0 <= k < |order| ==> order[k] in counts
  {
    if order == [] then []
    else
      var c := order[|order| - 1];
      Leaves(order[..|order| - 1], counts) + [Item(counts[c], [Pair(c, [])])]
  }

  /** One more key adds its leaf and its count. */
  lemma LeavesSnoc(order: seq<nat>, counts: map<nat, nat>, k: nat)
    requires k < |order| && forall i :: 0 <= i < |order| ==> order[i] in counts
    ensures Leaves(order[..k + 1], counts) == Leaves(order[..k], counts) + [Item(counts[order[k]], [Pair(order[k], [])])]
    ensures SumCounts(order[..k + 1], counts) == SumCounts(order[..k], counts) + counts[order[k]]
  {
    TakeSnoc(order, k);
    assert order[..k + 1][..k] == order[..k];
  }

  /** The first k keys are in the queue a, one leaf each. */
  ghost predicate Queued(a: seq<Item>, order: seq<nat>, counts: map<nat, nat>, k: nat)
    requires k <= |order| && forall i :: 0 <= i < |order| ==> order[i] in counts
  {
    && |a| == k
    && multiset(a) == multiset(Leaves(order[..k], counts))
    && (forall x :: x in a ==> IsLeaf(x))
    && ItemSymbols(a) == multiset(order[..k])
    && Weights(a) == SumCounts(order[..k], counts)
  }

  /** The queue of `huffman_compress`: one leaf per character, inserted in
      key order, weighing the count of its character. */
  method BuildQueue(pq: PriorityQueue, order: seq<nat>, counts: map<nat, nat>)
    requires pq.a == []
    requires forall i :: 0 <= i < |order| ==> order[i] in counts
    modifies pq
    ensures IsHeap(pq.a) && |pq.a| == |order|
    ensures multiset(pq.a) == multiset(Leaves(order, counts))
    ensures forall x :: x in pq.a ==> IsLeaf(x)
    ensures ItemSymbols(pq.a) == multiset(order)
    ensures Weights(pq.a) == SumCounts(order, counts)
  {
    assert order[..0] == [];
    for k := 0 to |order|
      invariant IsHeap(pq.a) && Queued(pq.a, order, counts, k)
    {
      ghost var a0 := pq.a;
      var x := Item(counts[order[k]], [Pair(order[k], [])]);
      pq.Insert(x);
      QueueStep(a0, pq.a, x, order, counts, k);
    }
    assert order[..|order|] == order;
  }

  lemma QueueStep(a0: seq<Item>, a: seq<Item>, x: Item, order: seq<nat>, counts: map<nat, nat>, k: nat)
    requires k < |order| && forall i :: 0 <= i < |order| ==> order[i] in counts
    requires x == Item(counts[order[k]], [Pair(order[k], [])])
    requires Queued(a0, order, counts, k)
    requires |a| == |a0| + 1 && multiset(a) == multiset(a0) + multiset{x}
    ensures Queued(a, order, counts, k + 1)
  {
    QueueStepSymbols(a0, a, x, order, k);
    QueueStepLeaves(a0, a, x);
    LeavesSnoc(order, counts, k);
    TotalsTake(a, a0, x);
  }

  lemma QueueStepSymbols(a0: seq<Item>, a: seq<Item>, x: Item, order: seq<nat>, k: nat)
    requires k < |order| && x.pairs == [Pair(order[k], [])]
    requires multiset(a) == multiset(a0) + multiset{x}
    requires ItemSymbols(a0) == multiset(order[..k])
    ensures ItemSymbols(a) == multiset(order[..k + 1])
  {
    TotalsTake(a, a0, x);
    LeafSymbols(x);
    TakeSnoc(order, k);
  }

  lemma QueueStepLeaves(a0: seq<Item>, a: seq<Item>, x: Item)
    requires IsLeaf(x) && multiset(a) == multiset(a0) + multiset{x}
    requires forall y :: y in a0 ==> IsLeaf(y)
    ensures forall y :: y in a ==> IsLeaf(y)
  {
    forall y | y in a
      ensures IsLeaf(y)
    {
      assert y in multiset(a);
      if y != x {
        assert y in multiset(a0);
      }
    }
  }

  lemma LeavesWellCoded(a: seq<Item>)
    requires forall x :: x in a ==> IsLeaf(x)
    ensures forall x :: x in a ==> WellCoded(x)
  {
    forall x | x in a
      ensures WellCoded(x)
    {
      assert AllBelow(x.pairs[0].code, 2);
    }
  }

  /** `{character: encoding for [character, encoding] in hc[1:]}`: a later
      pair overrides an earlier one with the same character. Its keys are
      the characters of the pairs, and each key maps to the codeword of one
      of its pairs. */
  function TableOf(ps: seq<Pair>): (t: Table)
    ensures forall c :: c in t <==> c in PairSymbols(ps)
    ensures forall c :: c in t ==> exists i :: 0 <= i < |ps| && ps[i] == Pair(c, t[c])
  {
    if ps == [] then map[]
    else
      var init, last := ps[..|ps| - 1], ps[|ps| - 1];
      var t := TableOf(init)[last.symbol := last.code];
      OverrideWitness(ps, TableOf(init), t);
      t
  }

  /** Overriding the entry of the last pair keeps a witness pair for every
      key. */
  lemma OverrideWitness(ps: seq<Pair>, t0: Table, t: Table)
    requires ps != [] && t == t0[ps[|ps| - 1].symbol := ps[|ps| - 1].code]
    requires forall c :: c in t0 ==> exists i :: 0 <= i < |ps| - 1 && ps[i] == Pair(c, t0[c])
    ensures forall c :: c in t ==> exists i :: 0 <= i < |ps| && ps[i] == Pair(c, t[c])
  {
    var last := ps[|ps| - 1];
    forall c | c in t
      ensures exists i :: 0 <= i < |ps| && ps[i] == Pair(c, t[c])
    {
      if c == last.symbol {
        assert ps[|ps| - 1] == Pair(c, t[c]);
      } else {
        var i :| 0 <= i < |ps| - 1 && ps[i] == Pair(c, t0[c]);
        assert ps[i] == Pair(c, t[c]);
      }
    }
  }

  /** The table of a well-coded item is binary and prefix-free between
      different characters, and a code table when the codewords are not
      empty. */
  lemma TableOfWellCoded(ps: seq<Pair>)
    requires PrefixFree(ps) && Binary(ps)
    ensures BinaryTable(TableOf(ps))
    ensures NonEmptyCodes(ps) ==> CodeTable(TableOf(ps))
  {
    var t := TableOf(ps);
    forall c | c in t
      ensures AllBelow(t[c], 2) && (NonEmptyCodes(ps) ==> t[c] != [])
    {
      var i :| 0 <= i < |ps| && ps[i] == Pair(c, t[c]);
    }
    forall c, d | c in t && d in t && c != d
      ensures !IsPrefix(t[c], t[d])
    {
      var i :| 0 <= i < |ps| && ps[i] == Pair(c, t[c]);
      var j :| 0 <= j < |ps| && ps[j] == Pair(d, t[d]);
    }
  }

  /** A text with two different characters has two keys. */
  lemma TwoKeys(text: seq<nat>, order: seq<nat>)
    requires MultipleSymbols(text) && forall c :: c in order <==> c in text
    ensures |order| >= 2
  {
    var i, j :| 0 <= i < |text| && 0 <= j < |text| && text[i] != text[j];
    assert text[i] in order && text[j] in order;
  }

  /** A non-empty text with one character has that character as its only
      key. */
  lemma OneKey(text: seq<nat>, order: seq<nat>)
    requires text != [] && !MultipleSymbols(text)
    requires Distinct(order) && forall c :: c in order <==> c in text
    ensures order == [text[0]]
  {
    assert text[0] in order;
    forall c | c in order
      ensures c == text[0]
    {
      var k :| 0 <= k < |text| && text[k] == c;
    }
    assert forall i :: 0 <= i < |order| ==> order[i] == text[0] by {
      forall i | 0 <= i < |order|
        ensures order[i] == text[0]
      {
        assert order[i] in order;
      }
    }
    if |order| >= 2 {
      FirstTwo(order);
      assert false;
    }
  }

  /** The table of a single leaf. */
  lemma SingleTable(x: Item, c: nat)
    requires IsLeaf(x) && PairSymbols(x.pairs) == multiset{c}
    ensures TableOf(x.pairs) == map[c := []]
  {
    LeafSymbols(x);
    assert x.pairs[0].symbol == c;
  }

  /** `huffman_compress` up to the code: count the characters, queue one
      leaf per character and merge. The code carries every character of the
      text once and weighs the length of the text, which is also
      `sum(symb2freq.values())`, the character count for the header. */
  method CountAndMerge(text: seq<nat>) returns (hc: Item, numChars: nat, ghost order: seq<nat>)
    requires text != []
    ensures numChars == |text| && hc.weight == |text|
    ensures Distinct(order) && forall c :: c in order <==> c in text
    ensures PairSymbols(hc.pairs) == multiset(order)
    ensures WellCoded(hc)
    ensures |order| >= 2 ==> NonEmptyCodes(hc.pairs)
    ensures |order| == 1 ==> IsLeaf(hc)
  {
    var keys, counts := CountSymbols(text);
    order := keys;
    var pq := new PriorityQueue();
    BuildQueue(pq, keys, counts);
    LeavesWellCoded(pq.a);
    ghost var q := pq.a;
    assert text[0] in keys;
    ghost var merges;
    hc, merges := CreateHuffmanCode(pq);
    numChars := SumCounts(keys, counts);
    if |keys| == 1 {
      assert q[0] in q;
    }
  }

  /** `huffman_compress` up to the table: the table covers exactly the
      characters of the text; with two characters or more it is a code
      table; a text of one repeated character gets the empty codeword. The
      item the code is taken from weighs the length of the text. */
  method BuildTable(text: seq<nat>) returns (table: Table, numChars: nat, ghost hc: Item)
    requires text != []
    ensures hc.weight == |text| && table == TableOf(hc.pairs)
    ensures numChars == |text|
    ensures forall c :: c in table <==> c in text
    ensures BinaryTable(table)
    ensures MultipleSymbols(text) ==> CodeTable(table)
    ensures !MultipleSymbols(text) ==> table == map[text[0] := []]
  {
    var code;
    ghost var order;
    code, numChars, order := CountAndMerge(text);
    hc := code;
    table := TableOf(code.pairs);
    TableOfWellCoded(code.pairs);
    if MultipleSymbols(text) {
      TwoKeys(text, order);
    } else {
      OneKey(text, order);
      SingleTable(code, text[0]);
    }
  }

  /** The codewords of a text whose characters all have the empty codeword. */
  lemma {:induction false} EncodeSilent(text: seq<nat>, c: nat)
    requires forall k :: 0 <= k < |text| ==> text[k] == c
    ensures Encode(text, map[c := []]) == []
  {
    if text != [] {
      EncodeSilent(text[..|text| - 1], c);
    }
  }

  /** No bits make no bytes. */
  lemma NoBytes(data: seq<nat>, text: seq<nat>, table: Table)
    requires Encodes(data, text, table) && Encode(text, table) == []
    ensures data == []
  {
  }

  /** `huffman_compress`. The source fails on an empty input: its queue is
      empty when the code is taken out of it. */
  method HuffmanCompress(text: seq<nat>) returns (r: Result<Compressed, HuffmanError>)
    ensures r.Failure? <==> text == []
    ensures r.Success? ==>
              && r.value.numChars == |text|
              && (forall c :: c in r.value.table <==> c in text)
              && AllBelow(r.value.data, 256)
              && Encodes(r.value.data, text, r.value.table)
    ensures r.Success? && MultipleSymbols(text) ==> CodeTable(r.value.table)
    ensures r.Success? && !MultipleSymbols(text) ==> r.value.table == map[text[0] := []] && r.value.data == []
  {
    if text == [] {
      return Failure(EmptyInput);
    }
    var table, numChars, _ := BuildTable(text);
    var data := Pack(text, table);
    r := Success(Compressed(table, numChars, data));
    if !MultipleSymbols(text) {
      EncodeSilent(text, text[0]);
      NoBytes(data, text, table);
    }
  }

  /** `huffman_decompress`. Only characters of the table come out; data made
      from a text under a code table gives the text back. */
  method HuffmanDecompress(c: Compressed, ghost text: seq<nat>) returns (out: seq<nat>)
    ensures forall k :: 0 <= k < |out| ==> out[k] in c.table
    ensures c.data == [] ==> out == []
    ensures CodeTable(c.table) && Encodes(c.data, text, c.table) && c.numChars == |text| ==> out == text
  {
    var inv := InvertTable(c.table);
    out := Unpack(c.data, inv, c.numChars, text, c.table);
    forall k | 0 <= k < |out|
      ensures out[k] in c.table
    {
      assert out[k] in inv.Values;
      var s :| s in inv && inv[s] == out[k];
    }
  }

  /** Compressing and decompressing as written: a text with two different
      characters comes back, but a non-empty text of one repeated character
      comes back empty, because its only codeword is empty. */
  method HuffmanRoundTrip(text: seq<nat>) returns (r: Result<seq<nat>, HuffmanError>)
    ensures text == [] ==> r == Failure(EmptyInput)
    ensures MultipleSymbols(text) ==> r == Success(text)
    ensures text != [] && !MultipleSymbols(text) ==> r == Success([])
  {
    var c := HuffmanCompress(text);
    if c.Failure? {
      return Failure(EmptyInput);
    }
    var out := HuffmanDecompress(c.value, text);
    r := Success(out);
  }

  /** `huffman_compress` corrected twice: a one-character alphabet gets the
      codeword 0 instead of the empty one, and the empty text gets an empty
      table and no bytes instead of failing on an empty queue. */
  method HuffmanCompressFixed(text: seq<nat>) returns (c: Compressed)
    ensures c.numChars == |text|
    ensures forall ch :: ch in c.table <==> ch in text
    ensures AllBelow(c.data, 256)
    ensures CodeTable(c.table)
    ensures Encodes(c.data, text, c.table)
  {
    if text == [] {
      return Compressed(map[], 0, []);
    }
    var table, numChars, _ := BuildTable(text);
    if table[text[0]] == [] {
      table := map[text[0] := [0]];
    }
    var data := Pack(text, table);
    c := Compressed(table, numChars, data);
  }

  /** With the corrections, every text comes back. */
  method FixedRoundTrip(text: seq<nat>) returns (out: seq<nat>)
    ensures out == text
  {
    var c := HuffmanCompressFixed(text);
    out := HuffmanDecompress(c, text);
  }
}
