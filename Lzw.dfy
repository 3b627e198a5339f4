/** Adaptive LZW compression with a dictionary of at most 2^nb codes over an
    alphabet of n characters. Characters are the numbers 0 .. n - 1 (the
    source's `chr(i)`), strings are sequences of them, and every code is
    written as a fixed number of big-endian bytes. */
module Lzw {
  import opened Digits
  import opened Outcomes

  type Str = seq<nat>

  datatype LzwError =
    | UnknownString  // the compressor looks up an ngram that is not in its table
    | CodeTooWide    // a code does not fit in the configured number of bytes
    | UnknownCode    // the first code read is not one of the n seed codes
    | BadCharacter   // a seed table asks chr for a code point past 0x10FFFF

  /** The number of Unicode code points: `chr(i)` needs i below it, so both
      seed tables, built before any input is read, fail for larger n. */
  const CodePoints: nat := 0x110000

  function Min(a: nat, b: nat): nat
  {
    if a <= b then a else b
  }

  /** The bytes that hold an nb-bit code, (nb + 7) // 8: the least k with
      8k >= nb. Every code below 2^nb fits in k big-endian bytes. */
  function NumBytes(nb: nat): (k: nat)
    ensures 8 * k >= nb && (k > 0 ==> 8 * (k - 1) < nb)
    ensures Pow(2, nb) <= Pow(256, k)
  {
    var k := (nb + 7) / 8;
    BytePow(k);
    PowMonotone(2, nb, 8 * k);
    k
  }

  /** Number of codes in use after `steps` attempts to add an entry, starting
      from the n seed codes; entries are only added while the next code is
      at most max_code = cap - 1. */
  function TableSize(n: nat, cap: nat, steps: nat): (size: nat)
    ensures n <= size <= n + steps
    ensures n <= cap ==> size <= cap
    ensures size < cap ==> size == n + steps
  {
    if n >= cap then n else if n + steps <= cap then n + steps else cap
  }

  /** Each attempt adds at most one code; an attempt adds one exactly when
      the next code is below cap, and then that code is n + steps. */
  lemma TableSizeStep(n: nat, cap: nat, steps: nat)
    ensures TableSize(n, cap, steps) < cap ==> TableSize(n, cap, steps + 1) == TableSize(n, cap, steps) + 1
    ensures TableSize(n, cap, steps) >= cap ==> TableSize(n, cap, steps + 1) == TableSize(n, cap, steps)
  {
  }

  /** The string that code k stands for once the input has been cut into
      `ngrams`: the seed [k] below n, and for code n + j, ngram j extended by
      the first character of ngram j + 1 ([] when not yet known). */
  function Entry(ngrams: seq<Str>, n: nat, k: nat): Str
  {
    if k < n then [k]
    else if k - n + 1 < |ngrams| && ngrams[k - n + 1] != [] then ngrams[k - n] + [ngrams[k - n + 1][0]]
    else []
  }

  /** Entries whose defining ngrams lie within a prefix do not depend on
      what follows it. */
  lemma EntryPrefix(a: seq<Str>, b: seq<Str>, n: nat, k: nat)
    requires |a| <= |b| && b[..|a|] == a
    requires k < n || k - n + 1 < |a|
    ensures Entry(a, n, k) == Entry(b, n, k)
  {
    if k >= n {
      assert a[k - n] == b[k - n] && a[k - n + 1] == b[k - n + 1];
    }
  }

  /** Entries only see the first character of the last ngram. */
  lemma EntryLast(a: seq<Str>, x: Str, y: Str, n: nat, k: nat)
    requires x != [] && y != [] && x[0] == y[0]
    requires k < n + |a|
    ensures Entry(a + [x], n, k) == Entry(a + [y], n, k)
  {
    if k >= n {
      assert (a + [x])[k - n] == (a + [y])[k - n];
    }
  }

  /** Extending the current ngram does not change the codes defined so far. */
  lemma EntryStableOnExtend(ngrams: seq<Str>, w: Str, c: nat, n: nat, bound: nat)
    requires bound <= n + |ngrams|
    requires w == [] ==> bound <= n
    ensures forall k :: 0 <= k < bound ==> Entry(ngrams + [w], n, k) == Entry(ngrams + [w + [c]], n, k)
  {
    forall k | 0 <= k < bound
      ensures Entry(ngrams + [w], n, k) == Entry(ngrams + [w + [c]], n, k)
    {
      if k >= n {
        EntryLast(ngrams, w, w + [c], n, k);
      }
    }
  }

  /** Emitting the current ngram and starting a new one does not change the
      codes defined so far. */
  lemma EntryStableOnEmit(ngrams: seq<Str>, w: Str, c: nat, n: nat, bound: nat)
    requires bound <= n + |ngrams|
    ensures forall k :: 0 <= k < bound ==> Entry(ngrams + [w], n, k) == Entry(ngrams + [w] + [[c]], n, k)
  {
    forall k | 0 <= k < bound
      ensures Entry(ngrams + [w], n, k) == Entry(ngrams + [w] + [[c]], n, k)
    {
      var a := ngrams + [w];
      assert (a + [[c]])[..|a|] == a;
      EntryPrefix(a, a + [[c]], n, k);
    }
  }

  /** `codes` is how the compressor writes the cut `ngrams`: ngram j is
      non-empty, and code j was in the table when it was written (below the
      table size after j additions) and stands for ngram j. */
  ghost predicate Parsed(codes: seq<nat>, ngrams: seq<Str>, n: nat, cap: nat)
  {
    && |codes| == |ngrams|
    && (forall j :: 0 <= j < |ngrams| ==> ngrams[j] != [])
    && (forall j {:trigger codes[j]} :: 0 <= j < |codes| ==> codes[j] < TableSize(n, cap, j))
    && (forall j {:trigger codes[j]} :: 0 <= j < |codes| ==> Entry(ngrams, n, codes[j]) == ngrams[j])
  }

  /** Every entry beyond the seeds is an earlier entry plus one character:
      the table is a trie, its key set closed under dropping the last
      character, and the shorter key has the smaller code. */
  lemma EntryParent(codes: seq<nat>, ngrams: seq<Str>, n: nat, cap: nat, k: nat)
    requires Parsed(codes, ngrams, n, cap) && |ngrams| >= 1
    requires n <= k < TableSize(n, cap, |ngrams| - 1)
    ensures |Entry(ngrams, n, k)| >= 2
    ensures exists k': nat :: k' < k && Entry(ngrams, n, k') == Entry(ngrams, n, k)[..|Entry(ngrams, n, k)| - 1]
  {
    var j := k - n;
    var e := Entry(ngrams, n, k);
    assert e == ngrams[j] + [ngrams[j + 1][0]];
    assert e[..|e| - 1] == ngrams[j];
    assert codes[j] < k && Entry(ngrams, n, codes[j]) == ngrams[j];
  }

  function Concat(ss: seq<Str>): Str
  {
    if ss == [] then [] else Concat(ss[..|ss| - 1]) + ss[|ss| - 1]
  }

  /** Each code as numBytes big-endian bytes, one after the other. */
  function PackCodes(codes: seq<nat>, numBytes: nat): seq<nat>
  {
    if codes == [] then [] else ToDigits(codes[0], 256, numBytes) + PackCodes(codes[1..], numBytes)
  }

  lemma {:induction false} PackCodesAppend(codes: seq<nat>, c: nat, numBytes: nat)
    ensures PackCodes(codes + [c], numBytes) == PackCodes(codes, numBytes) + ToDigits(c, 256, numBytes)
  {
    if codes != [] {
      assert (codes + [c])[1..] == codes[1..] + [c];
      PackCodesAppend(codes[1..], c, numBytes);
    }
  }

  /** `compressed_file.read(count)` at position pos: up to count bytes. */
  function Read(data: seq<nat>, pos: nat, count: nat): seq<nat>
    requires pos <= |data|
  {
    data[pos..Min(pos + count, |data|)]
  }

  /** The one-character string of character k. */
  function Seed(k: nat): Str
  {
    [k]
  }

  /** The seed table of the compressor: the one-character strings [i] for
      i < n, each with code i. */
  ghost predicate IsSeedTable(table: map<Str, nat>, n: nat)
  {
    && (forall s :: s in table ==> |s| == 1 && s[0] < n && table[s] == s[0])
    && (forall i :: 0 <= i < n ==> Seed(i) in table)
  }

  /** `{chr(i): i for i in range(n)}` */
  method SeedTable(n: nat) returns (table: map<Str, nat>)
    ensures IsSeedTable(table, n)
  {
    table := map[];
    for i := 0 to n
      invariant IsSeedTable(table, i)
    {
      table := table[Seed(i) := i];
    }
  }

  lemma {:induction false} ConcatSnoc(ss: seq<Str>, s: Str)
    ensures Concat(ss + [s]) == Concat(ss) + s
  {
    assert (ss + [s])[..|ss|] == ss;
  }

  /** The compressor's state between two input characters: every known
      string s has a code below `code` that stands for s, where code k stands
      for Entry(ngrams + [w], n, k); `codes` are the codes written for the
      finished `ngrams`, and w is the ngram being extended. */
  ghost predicate CompressState(table: map<Str, nat>, code: nat, n: nat, cap: nat,
                                codes: seq<nat>, ngrams: seq<Str>, w: Str)
  {
    && code == TableSize(n, cap, |ngrams|)
    && [] !in table
    && (forall k :: 0 <= k < n ==> Seed(k) in table)
    && (forall s :: s in table ==> table[s] < code && Entry(ngrams + [w], n, table[s]) == s)
    && (w == [] ==> ngrams == [])
    && |codes| == |ngrams|
    && (forall j :: 0 <= j < |ngrams| ==> ngrams[j] != [])
    && (forall j {:trigger codes[j]} :: 0 <= j < |codes| ==> codes[j] < TableSize(n, cap, j) && codes[j] < code)
    && (forall j {:trigger codes[j]} :: 0 <= j < |codes| ==> Entry(ngrams + [w], n, codes[j]) == ngrams[j])
  }

  /** The state before the first character. */
  lemma CompressStart(table: map<Str, nat>, n: nat, cap: nat)
    requires IsSeedTable(table, n)
    ensures CompressState(table, n, n, cap, [], [], [])
  {
    forall s | s in table
      ensures table[s] < n && Entry([[]], n, table[s]) == s
    {
      assert s == [s[0]];
    }
  }

  /** A character that extends w keeps the state. */
  lemma CompressExtend(table: map<Str, nat>, code: nat, n: nat, cap: nat,
                       codes: seq<nat>, ngrams: seq<Str>, w: Str, c: nat)
    requires CompressState(table, code, n, cap, codes, ngrams, w)
    ensures CompressState(table, code, n, cap, codes, ngrams, w + [c])
  {
    EntryStableOnExtend(ngrams, w, c, n, code);
  }

  /** Writing the code of w, adding w + [c] while codes remain, and
      restarting from [c] keeps the state. */
  lemma CompressEmit(table: map<Str, nat>, code: nat, n: nat, cap: nat,
                     codes: seq<nat>, ngrams: seq<Str>, w: Str, c: nat,
                     table': map<Str, nat>, code': nat)
    requires CompressState(table, code, n, cap, codes, ngrams, w)
    requires w in table && w + [c] !in table
    requires code < cap ==> table' == table[w + [c] := code] && code' == code + 1
    requires code >= cap ==> table' == table && code' == code
    ensures CompressState(table', code', n, cap, codes + [table[w]], ngrams + [w], [c])
  {
    var ngrams', codes' := ngrams + [w], codes + [table[w]];
    EntryStableOnEmit(ngrams, w, c, n, code);
    TableSizeStep(n, cap, |ngrams|);
    assert ngrams + [w] + [[c]] == ngrams' + [[c]];
    forall s | s in table'
      ensures table'[s] < code' && Entry(ngrams' + [[c]], n, table'[s]) == s
    {
      if s in table && (code >= cap || s != w + [c]) {
        assert table'[s] == table[s];
        assert Entry(ngrams + [w], n, table[s]) == s;
      } else {
        assert Entry(ngrams' + [[c]], n, code) == w + [c];
      }
    }
    forall j | 0 <= j < |codes'|
      ensures Entry(ngrams' + [[c]], n, codes'[j]) == ngrams'[j]
    {
      if j < |codes| {
        assert Entry(ngrams + [w], n, codes[j]) == ngrams[j];
      }
    }
  }

  /** The loop invariant of the compressor after i characters of text:
      the characters read so far are the finished ngrams followed by w, and
      `out` holds the codes written so far, each below 256^numBytes. */
  ghost predicate CompressLoop(text: Str, i: nat, table: map<Str, nat>, code: nat, n: nat, cap: nat,
                               codes: seq<nat>, ngrams: seq<Str>, w: Str, out: seq<nat>, numBytes: nat)
  {
    && i <= |text|
    && CompressState(table, code, n, cap, codes, ngrams, w)
    && text[..i] == Concat(ngrams) + w
    && (w == []) == (i == 0)
    && out == PackCodes(codes, numBytes)
    && (forall j :: 0 <= j < |codes| ==> codes[j] < Pow(256, numBytes))
    && (AllBelow(text, n) ==> w == [] || w in table)
  }

  lemma CompressLoopStart(text: Str, table: map<Str, nat>, n: nat, cap: nat, numBytes: nat)
    requires IsSeedTable(table, n)
    ensures CompressLoop(text, 0, table, n, n, cap, [], [], [], [], numBytes)
  {
    CompressStart(table, n, cap);
  }

  /** Before character i: on input whose characters are all below n the
      compressor never looks up a string it does not know (either w + [c]
      or w is in the table), and a code in the table fits the output width
      when the alphabet fits the table (it is below 2^nb <= 256^numBytes). */
  lemma CompressLoopLookup(text: Str, i: nat, table: map<Str, nat>, code: nat, n: nat, cap: nat,
                           codes: seq<nat>, ngrams: seq<Str>, w: Str, out: seq<nat>, numBytes: nat)
    requires CompressLoop(text, i, table, code, n, cap, codes, ngrams, w, out, numBytes)
    ensures i < |text| && AllBelow(text, n) ==> w + [text[i]] in table || w in table
    ensures w in table && n <= cap ==> table[w] < cap
  {
    if i < |text| && w == [] {
      assert w + [text[i]] == Seed(text[i]);
    }
  }

  lemma CompressLoopExtend(text: Str, i: nat, table: map<Str, nat>, code: nat, n: nat, cap: nat,
                           codes: seq<nat>, ngrams: seq<Str>, w: Str, out: seq<nat>, numBytes: nat)
    requires CompressLoop(text, i, table, code, n, cap, codes, ngrams, w, out, numBytes)
    requires i < |text| && w + [text[i]] in table
    ensures CompressLoop(text, i + 1, table, code, n, cap, codes, ngrams, w + [text[i]], out, numBytes)
  {
    CompressExtend(table, code, n, cap, codes, ngrams, w, text[i]);
    ReadExtend(text, i, ngrams, w);
  }

  lemma ReadExtend(text: Str, i: nat, ngrams: seq<Str>, w: Str)
    requires i < |text| && text[..i] == Concat(ngrams) + w
    ensures text[..i + 1] == Concat(ngrams) + (w + [text[i]])
  {
    assert text[..i + 1] == text[..i] + [text[i]];
  }

  lemma ReadEmit(text: Str, i: nat, ngrams: seq<Str>, w: Str)
    requires i < |text| && text[..i] == Concat(ngrams) + w
    ensures text[..i + 1] == Concat(ngrams + [w]) + [text[i]]
  {
    ReadExtend(text, i, ngrams, w);
    ConcatSnoc(ngrams, w);
  }

  lemma CompressLoopEmit(text: Str, i: nat, table: map<Str, nat>, code: nat, n: nat, cap: nat,
                         codes: seq<nat>, ngrams: seq<Str>, w: Str, out: seq<nat>, numBytes: nat,
                         table': map<Str, nat>, code': nat)
    requires CompressLoop(text, i, table, code, n, cap, codes, ngrams, w, out, numBytes)
    requires i < |text| && w + [text[i]] !in table && w in table && table[w] < Pow(256, numBytes)
    requires code < cap ==> table' == table[w + [text[i]] := code] && code' == code + 1
    requires code >= cap ==> table' == table && code' == code
    ensures CompressLoop(text, i + 1, table', code', n, cap, codes + [table[w]], ngrams + [w], [text[i]],
                         out + ToDigits(table[w], 256, numBytes), numBytes)
  {
    var c := text[i];
    CompressEmit(table, code, n, cap, codes, ngrams, w, c, table', code');
    PackCodesAppend(codes, table[w], numBytes);
    ReadEmit(text, i, ngrams, w);
    if AllBelow(text, n) {
      SeedsKnown(table', code', n, cap, codes + [table[w]], ngrams + [w], [c], c);
    }
  }

  lemma SeedsKnown(table: map<Str, nat>, code: nat, n: nat, cap: nat,
                   codes: seq<nat>, ngrams: seq<Str>, w: Str, c: nat)
    requires CompressState(table, code, n, cap, codes, ngrams, w) && c < n
    ensures [c] in table
  {
    assert Seed(c) in table;
  }

  /** What the compressor has written once all input is read and w, if
      any, has been flushed: the codes of a cut of the text into ngrams. */
  ghost predicate CompressDone(text: Str, n: nat, cap: nat, codes: seq<nat>, ngrams: seq<Str>, out: seq<nat>, numBytes: nat)
  {
    && out == PackCodes(codes, numBytes)
    && Concat(ngrams) == text && (codes == [] <==> text == [])
    && Parsed(codes, ngrams, n, cap)
    && (forall j :: 0 <= j < |codes| ==> codes[j] < Pow(256, numBytes))
    && (n <= cap ==> forall j :: 0 <= j < |codes| ==> codes[j] < cap)
  }

  lemma CompressLoopFlush(text: Str, table: map<Str, nat>, code: nat, n: nat, cap: nat,
                          codes: seq<nat>, ngrams: seq<Str>, w: Str, out: seq<nat>, numBytes: nat)
    requires CompressLoop(text, |text|, table, code, n, cap, codes, ngrams, w, out, numBytes)
    requires w != [] && w in table && table[w] < Pow(256, numBytes)
    ensures CompressDone(text, n, cap, codes + [table[w]], ngrams + [w], out + ToDigits(table[w], 256, numBytes), numBytes)
  {
    PackCodesAppend(codes, table[w], numBytes);
    ConcatSnoc(ngrams, w);
    assert text[..|text|] == text;
    FlushParsed(table, code, n, cap, codes, ngrams, w);
    var codes' := codes + [table[w]];
    forall j | 0 <= j < |codes'|
      ensures codes'[j] < Pow(256, numBytes)
    {
      if j < |codes| {
        assert codes'[j] == codes[j];
      }
    }
  }

  /** Writing the code of w completes the last ngram of the cut. */
  lemma FlushParsed(table: map<Str, nat>, code: nat, n: nat, cap: nat, codes: seq<nat>, ngrams: seq<Str>, w: Str)
    requires CompressState(table, code, n, cap, codes, ngrams, w) && w != [] && w in table
    ensures Parsed(codes + [table[w]], ngrams + [w], n, cap)
    ensures n <= cap ==> forall j :: 0 <= j < |codes| + 1 ==> (codes + [table[w]])[j] < cap
  {
    var codes', ngrams' := codes + [table[w]], ngrams + [w];
    TableSizeStep(n, cap, |ngrams|);
    forall j | 0 <= j < |codes'|
      ensures codes'[j] < TableSize(n, cap, j) && Entry(ngrams', n, codes'[j]) == ngrams'[j]
    {
      if j < |codes| {
        assert codes'[j] == codes[j];
        assert Entry(ngrams + [w], n, codes[j]) == ngrams[j];
      }
    }
    forall j | 0 <= j < |ngrams'|
      ensures ngrams'[j] != []
    {
      if j < |ngrams| {
        assert ngrams'[j] == ngrams[j];
      }
    }
  }

  lemma CompressLoopEmpty(text: Str, table: map<Str, nat>, code: nat, n: nat, cap: nat,
                          codes: seq<nat>, ngrams: seq<Str>, out: seq<nat>, numBytes: nat)
    requires CompressLoop(text, |text|, table, code, n, cap, codes, ngrams, [], out, numBytes)
    ensures text == [] && CompressDone(text, n, cap, codes, ngrams, out, numBytes)
  {
  }

  /** One character of the compressor's loop, in both of its branches. */
  lemma CompressLoopStep(text: Str, i: nat, table: map<Str, nat>, code: nat, n: nat, cap: nat,
                         codes: seq<nat>, ngrams: seq<Str>, w: Str, out: seq<nat>, numBytes: nat)
    requires CompressLoop(text, i, table, code, n, cap, codes, ngrams, w, out, numBytes) && i < |text|
    ensures AllBelow(text, n) ==> w + [text[i]] in table || w in table
    ensures w in table && n <= cap ==> table[w] < cap
    ensures w + [text[i]] in table ==>
              CompressLoop(text, i + 1, table, code, n, cap, codes, ngrams, w + [text[i]], out, numBytes)
    ensures w + [text[i]] !in table && w in table && table[w] < Pow(256, numBytes) ==>
              CompressLoop(text, i + 1,
                           if code < cap then table[w + [text[i]] := code] else table,
                           if code < cap then code + 1 else code, n, cap,
                           codes + [table[w]], ngrams + [w], [text[i]],
                           out + ToDigits(table[w], 256, numBytes), numBytes)
  {
    CompressLoopLookup(text, i, table, code, n, cap, codes, ngrams, w, out, numBytes);
    if w + [text[i]] in table {
      CompressLoopExtend(text, i, table, code, n, cap, codes, ngrams, w, out, numBytes);
    } else if w in table && table[w] < Pow(256, numBytes) {
      if code < cap {
        CompressLoopEmit(text, i, table, code, n, cap, codes, ngrams, w, out, numBytes,
                         table[w + [text[i]] := code], code + 1);
      } else {
        CompressLoopEmit(text, i, table, code, n, cap, codes, ngrams, w, out, numBytes, table, code);
      }
    }
  }

  /** The end of the input: the flush of a non-empty w, or nothing at all
      when the input was empty. */
  lemma CompressLoopEnd(text: Str, table: map<Str, nat>, code: nat, n: nat, cap: nat,
                        codes: seq<nat>, ngrams: seq<Str>, w: Str, out: seq<nat>, numBytes: nat)
    requires CompressLoop(text, |text|, table, code, n, cap, codes, ngrams, w, out, numBytes)
    ensures AllBelow(text, n) ==> w == [] || w in table
    ensures w in table && n <= cap ==> table[w] < cap
    ensures w == [] ==> text == [] && CompressDone(text, n, cap, codes, ngrams, out, numBytes)
    ensures w != [] && w in table && table[w] < Pow(256, numBytes) ==>
              CompressDone(text, n, cap, codes + [table[w]], ngrams + [w],
                           out + ToDigits(table[w], 256, numBytes), numBytes)
  {
    CompressLoopLookup(text, |text|, table, code, n, cap, codes, ngrams, w, out, numBytes);
    if w == [] {
      CompressLoopEmpty(text, table, code, n, cap, codes, ngrams, out, numBytes);
    } else if w in table && table[w] < Pow(256, numBytes) {
      CompressLoopFlush(text, table, code, n, cap, codes, ngrams, w, out, numBytes);
    }
  }

  /** Appends the code of w to the output as numBytes big-endian bytes; the
      lookup fails on an unknown w (a KeyError in the source) and the
      conversion on a code of 256^numBytes or more (an OverflowError). */
  method WriteCode(out: seq<nat>, table: map<Str, nat>, w: Str, numBytes: nat)
    returns (r: Result<seq<nat>, LzwError>)
    ensures w !in table <==> r == Failure(UnknownString)
    ensures w in table && table[w] >= Pow(256, numBytes) <==> r == Failure(CodeTooWide)
    ensures r.Success? <==> w in table && table[w] < Pow(256, numBytes)
    ensures r.Success? ==> r.value == out + ToDigits(table[w], 256, numBytes)
    ensures r.Success? ==> FromDigits(r.value[|out|..], 256) == table[w]
  {
    if w !in table {
      return Failure(UnknownString);
    }
    var x := table[w];
    if x >= Pow(256, numBytes) {
      return Failure(CodeTooWide);
    }
    var bytes := ToDigits(x, 256, numBytes);
    FromToDigits(x, 256, numBytes);
    assert (out + bytes)[|out|..] == bytes;
    r := Success(out + bytes);
  }

  /** One pass of the compressor's loop body, for character text[i]:
      extend w while w + [c] is known; otherwise write the code of w, add
      w + [c] as the next code while codes remain, and restart from [c]. */
  method CompressChar(text: Str, i: nat, table: map<Str, nat>, code: nat, maxCode: int, w: Str, out: seq<nat>,
                      numBytes: nat, ghost n: nat, ghost cap: nat, ghost codes: seq<nat>, ghost ngrams: seq<Str>)
    returns (err: Option<LzwError>, table': map<Str, nat>, code': nat, w': Str, out': seq<nat>,
             ghost codes': seq<nat>, ghost ngrams': seq<Str>)
    requires CompressLoop(text, i, table, code, n, cap, codes, ngrams, w, out, numBytes) && i < |text|
    requires maxCode == cap - 1
    ensures AllBelow(text, n) && n <= cap <= Pow(256, numBytes) ==> err == None
    ensures err == None ==>
              CompressLoop(text, i + 1, table', code', n, cap, codes', ngrams', w', out', numBytes)
  {
    table', code', w', out', codes', ngrams' := table, code, w, out, codes, ngrams;
    var c := text[i];
    var wc := w + [c];
    CompressLoopStep(text, i, table, code, n, cap, codes, ngrams, w, out, numBytes);
    if wc in table {
      w' := wc;
    } else {
      var written := WriteCode(out, table, w, numBytes);
      if written.Failure? {
        return Some(written.error), table', code', w', out', codes', ngrams';
      }
      out' := written.value;
      codes' := codes + [table[w]];
      ngrams' := ngrams + [w];
      if code <= maxCode {
        table' := table[wc := code];
        code' := code + 1;
      }
      w' := [c];
    }
    err := None;
  }

  /** The end of lzw_compress: the code of a non-empty w is written. */
  method CompressFlush(text: Str, table: map<Str, nat>, code: nat, w: Str, out: seq<nat>, numBytes: nat,
                       ghost n: nat, ghost cap: nat, ghost codes: seq<nat>, ghost ngrams: seq<Str>)
    returns (r: Result<seq<nat>, LzwError>, ghost codes': seq<nat>, ghost ngrams': seq<Str>)
    requires CompressLoop(text, |text|, table, code, n, cap, codes, ngrams, w, out, numBytes)
    ensures AllBelow(text, n) && n <= cap <= Pow(256, numBytes) ==> r.Success?
    ensures text == [] ==> r == Success(out)
    ensures r.Success? ==> CompressDone(text, n, cap, codes', ngrams', r.value, numBytes)
  {
    CompressLoopEnd(text, table, code, n, cap, codes, ngrams, w, out, numBytes);
    codes', ngrams' := codes, ngrams;
    if w != [] {
      var written := WriteCode(out, table, w, numBytes);
      if written.Failure? {
        return Failure(written.error), codes', ngrams';
      }
      codes' := codes + [table[w]];
      ngrams' := ngrams + [w];
      return written, codes', ngrams';
    }
    r := Success(out);
  }

  /** `for c in text: ...`, the compressor's loop over the whole input,
      from the seed table on; it stops at the first failed write. */
  method CompressLoopRun(text: Str, table0: map<Str, nat>, maxCode: int, numBytes: nat,
                         n: nat, ghost cap: nat)
    returns (err: Option<LzwError>, table: map<Str, nat>, code: nat, w: Str, out: seq<nat>,
             ghost codes: seq<nat>, ghost ngrams: seq<Str>)
    requires IsSeedTable(table0, n) && maxCode == cap - 1
    ensures AllBelow(text, n) && n <= cap <= Pow(256, numBytes) ==> err == None
    ensures text == [] ==> err == None
    ensures err == None ==> CompressLoop(text, |text|, table, code, n, cap, codes, ngrams, w, out, numBytes)
  {
    table, code, w, out, codes, ngrams := table0, n, [], [], [], [];
    CompressLoopStart(text, table, n, cap, numBytes);
    for i := 0 to |text|
      invariant CompressLoop(text, i, table, code, n, cap, codes, ngrams, w, out, numBytes)
    {
      err, table, code, w, out, codes, ngrams :=
        CompressChar(text, i, table, code, maxCode, w, out, numBytes, n, cap, codes, ngrams);
      if err.Some? {
        return;
      }
    }
    err := None;
  }

  /** lzw_compress over an in-memory input. The ghost outputs are the codes
      written and the ngrams they stand for. An alphabet larger than the
      code points fails first, as `chr` does while seeding the table. */
  method Compress(text: Str, nb: nat, n: nat)
    returns (r: Result<seq<nat>, LzwError>, ghost codes: seq<nat>, ghost ngrams: seq<Str>)
    ensures n > CodePoints ==> r == Failure(BadCharacter)
    ensures n <= CodePoints && AllBelow(text, n) && n <= Pow(2, nb) ==> r.Success?
    ensures n <= CodePoints && text == [] ==> r == Success([])
    ensures r.Success? ==> CompressDone(text, n, Pow(2, nb), codes, ngrams, r.value, NumBytes(nb))
  {
    if n > CodePoints {
      return Failure(BadCharacter), [], [];
    }
    ghost var cap := Pow(2, nb);
    var maxCode := Pow(2, nb) - 1;
    var numBytes := NumBytes(nb);
    var seeds := SeedTable(n);
    var err, table, code, w, out;
    err, table, code, w, out, codes, ngrams := CompressLoopRun(text, seeds, maxCode, numBytes, n, cap);
    if err.Some? {
      return Failure(err.value), codes, ngrams;
    }
    r, codes, ngrams := CompressFlush(text, table, code, w, out, numBytes, n, cap, codes, ngrams);
  }

  /** The seed table of the decompressor: code i stands for [i], for i < n. */
  ghost predicate IsSeedDecodeTable(table: map<nat, Str>, n: nat)
  {
    && (forall k: nat :: k in table <==> k < n)
    && (forall k :: k in table ==> table[k] == Seed(k))
  }

  /** `{i: chr(i) for i in range(n)}` */
  method SeedDecodeTable(n: nat) returns (table: map<nat, Str>)
    ensures IsSeedDecodeTable(table, n)
  {
    table := map[];
    for i := 0 to n
      invariant IsSeedDecodeTable(table, i)
    {
      table := table[i := Seed(i)];
    }
  }

  ghost predicate NonEmptyValues(table: map<nat, Str>)
  {
    forall k :: k in table ==> table[k] != []
  }

  /** The decompressor's table once the codes of ngrams[..j] are read: it
      knows exactly the codes the compressor had defined before writing code
      j - 1, and each stands for the same string as in the compressor. */
  ghost predicate DecodeTable(table: map<nat, Str>, code: nat, n: nat, cap: nat, ngrams: seq<Str>, j: nat)
    requires 1 <= j
  {
    && code == TableSize(n, cap, j - 1)
    && (forall k: nat :: k in table <==> k < code)
    && (forall k :: k in table ==> table[k] == Entry(ngrams, n, k))
  }

  /** The decompressor rebuilds the compressor's table one code behind it.
      Code j is either known, and stands for ngram j, or it is the code the
      compressor defined while writing code j - 1, and then ngram j is ngram
      j - 1 followed by its own first character. Adding ngram j - 1 plus the
      first character of ngram j catches up with the compressor. */
  lemma DecodeStepCorrect(codes: seq<nat>, ngrams: seq<Str>, n: nat, cap: nat, j: nat,
                          table: map<nat, Str>, code: nat)
    requires Parsed(codes, ngrams, n, cap) && 1 <= j < |codes|
    requires DecodeTable(table, code, n, cap, ngrams, j)
    ensures codes[j] in table ==> table[codes[j]] == ngrams[j]
    ensures codes[j] !in table ==> codes[j] == code && ngrams[j] == ngrams[j - 1] + [ngrams[j - 1][0]]
    ensures code < cap ==> DecodeTable(table[code := ngrams[j - 1] + [ngrams[j][0]]], code + 1, n, cap, ngrams, j + 1)
    ensures code >= cap ==> DecodeTable(table, code, n, cap, ngrams, j + 1)
  {
    var c := codes[j];
    TableSizeStep(n, cap, j - 1);
    assert c < TableSize(n, cap, j) && Entry(ngrams, n, c) == ngrams[j];
    if c !in table {
      assert c == n + j - 1;
      assert ngrams[j] == ngrams[j - 1] + [ngrams[j][0]];
      assert ngrams[j][0] == ngrams[j - 1][0];
    }
    if code < cap {
      var table' := table[code := ngrams[j - 1] + [ngrams[j][0]]];
      assert code == n + j - 1;
      forall k | k in table'
        ensures table'[k] == Entry(ngrams, n, k)
      {
      }
    }
  }

  /** The input the decompressor is meant for: the bytes the compressor
      writes for a non-empty text, with codes of at least one byte. */
  ghost predicate DecodeInput(data: seq<nat>, n: nat, cap: nat, numBytes: nat, codes: seq<nat>, ngrams: seq<Str>)
  {
    && Parsed(codes, ngrams, n, cap) && |codes| >= 1 && numBytes >= 1
    && data == PackCodes(codes, numBytes)
    && (forall j :: 0 <= j < |codes| ==> codes[j] < Pow(256, numBytes))
  }

  /** Reading numBytes bytes where the codes codes[j..] are packed gives
      code j, and leaves the codes after it. */
  lemma ReadCode(data: seq<nat>, pos: nat, codes: seq<nat>, j: nat, numBytes: nat)
    requires pos <= |data| && j < |codes| && numBytes >= 1 && codes[j] < Pow(256, numBytes)
    requires data[pos..] == PackCodes(codes[j..], numBytes)
    ensures Read(data, pos, numBytes) == ToDigits(codes[j], 256, numBytes) != []
    ensures FromDigits(Read(data, pos, numBytes), 256) == codes[j]
    ensures pos + numBytes <= |data| && data[pos + numBytes..] == PackCodes(codes[j + 1..], numBytes)
  {
    var digits := ToDigits(codes[j], 256, numBytes);
    assert codes[j..][1..] == codes[j + 1..];
    assert data[pos..] == digits + PackCodes(codes[j + 1..], numBytes);
    assert data[pos..pos + numBytes] == data[pos..][..numBytes];
    assert data[pos + numBytes..] == data[pos..][numBytes..];
    FromToDigits(codes[j], 256, numBytes);
  }

  /** The loop invariant of the decompressor on its intended input, with
      the codes of ngrams[..j] read and the next code at pos. */
  ghost predicate DecodeLoop(data: seq<nat>, pos: nat, table: map<nat, Str>, code: nat, pv: Str, out: Str,
                             n: nat, cap: nat, numBytes: nat, codes: seq<nat>, ngrams: seq<Str>, j: nat)
  {
    && 1 <= j <= |codes| == |ngrams|
    && pos <= |data| && data[pos..] == PackCodes(codes[j..], numBytes)
    && DecodeTable(table, code, n, cap, ngrams, j)
    && pv == ngrams[j - 1]
    && out == Concat(ngrams[..j])
  }

  /** One pass of the decompressor's loop body for the code c just read:
      look c up, or take pv followed by its own first character when c is
      unknown; then add pv followed by the first character of the result
      while codes remain. */
  method DecodeCode(c: nat, table: map<nat, Str>, code: nat, maxCode: int, pv: Str, out: Str,
                    ghost n: nat, ghost cap: nat, ghost codes: seq<nat>, ghost ngrams: seq<Str>, ghost j: nat)
    returns (table': map<nat, Str>, code': nat, v: Str, out': Str)
    requires pv != [] && NonEmptyValues(table) && maxCode == cap - 1
    ensures v != [] && NonEmptyValues(table') && out' == out + v
    ensures Parsed(codes, ngrams, n, cap) && 1 <= j < |codes| && c == codes[j] &&
            DecodeTable(table, code, n, cap, ngrams, j) && pv == ngrams[j - 1] ==>
              v == ngrams[j] && DecodeTable(table', code', n, cap, ngrams, j + 1)
  {
    if c in table {
      v := table[c];
    } else {
      v := pv + [pv[0]];
    }
    out' := out + v;
    table', code' := table, code;
    if code <= maxCode {
      table' := table[code := pv + [v[0]]];
      code' := code + 1;
    }
    if Parsed(codes, ngrams, n, cap) && 1 <= j < |codes| && c == codes[j] &&
       DecodeTable(table, code, n, cap, ngrams, j) && pv == ngrams[j - 1] {
      DecodeStepCorrect(codes, ngrams, n, cap, j, table, code);
    }
  }

  /** The first code of the intended input is a seed, and reading it sets up
      the loop invariant with one ngram done. */
  lemma DecodeLoopStart(data: seq<nat>, table: map<nat, Str>, n: nat, cap: nat, numBytes: nat,
                        codes: seq<nat>, ngrams: seq<Str>)
    requires DecodeInput(data, n, cap, numBytes, codes, ngrams) && IsSeedDecodeTable(table, n)
    ensures FromDigits(Read(data, 0, numBytes), 256) in table
    ensures DecodeLoop(data, numBytes, table, n, table[FromDigits(Read(data, 0, numBytes), 256)],
                       table[FromDigits(Read(data, 0, numBytes), 256)], n, cap, numBytes, codes, ngrams, 1)
  {
    assert codes[0..] == codes && data[0..] == data;
    ReadCode(data, 0, codes, 0, numBytes);
    var c := codes[0];
    assert c < TableSize(n, cap, 0) && Entry(ngrams, n, c) == ngrams[0];
    assert table[c] == ngrams[0];
    ConcatSnoc([], ngrams[0]);
    assert ngrams[..1] == [ngrams[0]];
  }

  /** A non-empty read inside the loop is the next code of the intended
      input. */
  lemma DecodeLoopNext(data: seq<nat>, pos: nat, table: map<nat, Str>, code: nat, pv: Str, out: Str,
                       n: nat, cap: nat, numBytes: nat, codes: seq<nat>, ngrams: seq<Str>, j: nat)
    requires DecodeInput(data, n, cap, numBytes, codes, ngrams)
    requires DecodeLoop(data, pos, table, code, pv, out, n, cap, numBytes, codes, ngrams, j)
    requires Read(data, pos, numBytes) != []
    ensures j < |codes| && FromDigits(Read(data, pos, numBytes), 256) == codes[j]
    ensures pos + |Read(data, pos, numBytes)| <= |data|
    ensures data[pos + |Read(data, pos, numBytes)|..] == PackCodes(codes[j + 1..], numBytes)
  {
    if j == |codes| {
      assert false;
    }
    ReadCode(data, pos, codes, j, numBytes);
  }

  /** Decoding code j as ngram j, with the table caught up, keeps the loop
      invariant one code further on. */
  lemma DecodeLoopAdvance(data: seq<nat>, pos: nat, pos': nat, table: map<nat, Str>, table': map<nat, Str>,
                          code: nat, code': nat, pv: Str, out: Str,
                          n: nat, cap: nat, numBytes: nat, codes: seq<nat>, ngrams: seq<Str>, j: nat)
    requires DecodeLoop(data, pos, table, code, pv, out, n, cap, numBytes, codes, ngrams, j) && j < |codes|
    requires pos' <= |data| && data[pos'..] == PackCodes(codes[j + 1..], numBytes)
    requires DecodeTable(table', code', n, cap, ngrams, j + 1)
    ensures DecodeLoop(data, pos', table', code', ngrams[j], out + ngrams[j], n, cap, numBytes, codes, ngrams, j + 1)
  {
    ConcatSnoc(ngrams[..j], ngrams[j]);
    assert ngrams[..j + 1] == ngrams[..j] + [ngrams[j]];
  }

  /** The loop stops exactly after the last code, with every ngram written. */
  lemma DecodeLoopEnd(data: seq<nat>, pos: nat, table: map<nat, Str>, code: nat, pv: Str, out: Str,
                      n: nat, cap: nat, numBytes: nat, codes: seq<nat>, ngrams: seq<Str>, j: nat)
    requires DecodeInput(data, n, cap, numBytes, codes, ngrams)
    requires DecodeLoop(data, pos, table, code, pv, out, n, cap, numBytes, codes, ngrams, j)
    requires Read(data, pos, numBytes) == []
    ensures out == Concat(ngrams)
  {
    if j < |codes| {
      ReadCode(data, pos, codes, j, numBytes);
    }
    assert ngrams[..j] == ngrams;
  }

  /** One pass of the decompressor's loop: decode the code in bytes and read
      the next numBytes bytes. */
  method DecodeNext(data: seq<nat>, pos: nat, bytes: seq<nat>, table: map<nat, Str>, code: nat, maxCode: int,
                    pv: Str, out: Str, numBytes: nat,
                    ghost n: nat, ghost cap: nat, ghost codes: seq<nat>, ghost ngrams: seq<Str>, ghost j: nat, ghost ok: bool)
    returns (pos': nat, bytes': seq<nat>, table': map<nat, Str>, code': nat, pv': Str, out': Str)
    requires pos <= |data| && bytes == Read(data, pos, numBytes) && bytes != []
    requires pv != [] && NonEmptyValues(table) && maxCode == cap - 1
    requires ok ==> DecodeInput(data, n, cap, numBytes, codes, ngrams) &&
                    DecodeLoop(data, pos, table, code, pv, out, n, cap, numBytes, codes, ngrams, j)
    ensures pos < pos' <= |data| && bytes' == Read(data, pos', numBytes)
    ensures pv' != [] && NonEmptyValues(table') && out' == out + pv'
    ensures ok ==> DecodeLoop(data, pos', table', code', pv', out', n, cap, numBytes, codes, ngrams, j + 1)
  {
    var c := FromDigits(bytes, 256);
    if ok {
      DecodeLoopNext(data, pos, table, code, pv, out, n, cap, numBytes, codes, ngrams, j);
    }
    table', code', pv', out' := DecodeCode(c, table, code, maxCode, pv, out, n, cap, codes, ngrams, j);
    pos' := pos + |bytes|;
    if ok {
      DecodeLoopAdvance(data, pos, pos', table, table', code, code', pv, out,
                        n, cap, numBytes, codes, ngrams, j);
    }
    bytes' := Read(data, pos', numBytes);
  }

  /** lzw_decompress over an in-memory input. An alphabet larger than the
      code points fails first, while seeding the table. The first code must be a seed
      (a KeyError in the source otherwise); after it, an unknown code is
      always read as pv followed by its first character, so nothing else
      fails. On the bytes the compressor writes for a non-empty text, given
      as the ghost codes and ngrams it wrote them for, the result is that
      text. */
  method Decompress(data: seq<nat>, nb: nat, n: nat, ghost codes: seq<nat>, ghost ngrams: seq<Str>)
    returns (r: Result<Str, LzwError>)
    ensures n > CodePoints ==> r == Failure(BadCharacter)
    ensures n <= CodePoints ==> (r.Failure? <==> FromDigits(Read(data, 0, NumBytes(nb)), 256) >= n)
    ensures n <= CodePoints && r.Failure? ==> r.error == UnknownCode
    ensures r.Success? ==> r.value != [] && r.value[0] == FromDigits(Read(data, 0, NumBytes(nb)), 256)
    ensures n <= CodePoints && data == [] ==> r == if n >= 1 then Success([0]) else Failure(UnknownCode)
    ensures n <= CodePoints && DecodeInput(data, n, Pow(2, nb), NumBytes(nb), codes, ngrams) ==>
              r == Success(Concat(ngrams))
  {
    if n > CodePoints {
      return Failure(BadCharacter);
    }
    ghost var cap := Pow(2, nb);
    var maxCode := Pow(2, nb) - 1;
    var table := SeedDecodeTable(n);
    var code: nat := n;
    var numBytes := NumBytes(nb);
    ghost var ok := DecodeInput(data, n, cap, numBytes, codes, ngrams);
    if ok {
      DecodeLoopStart(data, table, n, cap, numBytes, codes, ngrams);
    }
    var pos := 0;
    var bytes := Read(data, pos, numBytes);
    var c := FromDigits(bytes, 256);
    if c !in table {
      return Failure(UnknownCode);
    }
    var out := table[c];
    pos := pos + |bytes|;
    out := DecodeRest(data, pos, table, code, maxCode, out, out, numBytes, n, cap, codes, ngrams, ok);
    r := Success(out);
  }

  /** `while bytes: ...`, the decompressor's loop after the first code. It
      appends a non-empty string per code read and keeps what was already
      out; on the compressor's bytes it ends with every ngram written. */
  method DecodeRest(data: seq<nat>, pos0: nat, table0: map<nat, Str>, code0: nat, maxCode: int, pv0: Str, out0: Str,
                    numBytes: nat, ghost n: nat, ghost cap: nat, ghost codes: seq<nat>, ghost ngrams: seq<Str>, ghost ok: bool)
    returns (out: Str)
    requires pos0 <= |data| && pv0 != [] && out0 != [] && NonEmptyValues(table0) && maxCode == cap - 1
    requires ok ==> DecodeInput(data, n, cap, numBytes, codes, ngrams) &&
                    DecodeLoop(data, pos0, table0, code0, pv0, out0, n, cap, numBytes, codes, ngrams, 1)
    ensures out != [] && out[0] == out0[0]
    ensures data == [] ==> out == out0
    ensures ok ==> out == Concat(ngrams)
  {
    var pos, table, code, pv := pos0, table0, code0, pv0;
    out := out0;
    var bytes := Read(data, pos, numBytes);
    ghost var j := 1;
    while bytes != []
      invariant pos <= |data| && bytes == Read(data, pos, numBytes)
      invariant pv != [] && NonEmptyValues(table)
      invariant out != [] && out[0] == out0[0]
      invariant data == [] ==> out == out0
      invariant ok ==> DecodeLoop(data, pos, table, code, pv, out, n, cap, numBytes, codes, ngrams, j)
      decreases |data| - pos
    {
      pos, bytes, table, code, pv, out :=
        DecodeNext(data, pos, bytes, table, code, maxCode, pv, out, numBytes, n, cap, codes, ngrams, j, ok);
      j := j + 1;
    }
    if ok {
      DecodeLoopEnd(data, pos, table, code, pv, out, n, cap, numBytes, codes, ngrams, j);
    }
  }

  /** lzw_decompress run on the output of lzw_compress, as written: a
      non-empty text whose characters are below n comes back unchanged
      whenever the n seeds fit in the 2^nb codes, but the empty text comes
      back as the one character 0, because an empty input is read as code 0. */
  method CompressThenDecompress(text: Str, nb: nat, n: nat) returns (r: Result<Str, LzwError>)
    ensures n > CodePoints ==> r == Failure(BadCharacter)
    ensures n <= CodePoints && 1 <= nb && n <= Pow(2, nb) && AllBelow(text, n) && text != [] ==> r == Success(text)
    ensures n <= CodePoints && text == [] ==> r == if n >= 1 then Success([0]) else Failure(UnknownCode)
  {
    var compressed, codes, ngrams := Compress(text, nb, n);
    if compressed.Failure? {
      return Failure(compressed.error);
    }
    r := Decompress(compressed.value, nb, n, codes, ngrams);
  }

  /** Decompression with the empty input read as the empty text. */
  method DecompressChecked(data: seq<nat>, nb: nat, n: nat, ghost codes: seq<nat>, ghost ngrams: seq<Str>)
    returns (r: Result<Str, LzwError>)
    ensures n > CodePoints ==> r == Failure(BadCharacter)
    ensures n <= CodePoints && data == [] ==> r == Success([])
    ensures n <= CodePoints && data != [] ==> (r.Failure? <==> FromDigits(Read(data, 0, NumBytes(nb)), 256) >= n)
    ensures n <= CodePoints && DecodeInput(data, n, Pow(2, nb), NumBytes(nb), codes, ngrams) ==>
              r == Success(Concat(ngrams))
  {
    if data == [] && n <= CodePoints {
      return Success([]);
    }
    r := Decompress(data, nb, n, codes, ngrams);
  }

  /** With the empty input handled, every text over the alphabet comes back
      unchanged. */
  method RoundTrip(text: Str, nb: nat, n: nat) returns (r: Result<Str, LzwError>)
    ensures n > CodePoints ==> r == Failure(BadCharacter)
    ensures n <= CodePoints && 1 <= nb && n <= Pow(2, nb) && AllBelow(text, n) ==> r == Success(text)
  {
    var compressed, codes, ngrams := Compress(text, nb, n);
    if compressed.Failure? {
      return Failure(compressed.error);
    }
    r := DecompressChecked(compressed.value, nb, n, codes, ngrams);
  }
}
