# Compression and stock-span algorithms, modelled in Dafny

This project models three small Python programs and proves properties of the model:

* **Huffman coding** (`content/notebooks/huffman.py`).
  - The compressor counts the characters of a text and puts one leaf per character into a binary min-heap kept in a Python list.
  - It repeatedly merges the two least items, prefixing `0` to the codewords of the first and `1` to those of the second.
  - It turns the last item into a code table, then packs the codewords into bytes, most significant bit first, padding the last byte with zeros.
  - The decompressor inverts the table and reads the bytes bit by bit. It emits a character whenever the bits read so far form a codeword. Its `break`, taken once the announced number of characters is out, leaves only the loop over the bits of the current byte; on the compressor's bytes no further character comes out.
* **LZW** (`notebooks/lzw.py`).
  - The compressor and decompressor use an adaptive dictionary of at most `2^nb` codes over an alphabet of `n` characters.
  - Each code is written as `(nb + 7) // 8` big-endian bytes.
* **Stock spans** (`notebooks/stock_spans.py`).
  - The quadratic algorithm and the stack-based algorithm for the span of every day of a price series, and the script's check that both agree.

The programs are modelled in their own form:

* The heap is a class (`PriorityQueue.PriorityQueue`) whose list field its methods update in place.
* Every `while` and `for` statement of the sources is a method with a loop and its invariants. The dictionary comprehensions that build a table one entry at a time are loops as well (`HuffmanDecode.InvertTable`, `Lzw.SeedTable`, `Lzw.SeedDecodeTable`). The comprehension `hc_table` and the `sum` over the counts are recursive functions (`Huffman.TableOf`, `Huffman.SumCounts`).
* Each loop body that does a lot of work is a method of its own, proved against a predicate that states the loop invariant.

The modules are:

* `HuffmanItems` holds the queue items and Python's list ordering on them.
* `PriorityQueue` holds the heap.
* `HuffmanCode` is `create_huffman_code`.
* `HuffmanBits` is the bit packing.
* `HuffmanDecode` is the decoding loop.
* `Huffman` holds the top-level compressor and decompressor.
* `Lzw` holds both LZW directions.
* `StockSpan` holds both span algorithms.
* `Digits` (numbers as digit strings: `int(s, base=2)`, `format(b, '08b')`, `to_bytes`, `from_bytes`), `Sequences` and `Outcomes` are support modules.

Characters are their code points (`nat`), bytes are numbers below 256, and bit strings are sequences of the digits 0 and 1. The Python exceptions that the sources can raise are `Failure` values of a `Result` (an `IndexError` on an empty Huffman input; a `KeyError`, an `OverflowError`, or the `ValueError` of `chr` for an alphabet past the last code point, in LZW).

The round-trip properties are stated on the decompressors themselves. They take the original text (Huffman), or the codes and the cut of the text into ngrams (LZW), as ghost parameters. The decompressor must return that text whenever its input is what the compressor produces for it, under the parameters each round-trip member names (for LZW, `nb >= 1` and an alphabet that fits both `2^nb` codes and the code points). Client methods connect the two sides:

* `Huffman.HuffmanRoundTrip`, `Huffman.FixedRoundTrip`;
* `Lzw.CompressThenDecompress`, `Lzw.RoundTrip`;
* `StockSpan.CompareSpans`, `StockSpan.CompareSpansChecked`.

## Model

| member | source | states |
|---|---|---|
| HuffmanItems.LessIrreflexive | content/notebooks/huffman.py:39 | no queue item is `<` itself under Python's list comparison (weight, then the `[character, encoding]` pairs lexicographically) |
| HuffmanItems.LessTransitive | content/notebooks/huffman.py:39 | the item comparison used by the heap is transitive |
| HuffmanItems.LessTotal | content/notebooks/huffman.py:58 | any two different items are ordered one way or the other, so the heap order is a strict total order |
| HuffmanItems.NotLessTransitive | content/notebooks/huffman.py:58 | "not below" is transitive, the fact the sift loops rely on |
| PriorityQueue.Parent | content/notebooks/huffman.py:30-31 | `(c - 1) // 2` is -1 at the root and otherwise a smaller position having c as its first or second child |
| PriorityQueue.HeapRootMin | content/notebooks/huffman.py:50-51 | the root of a heap is not above any other item, so `extract_min_from_pq` returns a least item |
| PriorityQueue.SiftUpStep | content/notebooks/huffman.py:39-42 | swapping an item with a larger parent moves the only break in the heap order one level up |
| PriorityQueue.SiftUpDone | content/notebooks/huffman.py:39 | when sift-up stops at the root or under a parent that is not larger, the list is a heap |
| PriorityQueue.TakeRoot | content/notebooks/huffman.py:51-52 | moving the last item to the root removes exactly the old root from the multiset, breaks the order only below the root, and leaves nothing below the old root |
| PriorityQueue.SiftDownStep | content/notebooks/huffman.py:57-61 | swapping an item with its least child when it is not strictly below it moves the break one level down |
| PriorityQueue.SiftDownDone | content/notebooks/huffman.py:54-59 | when sift-down stops (no children, or strictly below the least child) the list is a heap |
| PriorityQueue.PriorityQueue.constructor | content/notebooks/huffman.py:6-7 | the new queue is empty |
| PriorityQueue.PriorityQueue.Children | content/notebooks/huffman.py:24-28 | one or two child positions, the second only when inside the list, each having c as parent |
| PriorityQueue.PriorityQueue.HasChildren | content/notebooks/huffman.py:47-48 | true exactly when some position of the list has c as parent |
| PriorityQueue.PriorityQueue.Exchange | content/notebooks/huffman.py:33-34 | the two positions are swapped and the multiset of items is unchanged |
| PriorityQueue.PriorityQueue.SetRoot | content/notebooks/huffman.py:15-19 | replaces the root of a non-empty list; an empty list stays empty, because the source only rebinds a local name |
| PriorityQueue.PriorityQueue.AddLast | content/notebooks/huffman.py:9-10 | the item is appended |
| PriorityQueue.PriorityQueue.ExtractLast | content/notebooks/huffman.py:44-45 | the last item is popped and returned |
| PriorityQueue.PriorityQueue.MinChild | content/notebooks/huffman.py:57 | `min(children, key=...)` is a child holding a least item among the children |
| PriorityQueue.PriorityQueue.Insert | content/notebooks/huffman.py:36-42 | the list stays a heap, grows by one, and its multiset gains exactly the new item |
| PriorityQueue.PriorityQueue.ExtractMin | content/notebooks/huffman.py:50-62 | returns the old root, which is not above any remaining item; the list stays a heap and loses exactly that item |
| HuffmanCode.MergeTotals | content/notebooks/huffman.py:81 | the merged item weighs the sum of the two weights and carries the characters of both |
| HuffmanCode.TotalsPermutation | content/notebooks/huffman.py:65-81 | the total weight and the multiset of characters of a queue do not depend on the order of its list |
| HuffmanCode.MergeWellCoded | content/notebooks/huffman.py:69-81 | prefixing 0 to one prefix-free item and 1 to another gives a prefix-free binary item with at least two pairs and no empty codeword |
| HuffmanCode.PrependBit | content/notebooks/huffman.py:72-77 | every pair of the item gets bit b in front of its codeword, characters and order unchanged |
| HuffmanCode.MergeStep | content/notebooks/huffman.py:67-81 | one merge keeps the loop invariant: a heap of well-coded items, one item fewer, the same total weight and characters |
| HuffmanCode.CreateHuffmanCode | content/notebooks/huffman.py:64-82 | empties the queue and returns an item with every character of the queue exactly once, the total weight, binary prefix-free codewords, and no empty codeword once the queue held two items or more; a one-item queue returns that item |
| Huffman.CountStep | content/notebooks/huffman.py:87-90 | counting one more character appends a new key with count 1 or increments a known key's count, keeping the keys distinct and in first-occurrence order, the counts equal to occurrences, and their sum the length read |
| Huffman.CountSymbols | content/notebooks/huffman.py:87-90 | `symb2freq`: distinct keys that are exactly the characters of the text, each counted by its number of occurrences, with a total equal to the length of the text |
| Huffman.BuildQueue | content/notebooks/huffman.py:92-94 | the queue is a heap holding exactly the leaves `[count, [c, '']]`, one per key with the count of that key (as a multiset), so its characters are the keys and its total weight is the sum of the counts |
| Huffman.TableOf | content/notebooks/huffman.py:98 | the table's keys are the characters of the pairs, each mapped to the codeword of one of its pairs |
| Huffman.TableOfWellCoded | content/notebooks/huffman.py:96-98 | the table of the final item is binary, and prefix-free between different characters when its codewords are non-empty |
| Huffman.CountAndMerge | content/notebooks/huffman.py:85-107 | the code taken out of the queue carries each character of the text exactly once, is prefix-free and binary with no empty codeword when there are two characters or more, is a single leaf for one character, and weighs the length of the text, which is also the header's `sum(symb2freq.values())` |
| Huffman.BuildTable | content/notebooks/huffman.py:85-98 | the table covers exactly the characters of the text and is binary; with two different characters it is a prefix-free code with non-empty codewords; with one character that character gets the empty codeword; the header count is the length of the text, and the item the table is taken from weighs that length |
| HuffmanBits.BytesSnoc | content/notebooks/huffman.py:119-120 | writing one more byte adds its eight bits, most significant first, to the end of the bit stream |
| HuffmanBits.AppendByte | content/notebooks/huffman.py:119 | `int(buffer[:8], base=2)` is below 256 and contributes exactly those eight bits to the stream |
| HuffmanBits.PackByte | content/notebooks/huffman.py:117-123 | sending a byte and keeping `buffer[8:]` leaves the stream of bytes followed by the buffer unchanged |
| HuffmanBits.EncodePrefix | content/notebooks/huffman.py:112-115 | the codewords of a prefix of the text form a prefix of the codewords of the whole text |
| HuffmanBits.Pack | content/notebooks/huffman.py:111-130 | the bytes are below 256 and their bits are the concatenated codewords of the text followed by fewer than eight zero bits |
| HuffmanDecode.InvertTable | content/notebooks/huffman.py:140 | every entry of the inverse undoes an entry of the table, and every codeword of the table is a key of the inverse |
| HuffmanDecode.InverseLookup | content/notebooks/huffman.py:140 | with distinct codewords the inverse maps each character's codeword back to that character |
| HuffmanDecode.NextBit | content/notebooks/huffman.py:146-153 | in the middle of a codeword, the next bit read from the bytes is the next bit of that codeword |
| HuffmanDecode.MatchStep | content/notebooks/huffman.py:153-157 | with a prefix-free code, the extended `encoding` is in the decoding table exactly when it is the whole current codeword, and it then decodes to the right character |
| HuffmanDecode.DecodeBit | content/notebooks/huffman.py:153-164 | one bit: emits only characters of the decoding table, stops exactly on a codeword that completes the announced count, and on the compressor's output emits the next character of the text exactly at the end of its codeword |
| HuffmanDecode.DecodeByte | content/notebooks/huffman.py:149-164 | the eight bits of one byte, leaving the inner loop on `break`: on the compressor's output the characters decoded so far are a prefix of the text, and a stop happens only once the whole text is out |
| HuffmanDecode.Unpack | content/notebooks/huffman.py:142-165 | only characters of the decoding table come out, no bytes give no characters, and the compressor's bytes for a text under a prefix-free code give back exactly that text |
| Huffman.HuffmanCompress | content/notebooks/huffman.py:84-130 | fails exactly on the empty text; otherwise the header count is the length of the text, the table covers exactly its characters, and the bytes encode the text under the table; a single repeated character writes no bytes at all |
| Huffman.HuffmanDecompress | content/notebooks/huffman.py:132-165 | only characters of the table come out, and data that encodes a text under a prefix-free table gives that text back |
| Huffman.HuffmanRoundTrip | content/notebooks/huffman.py:84-165 | as written: a text with two different characters comes back unchanged, the empty text fails, and a non-empty text of one repeated character comes back empty |
| Huffman.HuffmanCompressFixed | content/notebooks/huffman.py:84-130 | with the codeword 0 for a one-character alphabet, and an empty table and no bytes for the empty text, the table is always a prefix-free code with non-empty codewords covering the text, and the bytes encode the text |
| Huffman.FixedRoundTrip | content/notebooks/huffman.py:84-165 | with those corrections every text, the empty one included, comes back unchanged |
| Digits.FromToDigits | notebooks/lzw.py:45-46 | a number below `256^k` written as k big-endian bytes reads back as the same number (`to_bytes`, then `from_bytes`) |
| Digits.ToFromDigits | content/notebooks/huffman.py:119 | k digits below the base read as a number and written back with k digits give the same digits (`int(s, base=2)`, then `format(..., '08b')`) |
| Lzw.NumBytes | notebooks/lzw.py:30-32 | `(nb + 7) // 8` is the least byte count holding nb bits, and every code below `2^nb` fits in that many bytes |
| Lzw.TableSize | notebooks/lzw.py:25-29 | after a number of attempts to add an ngram, the codes in use number between n and n plus the attempts, never more than `2^nb` when n fits, and exactly n plus the attempts while the table is not full |
| Lzw.SeedTable | notebooks/lzw.py:28 | the compressor's table maps exactly the one-character strings below n to their own character |
| Lzw.EntryParent | notebooks/lzw.py:49-53 | every code beyond the seeds stands for an earlier code's string plus one character, so the table is a trie |
| Lzw.CompressExtend | notebooks/lzw.py:40-41 | extending w with a known `wc` keeps every code's meaning |
| Lzw.CompressEmit | notebooks/lzw.py:43-53 | writing the code of w, adding `wc` while codes remain, and restarting from c keeps the compressor's state: every known string has a code below the next one that stands for it |
| Lzw.CompressLoopLookup | notebooks/lzw.py:40-45 | on input whose characters are below n the compressor never looks up an unknown string, and the code of w is below `2^nb` |
| Lzw.WriteCode | notebooks/lzw.py:45-46 | fails exactly on an unknown w (`KeyError`) or a code too wide for the byte count (`OverflowError`); otherwise appends bytes that read back as the code |
| Lzw.CompressChar | notebooks/lzw.py:36-53 | one input character keeps the loop invariant, and cannot fail on input whose characters are below n when the seeds fit the table |
| Lzw.CompressLoopRun | notebooks/lzw.py:34-53 | the whole input loop: cannot fail on valid input or on the empty input, and ends in the loop invariant |
| Lzw.CompressFlush | notebooks/lzw.py:54-57 | writes the code of a non-empty w, nothing for the empty input, and ends with a cut of the whole text into ngrams and their codes |
| Lzw.Compress | notebooks/lzw.py:3-57 | fails (`ValueError`) when n exceeds the number of code points; otherwise succeeds on input over the alphabet when n fits in `2^nb` codes, writes nothing for the empty text, and otherwise writes the packed codes of a cut of the text into non-empty ngrams, each code standing for its ngram in the table as it was when written, and below `2^nb` |
| Lzw.SeedDecodeTable | notebooks/lzw.py:85 | the decompressor's table maps exactly the codes below n to their one-character strings |
| Lzw.DecodeStepCorrect | notebooks/lzw.py:103-119 | one code behind the compressor: a known code stands for the next ngram, an unknown one is exactly the next free code `code`, defined while writing the previous ngram, so `pv + pv[0]` is right, and adding `pv + v[0]` catches up with the compressor's table |
| Lzw.ReadCode | notebooks/lzw.py:101-103 | reading numBytes bytes where codes are packed yields the next code and leaves the rest |
| Lzw.DecodeCode | notebooks/lzw.py:103-121 | one code: appends a non-empty string, and on the compressor's output appends exactly the next ngram and keeps the table in step |
| Lzw.DecodeNext | notebooks/lzw.py:102-122 | one loop pass advances the read position and keeps the decoding invariant |
| Lzw.Decompress | notebooks/lzw.py:63-125 | fails (`ValueError`) when n exceeds the number of code points; otherwise fails (`KeyError`) exactly when the first code read is not a seed, and otherwise outputs that character first; empty data reads code 0 and gives the character 0 when n ≥ 1; later unknown codes never fail; the compressor's bytes for a non-empty text give that text back |
| Lzw.DecodeRest | notebooks/lzw.py:101-122 | the loop after the first code keeps the first character out, reads nothing from empty data, and on the compressor's bytes ends with the concatenation of all the ngrams |
| Lzw.CompressThenDecompress | notebooks/lzw.py:3-125 | as written: every non-empty text over the alphabet comes back unchanged when `nb >= 1` and n fits both `2^nb` and the code points, but the empty text comes back as the single character 0 |
| Lzw.DecompressChecked | notebooks/lzw.py:93-97 | with empty input read as the empty text, and otherwise as `lzw_decompress`: the same failures and the compressor's text back |
| Lzw.RoundTrip | notebooks/lzw.py:3-125 | with that correction every text over the alphabet, the empty one included, comes back unchanged when `nb >= 1` and n fits both `2^nb` and the code points |
| StockSpan.SpanUnique | notebooks/stock_spans.py:8-13 | a day has at most one span: the run of days not above it ends at the first day or at a strictly larger quote |
| StockSpan.SpansUnique | notebooks/stock_spans.py:50-54 | two lists of spans for the same quotes are equal |
| StockSpan.SimpleStockSpan | notebooks/stock_spans.py:3-14 | every returned span is the span of its day |
| StockSpan.PopStep | notebooks/stock_spans.py:21-22 | popping a day whose quote is not above today's keeps the stack invariant and extends the run of days not above today |
| StockSpan.PushStep | notebooks/stock_spans.py:27 | pushing today after the pops keeps the stack of increasing days with strictly decreasing quotes |
| StockSpan.SpanFromStack | notebooks/stock_spans.py:23-26 | after the pops, `i + 1` (empty stack) or `i - s[-1]` is today's span |
| StockSpan.StackStockSpan | notebooks/stock_spans.py:16-28 | every returned span is the span of its day, with fewer pops than days in total; an empty list of quotes gives `[1]` |
| StockSpan.CompareSpans | notebooks/stock_spans.py:50-54 | as written: the two algorithms give the same list exactly when there is at least one quote |
| StockSpan.StackStockSpanChecked | notebooks/stock_spans.py:16-28 | the stack algorithm with no spans for no quotes returns the span of every day on every input |
| StockSpan.CompareSpansChecked | notebooks/stock_spans.py:50-54 | with that correction the two algorithms agree on every list of quotes |

## Left out

- File handling, `argparse` and the command-line entry points are not modelled. Texts, bytes and results are values.
- The pickled Huffman header (the table and the character count) is passed as a `Compressed` value instead of being serialised.
- Input is read line by line in the sources. The model reads one sequence, which gives the same Counter and the same output as long as each line is processed in order.
- Characters are their code points. Text-mode decoding of files is not modelled.
- LZW characters are the numbers below n. A character of n or more makes the compressor look up an unknown string, which is the `UnknownString` failure.
- `read_quotes`, the CSV parsing of dates, and the final `print` of `stock_spans.py` are not modelled. Quotes are integers, because the algorithms only compare them with `<=`. Floating-point NaN is not modelled.
- The list aliasing of `[character, encoding]` pairs is not modelled. `pair[1] = '0' + pair[1]` updates lists that the extracted item shares, but that item is never used again. The model updates the pairs by value (`HuffmanCode.PrependBit`).
- `root(pq)` is the constant 0 and `get_data(pq, c)` is indexing. Both are written inline.
- HuffmanDecode.InvertTable: does not pin down which character wins when two characters share a codeword. The result depends on dictionary iteration order, which is not modelled. Within the model no code table has shared codewords.
- PriorityQueue.PriorityQueue.ExtractMin: requires a non-empty queue. The `IndexError` on an empty list surfaces as the `EmptyInput` failure of `Huffman.HuffmanCompress`, the only caller that can reach it.
- PriorityQueue.PriorityQueue.ExtractLast: requires a non-empty list. Its only caller, `ExtractMin`, guarantees one.
- HuffmanCode.CreateHuffmanCode: requires a non-empty queue of well-coded items, which is what `huffman_compress` builds. The empty queue is the `EmptyInput` failure.
- Huffman.HuffmanDecompress: on bytes that do not encode a text under a prefix-free table, the contract states only that the output characters come from the table, and that no bytes give no characters.
- Lzw.Decompress: on input the compressor cannot produce, the contract states only the first-code failure and the first output character.
- The LZW parameters nb and n are natural numbers. The negative values that `argparse` accepts are not modelled.
- Lzw.RoundTrip: requires `nb >= 1`, as does `Lzw.CompressThenDecompress`. With `nb = 0` the byte count `(nb + 7) // 8` is 0 (notebooks/lzw.py:32), so every code is written as zero bytes (notebooks/lzw.py:45, :57). The compressor then succeeds on, say, the text `[0, 0]` with n = 1, but writes no bytes, and no non-empty text survives the round trip. The model computes this case; the round-trip members make no promise for it.

## Findings

| source | as written | input that shows it | evidently intended | confidence | as-written member | corrected member |
|---|---|---|---|---|---|---|
| content/notebooks/huffman.py:64-82 | a text with only one distinct character yields a one-leaf queue, so no merge happens and the character keeps the empty codeword; the compressor writes no bytes and the decompressor outputs nothing | the text `aaa` | the text `aaa` comes back after compression and decompression | not executed | Huffman.HuffmanRoundTrip | Huffman.FixedRoundTrip |
| content/notebooks/huffman.py:92-96 | the empty text gives an empty queue, and taking the code out of it reads `pq[0]`, which raises `IndexError` | the empty text | the empty text compresses to no bytes and comes back empty | not executed | Huffman.HuffmanRoundTrip | Huffman.FixedRoundTrip |
| notebooks/stock_spans.py:17-18 | `spans` starts as `[1]` and `s` as `[0]` before any quote is looked at, so no quotes give one span, while `simple_stock_span` gives none and the script's comparison reports a difference | no quotes | no quotes give no spans, and both algorithms agree | not executed | StockSpan.CompareSpans | StockSpan.CompareSpansChecked |
| notebooks/lzw.py:94-97 | the empty text compresses to no bytes; decompressing no bytes reads `int.from_bytes(b'')`, which is 0, and writes `chr(0)` | the empty text, with n ≥ 1 | the empty text comes back empty | not executed | Lzw.CompressThenDecompress | Lzw.RoundTrip |
