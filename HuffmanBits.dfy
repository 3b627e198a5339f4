/** The compressed bit stream of the Huffman coder: the codewords of the
    characters one after the other, cut into bytes of eight bits, most
    significant bit first, the last byte padded with zeros. */
module HuffmanBits {
  import opened Digits
  import opened HuffmanItems
  import opened Sequences
  import opened HuffmanCode

  /** A code table, `hc_table`: a codeword for each character. */
  type Table = map<nat, Bits>

  /** Every character of the text has a codeword. */
  ghost predicate AllIn(text: seq<nat>, table: Table)
  {
    forall k :: 0 <= k < |text| ==> text[k] in table
  }

  /** Every codeword is a string of 0s and 1s. */
  ghost predicate BinaryTable(table: Table)
  {
    forall c :: c in table ==> AllBelow(table[c], 2)
  }

  /** The codewords of the text, one after the other. */
  function Encode(text: seq<nat>, table: Table): Bits
    requires AllIn(text, table)
  {
    if text == [] then [] else Encode(text[..|text| - 1], table) + table[text[|text| - 1]]
  }

  /** The bits of the bytes, eight per byte, most significant first:
      `format(byte, '08b')` for each byte. */
  function BytesToBits(bytes: seq<nat>): (bits: Bits)
    ensures |bits| == 8 * |bytes| && AllBelow(bits, 2)
  {
    seq(8 * |bytes|, k requires 0 <= k < 8 * |bytes| => ToDigits(bytes[k / 8], 2, 8)[k % 8])
  }

  /** Bit i of byte pos is bit 8 * pos + i of the stream. */
  lemma ByteIndex(pos: nat, i: nat)
    requires i < 8
    ensures (8 * pos + i) / 8 == pos && (8 * pos + i) % 8 == i
  {
  }

  lemma ByteIndexBound(k: nat, n: nat)
    requires k < 8 * n
    ensures k / 8 < n
  {
  }

  /** The stream holds the bits in front, followed by fewer than eight zeros. */
  ghost predicate Padded(stream: Bits, bits: Bits)
  {
    && |bits| <= |stream| < |bits| + 8
    && stream[..|bits|] == bits
    && forall k :: |bits| <= k < |stream| ==> stream[k] == 0
  }

  /** The bytes carry the text under the table: the codewords of its
      characters, then the padding of the last byte. */
  ghost predicate Encodes(data: seq<nat>, text: seq<nat>, table: Table)
  {
    AllIn(text, table) && Padded(BytesToBits(data), Encode(text, table))
  }

  lemma EncodeSnoc(text: seq<nat>, table: Table, m: nat)
    requires AllIn(text, table) && m < |text|
    ensures Encode(text[..m + 1], table) == Encode(text[..m], table) + table[text[m]]
  {
    assert text[..m + 1][..m] == text[..m];
  }

  lemma BytesSnoc(bytes: seq<nat>, b: nat)
    ensures BytesToBits(bytes + [b]) == BytesToBits(bytes) + ToDigits(b, 2, 8)
  {
    var e', f := BytesToBits(bytes + [b]), BytesToBits(bytes) + ToDigits(b, 2, 8);
    assert |e'| == |f|;
    forall k | 0 <= k < |f|
      ensures e'[k] == f[k]
    {
      BytesSnocAt(bytes, b, k);
    }
  }

  lemma BytesSnocAt(bytes: seq<nat>, b: nat, k: nat)
    requires k < 8 * |bytes| + 8
    ensures BytesToBits(bytes + [b])[k] == (BytesToBits(bytes) + ToDigits(b, 2, 8))[k]
  {
    var n, e, e', last := |bytes|, BytesToBits(bytes), BytesToBits(bytes + [b]), ToDigits(b, 2, 8);
    assert |e| == 8 * n && |last| == 8;
    var q, r := k / 8, k % 8;
    assert e'[k] == ToDigits((bytes + [b])[q], 2, 8)[r];
    if k < 8 * n {
      ByteIndexBound(k, n);
      assert (e + last)[k] == e[k] == ToDigits(bytes[q], 2, 8)[r];
      assert (bytes + [b])[q] == bytes[q];
    } else {
      var i := k - 8 * n;
      ByteIndex(n, i);
      assert (e + last)[k] == last[i];
      assert q == n && r == i;
      assert (bytes + [b])[q] == b;
    }
  }

  /** Appending one byte: its value is below 256 and its eight bits are the
      bits it was made from. */
  lemma ByteOfBits(bits: Bits)
    requires |bits| == 8 && AllBelow(bits, 2)
    ensures FromDigits(bits, 2) < 256
    ensures ToDigits(FromDigits(bits, 2), 2, 8) == bits
  {
    FromDigitsBound(bits, 2);
    assert Pow(2, 8) == 256;
    ToFromDigits(bits, 2);
  }

  function Zeros(n: nat): (z: Bits)
    ensures |z| == n && forall k :: 0 <= k < n ==> z[k] == 0
  {
    seq(n, k => 0)
  }

  /** The buffer loop of `huffman_compress`: append the codeword of each
      character to a buffer, send out a byte whenever the buffer holds eight
      bits, and send the rest, padded with zeros, as a last byte. */
  method Pack(text: seq<nat>, table: Table) returns (bytes: seq<nat>)
    requires AllIn(text, table) && BinaryTable(table)
    ensures AllBelow(bytes, 256)
    ensures Encodes(bytes, text, table)
  {
    bytes := [];
    var buffer: Bits := [];
    for k := 0 to |text|
      invariant BytesToBits(bytes) + buffer == Encode(text[..k], table)
      invariant AllBelow(buffer, 2) && |buffer| < 8
      invariant AllBelow(bytes, 256)
    {
      EncodeSnoc(text, table, k);
      AppendAssoc(BytesToBits(bytes), buffer, table[text[k]]);
      buffer := Extend(buffer, table[text[k]]);
      while |buffer| >= 8
        invariant BytesToBits(bytes) + buffer == Encode(text[..k + 1], table)
        invariant AllBelow(buffer, 2)
        invariant AllBelow(bytes, 256)
        decreases |buffer|
      {
        bytes, buffer := PackByte(bytes, buffer);
      }
    }
    assert text[..|text|] == text;
    ghost var e := Encode(text, table);
    if |buffer| > 0 {
      var z := Zeros(8 - |buffer|);
      var padded := Extend(buffer, z);
      AppendAssoc(BytesToBits(bytes), buffer, z);
      var rest;
      bytes, rest := PackByte(bytes, padded);
      AppendEmpty(BytesToBits(bytes), rest);
      PaddedByZeros(e, z);
    } else {
      AppendEmpty(BytesToBits(bytes), buffer);
      PaddedByZeros(e, []);
      AppendEmpty(e, []);
    }
  }

  /** `buffer += ...` on strings of bits. */
  function Extend(buffer: Bits, bits: Bits): (r: Bits)
    requires AllBelow(buffer, 2) && AllBelow(bits, 2)
    ensures r == buffer + bits && AllBelow(r, 2)
  {
    var r := buffer + bits;
    assert forall k :: 0 <= k < |r| ==> r[k] == if k < |buffer| then buffer[k] else bits[k - |buffer|];
    r
  }

  lemma PaddedByZeros(e: Bits, z: Bits)
    requires |z| < 8 && forall k :: 0 <= k < |z| ==> z[k] == 0
    ensures Padded(e + z, e)
  {
    assert (e + z)[..|e|] == e;
  }

  /** Appending one byte made of eight bits: its value is below 256 and it
      contributes those bits to the stream. */
  lemma AppendByte(bytes: seq<nat>, head: Bits)
    requires |head| == 8 && AllBelow(head, 2)
    ensures FromDigits(head, 2) < 256
    ensures BytesToBits(bytes + [FromDigits(head, 2)]) == BytesToBits(bytes) + head
  {
    ByteOfBits(head);
    BytesSnoc(bytes, FromDigits(head, 2));
  }

  /** `int(buffer[:8], base=2)` sent out as a byte, and `buffer[8:]` kept. */
  method PackByte(bytes: seq<nat>, buffer: Bits) returns (bytes': seq<nat>, rest: Bits)
    requires |buffer| >= 8 && AllBelow(buffer, 2) && AllBelow(bytes, 256)
    ensures BytesToBits(bytes') + rest == BytesToBits(bytes) + buffer
    ensures AllBelow(bytes', 256) && AllBelow(rest, 2) && rest == buffer[8..]
  {
    var head := buffer[..8];
    var b := FromDigits(head, 2);
    AppendByte(bytes, head);
    bytes', rest := bytes + [b], buffer[8..];
    SplitAt(buffer, 8);
    AppendAssoc(BytesToBits(bytes), buffer[..8], buffer[8..]);
    assert forall k :: 0 <= k < |rest| ==> rest[k] == buffer[k + 8];
  }

  /** The codewords of a first part of the text start the codewords of the
      whole text. */
  lemma {:induction false} EncodePrefix(text: seq<nat>, table: Table, m: nat)
    requires AllIn(text, table) && m <= |text|
    ensures |Encode(text[..m], table)| <= |Encode(text, table)|
    ensures Encode(text, table)[..|Encode(text[..m], table)|] == Encode(text[..m], table)
    decreases |text| - m
  {
    if m == |text| {
      assert text[..m] == text;
    } else {
      EncodePrefix(text, table, m + 1);
      EncodeSnoc(text, table, m);
      IsPrefixTrans(Encode(text[..m], table), Encode(text[..m + 1], table), Encode(text, table));
    }
  }

  /** Bit i of byte pos of the stream is bit i of `format(data[pos], '08b')`. */
  lemma ByteBit(data: seq<nat>, pos: nat, i: nat)
    requires pos < |data| && i < 8
    ensures 8 * pos + i < |BytesToBits(data)|
    ensures BytesToBits(data)[8 * pos + i] == ToDigits(data[pos], 2, 8)[i]
  {
    ByteIndex(pos, i);
  }
}
