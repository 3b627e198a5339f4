/** The decoding side of the Huffman coder: the inverse table and the
    bit-by-bit loop of `huffman_decompress`. */
module HuffmanDecode {
  import opened Digits
  import opened HuffmanItems
  import opened HuffmanCode
  import opened HuffmanBits

  /** The decoding table, `hc_decoding_table`: a character for each codeword. */
  type Inverse = map<Bits, nat>

  /** A table a decoder can rely on: non-empty binary codewords, none of them
      a prefix of the codeword of another character. */
  ghost predicate CodeTable(table: Table)
  {
    && (forall c :: c in table ==> table[c] != [] && AllBelow(table[c], 2))
    && (forall c, d :: c in table && d in table && c != d ==> !IsPrefix(table[c], table[d]))
  }

  /** inv maps codewords back to characters: each of its entries undoes an
      entry of the table, and every codeword of the table is in it. */
  ghost predicate InverseOf(inv: Inverse, table: Table)
  {
    && (forall s :: s in inv ==> inv[s] in table && table[inv[s]] == s)
    && (forall c :: c in table ==> table[c] in inv)
  }

  /** `{v: k for (k, v) in hc_table.items()}`. When two characters share a
      codeword, the one the dictionary happens to visit last wins; the
      iteration order is not modelled, any order may be taken. */
  method InvertTable(table: Table) returns (inv: Inverse)
    ensures InverseOf(inv, table)
  {
    inv := map[];
    var todo := table.Keys;
    while todo != {}
      invariant todo <= table.Keys
      invariant forall s :: s in inv ==> inv[s] in table && table[inv[s]] == s
      invariant forall c :: c in table && c !in todo ==> table[c] in inv
      decreases |todo|
    {
      var c :| c in todo;
      inv := inv[table[c] := c];
      todo := todo - {c};
    }
  }

  /** With distinct codewords, the inverse gives back the character of each
      codeword. */
  lemma InverseLookup(inv: Inverse, table: Table, c: nat)
    requires CodeTable(table) && InverseOf(inv, table) && c in table
    ensures table[c] in inv && inv[table[c]] == c
  {
    var d := inv[table[c]];
    if d != c {
      assert table[c][..|table[c]|] == table[c];
      assert IsPrefix(table[d], table[c]);
    }
  }

  /** Every decoded character is a value of the decoding table. */
  ghost predicate FromInverse(out: seq<nat>, inv: Inverse)
  {
    forall k :: 0 <= k < |out| ==> out[k] in inv.Values
  }

  /** out is the first n characters of the text. */
  ghost predicate Decoded(out: seq<nat>, text: seq<nat>, n: nat)
  {
    n <= |text| && out == text[..n]
  }

  lemma DecodedNext(out: seq<nat>, text: seq<nat>, n: nat)
    requires Decoded(out, text, n) && n < |text|
    ensures Decoded(out + [text[n]], text, n + 1)
  {
    assert text[..n + 1] == text[..n] + [text[n]];
  }

  lemma DecodedAll(out: seq<nat>, text: seq<nat>)
    requires Decoded(out, text, |text|)
    ensures out == text
  {
    assert text[..|text|] == text;
  }

  /** What the decoder is handed when data was made from text under a code
      table: the inverse of that table and the number of characters. */
  ghost predicate Setup(data: seq<nat>, text: seq<nat>, table: Table, inv: Inverse, numChars: nat)
  {
    CodeTable(table) && InverseOf(inv, table) && Encodes(data, text, table) && numChars == |text|
  }

  /** The decoder has decoded the first m characters, has read `read` bits,
      and holds in `encoding` the first bits of the codeword of character m. */
  ghost predicate Active(text: seq<nat>, table: Table, m: nat, encoding: Bits, read: nat)
  {
    && AllIn(text, table) && m < |text|
    && IsPrefix(encoding, table[text[m]]) && |encoding| < |table[text[m]]|
    && read == |Encode(text[..m], table)| + |encoding|
  }

  /** The decoder is in the middle of decoding the text: the first n
      characters are out and `encoding` is the start of the next codeword. */
  ghost predicate Reading(data: seq<nat>, text: seq<nat>, table: Table, inv: Inverse, numChars: nat,
                          out: seq<nat>, n: nat, encoding: Bits, read: nat)
  {
    Setup(data, text, table, inv, numChars) && Decoded(out, text, n) && Active(text, table, n, encoding, read)
  }

  /** The bit the decoder reads next is the next bit of the codeword it is
      in the middle of. */
  lemma NextBit(data: seq<nat>, text: seq<nat>, table: Table, m: nat, encoding: Bits, read: nat)
    requires Encodes(data, text, table) && Active(text, table, m, encoding, read)
    ensures read < |BytesToBits(data)|
    ensures BytesToBits(data)[read] == table[text[m]][|encoding|]
  {
    var e, t := BytesToBits(data), Encode(text, table);
    var before, code := Encode(text[..m], table), table[text[m]];
    EncodeSnoc(text, table, m);
    EncodePrefix(text, table, m + 1);
    var p := before + code;
    assert read < |p| <= |t| <= |e|;
    calc {
      e[read];
      e[..|t|][read];
      t[read];
      t[..|p|][read];
      p[read];
      code[|encoding|];
    }
  }

  /** One bit added to `encoding`: it is in the decoding table exactly when
      it has become the whole codeword, which then decodes to the right
      character; otherwise decoding goes on within the same codeword. */
  lemma MatchStep(text: seq<nat>, table: Table, inv: Inverse, m: nat, encoding: Bits, read: nat, b: nat)
    requires CodeTable(table) && InverseOf(inv, table) && Active(text, table, m, encoding, read)
    requires b == table[text[m]][|encoding|]
    ensures encoding + [b] in inv <==> encoding + [b] == table[text[m]]
    ensures encoding + [b] == table[text[m]] ==>
              inv[encoding + [b]] == text[m] && read + 1 == |Encode(text[..m + 1], table)|
    ensures encoding + [b] == table[text[m]] && m + 1 < |text| ==> Active(text, table, m + 1, [], read + 1)
    ensures encoding + [b] != table[text[m]] ==> Active(text, table, m, encoding + [b], read + 1)
  {
    var code := table[text[m]];
    var next := encoding + [b];
    assert next == code[..|encoding| + 1];
    if next in inv {
      var d := inv[next];
      if d != text[m] {
        assert IsPrefix(table[d], code);
      }
    }
    if next == code {
      InverseLookup(inv, table, text[m]);
      EncodeSnoc(text, table, m);
      if m + 1 < |text| {
        assert table[text[m + 1]] != [];
      }
    }
  }

  /** The body of the inner loop for one bit: extend `encoding`, and when it
      is a codeword emit its character and count it; `stop` is the `break`
      taken once numChars characters have come out. */
  method DecodeBit(bit: nat, inv: Inverse, encoding: Bits, out: seq<nat>, n: nat, numChars: nat,
                   ghost data: seq<nat>, ghost read: nat, ghost text: seq<nat>, ghost table: Table)
    returns (encoding': Bits, out': seq<nat>, n': nat, stop: bool)
    requires n == |out|
    ensures n' == |out'|
    ensures FromInverse(out, inv) ==> FromInverse(out', inv)
    ensures stop <==> encoding + [bit] in inv && n + 1 == numChars
    ensures Reading(data, text, table, inv, numChars, out, n, encoding, read)
            && read < |BytesToBits(data)| && BytesToBits(data)[read] == bit ==>
              && (stop ==> Decoded(out', text, n') && n' == |text| && |Encode(text, table)| == read + 1)
              && (!stop ==> Reading(data, text, table, inv, numChars, out', n', encoding', read + 1))
  {
    ghost var setup := Reading(data, text, table, inv, numChars, out, n, encoding, read)
                       && read < |BytesToBits(data)| && BytesToBits(data)[read] == bit;
    if setup {
      NextBit(data, text, table, n, encoding, read);
      MatchStep(text, table, inv, n, encoding, read, bit);
      DecodedNext(out, text, n);
    }
    encoding', out', n', stop := encoding + [bit], out, n, false;
    if encoding' in inv {
      out' := out' + [inv[encoding']];
      n' := n' + 1;
      if n' == numChars {
        stop := true;
      } else {
        encoding' := [];
      }
    }
  }

  /** `for bit in bit_repr: ...`, the inner loop over the eight bits of one
      byte. Its `break`, taken when the expected number of characters has
      been decoded, leaves only this loop: `encoding` is not reset then. */
  method DecodeByte(bits: Bits, inv: Inverse, encoding: Bits, out: seq<nat>, n: nat, numChars: nat,
                    ghost data: seq<nat>, ghost pos: nat, ghost text: seq<nat>, ghost table: Table)
    returns (encoding': Bits, out': seq<nat>, n': nat, ghost stopped: bool)
    requires |bits| == 8 && n == |out|
    ensures n' == |out'|
    ensures FromInverse(out, inv) ==> FromInverse(out', inv)
    ensures Reading(data, text, table, inv, numChars, out, n, encoding, 8 * pos)
            && pos < |data| && bits == ToDigits(data[pos], 2, 8) ==>
              && (stopped ==> Decoded(out', text, n') && n' == |text| && |Encode(text, table)| <= 8 * pos + 8)
              && (!stopped ==> Reading(data, text, table, inv, numChars, out', n', encoding', 8 * pos + 8))
  {
    encoding', out', n', stopped := encoding, out, n, false;
    ghost var setup := Reading(data, text, table, inv, numChars, out, n, encoding, 8 * pos)
                       && pos < |data| && bits == ToDigits(data[pos], 2, 8);
    ghost var read := 8 * pos;
    for i := 0 to 8
      invariant read == 8 * pos + i
      invariant n' == |out'|
      invariant FromInverse(out, inv) ==> FromInverse(out', inv)
      invariant setup ==> Reading(data, text, table, inv, numChars, out', n', encoding', read)
    {
      if setup {
        ByteBit(data, pos, i);
      }
      var stop;
      encoding', out', n', stop := DecodeBit(bits[i], inv, encoding', out', n', numChars, data, read, text, table);
      read := read + 1;
      if stop {
        stopped := true;
        break;
      }
    }
  }

  /** Before the first byte: the decoder waits for the first codeword, and an
      empty text comes with no bytes at all. */
  lemma UnpackStart(data: seq<nat>, text: seq<nat>, table: Table, inv: Inverse, numChars: nat)
    requires Setup(data, text, table, inv, numChars)
    ensures text != [] ==> Active(text, table, 0, [], 0)
    ensures text == [] ==> data == []
  {
    assert text[..0] == [];
    if text != [] {
      assert table[text[0]] != [];
    }
  }

  /** `huffman_decompress` after the header: read the bytes one by one and
      their bits one by one, extending the current codeword and emitting its
      character as soon as it is in the decoding table. Whatever the input,
      only characters of the decoding table come out; when the data is the
      encoding of a text under a code table, with inv its inverse and
      numChars its length, the text comes out. */
  method Unpack(data: seq<nat>, inv: Inverse, numChars: nat, ghost text: seq<nat>, ghost table: Table)
    returns (out: seq<nat>)
    ensures FromInverse(out, inv)
    ensures data == [] ==> out == []
    ensures Setup(data, text, table, inv, numChars) ==> out == text
  {
    out := [];
    var n := 0;
    var encoding: Bits := [];
    var pos := 0;
    ghost var setup := Setup(data, text, table, inv, numChars);
    if setup {
      UnpackStart(data, text, table, inv, numChars);
    }
    while pos < |data|
      invariant pos <= |data| && n == |out| && FromInverse(out, inv)
      invariant data == [] ==> out == []
      invariant setup ==> Decoded(out, text, n)
      invariant setup && n < |text| ==> Reading(data, text, table, inv, numChars, out, n, encoding, 8 * pos)
      invariant setup && n == |text| ==> pos == |data|
      decreases |data| - pos
    {
      var bits := ToDigits(data[pos], 2, 8);
      ghost var stopped;
      encoding, out, n, stopped := DecodeByte(bits, inv, encoding, out, n, numChars, data, pos, text, table);
      pos := pos + 1;
    }
    if setup && n < |text| {
      NextBit(data, text, table, n, encoding, 8 * pos);
      assert false;
    }
    if setup {
      DecodedAll(out, text);
    }
  }
}
