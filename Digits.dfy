/** Fixed-width, most-significant-digit-first positional numbers. With base 2
    and width 8 these are the bit strings `format(b, '08b')` and
    `int(bits, base=2)`; with base 256 they are Python's big-endian
    `int.to_bytes` and `int.from_bytes`. */
module Digits {

  function Pow(b: nat, e: nat): (r: nat)
    ensures b >= 1 ==> r >= 1
  {
    if e == 0 then 1 else b * Pow(b, e - 1)
  }

  /** Every digit of ds is below base. */
  predicate AllBelow(ds: seq<nat>, base: nat)
  {
    forall k :: 0 <= k < |ds| ==> ds[k] < base
  }

  /** The len lowest digits of x in base `base`, most significant first; the
      digits above them are dropped. */
  function ToDigits(x: nat, base: nat, len: nat): (ds: seq<nat>)
    requires base >= 2
    ensures |ds| == len && AllBelow(ds, base)
    decreases len
  {
    if len == 0 then [] else ToDigits(x / base, base, len - 1) + [x % base]
  }

  /** The number whose digits, most significant first, are ds. */
  function FromDigits(ds: seq<nat>, base: nat): (x: nat)
  {
    if ds == [] then 0 else FromDigits(ds[..|ds| - 1], base) * base + ds[|ds| - 1]
  }

  /** Numbers written with |ds| digits are below base^|ds|. */
  lemma {:induction false} FromDigitsBound(ds: seq<nat>, base: nat)
    requires base >= 2 && AllBelow(ds, base)
    ensures FromDigits(ds, base) < Pow(base, |ds|)
  {
    if ds != [] {
      var init := ds[..|ds| - 1];
      FromDigitsBound(init, base);
      var p := Pow(base, |init|);
      var v := FromDigits(init, base);
      assert v <= p - 1;
      calc {
        FromDigits(ds, base);
        v * base + ds[|ds| - 1];
      <= { MulMonotone(v, p - 1, base); }
        (p - 1) * base + ds[|ds| - 1];
      <
        (p - 1) * base + base;
      ==
        base * p;
      }
    }
  }

  lemma MulMonotone(a: nat, b: nat, c: nat)
    requires a <= b
    ensures a * c <= b * c
  {
  }

  /** Writing a number that fits in len digits and reading it back gives
      the number. */
  lemma {:induction false} FromToDigits(x: nat, base: nat, len: nat)
    requires base >= 2 && x < Pow(base, len)
    ensures FromDigits(ToDigits(x, base, len), base) == x
    decreases len
  {
    if len > 0 {
      var q, r := x / base, x % base;
      QuotientBound(x, base, len);
      FromToDigits(q, base, len - 1);
      var init := ToDigits(q, base, len - 1);
      assert ToDigits(x, base, len) == init + [r];
      FromDigitsSnoc(init, base, r);
      DivModIdentity(x, base);
    }
  }

  lemma QuotientBound(x: nat, base: nat, len: nat)
    requires base >= 2 && len > 0 && x < Pow(base, len)
    ensures x / base < Pow(base, len - 1)
  {
    DivBound(x, base, Pow(base, len - 1));
  }

  lemma DivModIdentity(x: nat, base: nat)
    requires base >= 1
    ensures x == (x / base) * base + x % base
  {
  }

  lemma FromDigitsSnoc(ds: seq<nat>, base: nat, d: nat)
    ensures FromDigits(ds + [d], base) == FromDigits(ds, base) * base + d
  {
    assert (ds + [d])[..|ds|] == ds;
  }

  lemma DivBound(x: nat, base: nat, p: nat)
    requires base >= 1 && x < base * p
    ensures x / base < p
  {
  }

  /** Reading digits as a number and writing that number back with as many
      digits gives the digits. */
  lemma {:induction false} ToFromDigits(ds: seq<nat>, base: nat)
    requires base >= 2 && AllBelow(ds, base)
    ensures ToDigits(FromDigits(ds, base), base, |ds|) == ds
  {
    if ds != [] {
      var init := ds[..|ds| - 1];
      var x := FromDigits(ds, base);
      var last := ds[|ds| - 1];
      DivMod(FromDigits(init, base), base, last);
      ToFromDigits(init, base);
      assert ds == init + [last];
    }
  }

  lemma DivMod(q: nat, base: nat, r: nat)
    requires base >= 1 && r < base
    ensures (q * base + r) / base == q && (q * base + r) % base == r
  {
    var x := q * base + r;
    var q', r' := x / base, x % base;
    assert x == q' * base + r';
    if q' < q {
      MulMonotone(q' + 1, q, base);
    } else if q < q' {
      MulMonotone(q + 1, q', base);
    }
  }

  lemma {:induction false} PowAdd(b: nat, e1: nat, e2: nat)
    ensures Pow(b, e1 + e2) == Pow(b, e1) * Pow(b, e2)
  {
    if e1 > 0 {
      PowAdd(b, e1 - 1, e2);
      MulAssoc(b, Pow(b, e1 - 1), Pow(b, e2));
    }
  }

  lemma MulAssoc(a: nat, b: nat, c: nat)
    ensures a * (b * c) == (a * b) * c
  {
  }

  lemma {:induction false} PowMonotone(b: nat, e1: nat, e2: nat)
    requires b >= 1 && e1 <= e2
    ensures Pow(b, e1) <= Pow(b, e2)
  {
    if e1 < e2 {
      PowMonotone(b, e1, e2 - 1);
      MulMonotone(1, b, Pow(b, e2 - 1));
    }
  }

  /** A byte holds eight bits: 256^k == 2^(8k). */
  lemma {:induction false} BytePow(k: nat)
    ensures Pow(256, k) == Pow(2, 8 * k)
  {
    if k > 0 {
      BytePow(k - 1);
      PowAdd(2, 8, 8 * (k - 1));
    }
  }
}
