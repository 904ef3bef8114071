/** 32-bit words as the C code uses them: `BIT(x)`, or-ing a bit in, and-ing it out. */
module Word {

  /** A bit position by which a 32-bit word can be shifted. */
  type Pin = i: bv32 | i < 32

  function Bit(i: Pin): bv32 {
    1 << i
  }

  /** `v & w` */
  function And(v: bv32, w: bv32): bv32 {
    v & w
  }

  /** `v |= w` */
  function Or(v: bv32, w: bv32): bv32 {
    v | w
  }

  /** `v &= ~w` */
  function AndNot(v: bv32, w: bv32): bv32 {
    v & !w
  }

  predicate Has(w: bv32, i: Pin) {
    (w >> i) & 1 == 1
  }

  lemma BitHas(i: Pin, j: Pin)
    ensures Has(Bit(i), j) <==> i == j
  {}

  lemma OrHas(v: bv32, w: bv32, j: Pin)
    ensures Has(Or(v, w), j) <==> Has(v, j) || Has(w, j)
  {
    assert ((v | w) >> j) & 1 == ((v >> j) & 1) | ((w >> j) & 1);
  }

  lemma AndNotHas(v: bv32, w: bv32, j: Pin)
    ensures Has(AndNot(v, w), j) <==> Has(v, j) && !Has(w, j)
  {
    assert ((v & !w) >> j) & 1 == ((v >> j) & 1) & !((w >> j) & 1);
  }

  lemma MaskTest(w: bv32, i: Pin)
    ensures And(w, Bit(i)) != 0 <==> Has(w, i)
  {}

  lemma ZeroHasNone(i: Pin)
    ensures !Has(0, i)
  {}

  lemma XorBit(v: bv32, w: bv32, j: Pin)
    ensures Has(v ^ w, j) <==> Has(v, j) != Has(w, j)
  {
    assert ((v ^ w) >> j) & 1 == ((v >> j) & 1) ^ ((w >> j) & 1);
  }

  lemma FindBit(x: bv32, n: bv32) returns (j: Pin)
    requires x != 0 && n <= 32 && x >> n == 0
    ensures Has(x, j)
    decreases n
  {
    assert x >> 0 == x;
    if n == 0 {
      assert false;
    } else if Has(x, n - 1) {
      j := n - 1;
    } else {
      assert x >> (n - 1) == 0;
      j := FindBit(x, n - 1);
    }
  }

  lemma DifferentBit(v: bv32, w: bv32) returns (j: Pin)
    requires v != w
    ensures Has(v, j) != Has(w, j)
  {
    var x := v ^ w;
    assert x != 0;
    assert x >> 32 == 0;
    j := FindBit(x, 32);
    XorBit(v, w, j);
  }

  /** Two words with the same bits are the same word. */
  lemma SameBits(v: bv32, w: bv32)
    requires forall i: Pin :: Has(v, i) <==> Has(w, i)
    ensures v == w
  {
    if v != w {
      var j := DifferentBit(v, w);
    }
  }

  /** A word as the set of its bit positions. */
  ghost function Bits(w: bv32): iset<Pin> {
    iset j: Pin | Has(w, j)
  }

  lemma ZeroBits()
    ensures Bits(0) == iset{}
  {
    forall j: Pin ensures j !in Bits(0) {
      ZeroHasNone(j);
    }
  }

  lemma BitBits(i: Pin)
    ensures Bits(Bit(i)) == iset{i}
  {
    forall j: Pin ensures j in Bits(Bit(i)) <==> j == i {
      BitHas(i, j);
    }
  }

  lemma OrBits(v: bv32, w: bv32)
    ensures Bits(Or(v, w)) == Bits(v) + Bits(w)
  {
    forall j: Pin ensures j in Bits(Or(v, w)) <==> j in Bits(v) || j in Bits(w) {
      OrHas(v, w, j);
    }
  }

  lemma AndNotBits(v: bv32, w: bv32)
    ensures Bits(AndNot(v, w)) == Bits(v) - Bits(w)
  {
    forall j: Pin ensures j in Bits(AndNot(v, w)) <==> j in Bits(v) && j !in Bits(w) {
      AndNotHas(v, w, j);
    }
  }

  lemma OrBit(w: bv32, i: Pin)
    ensures Bits(Or(w, Bit(i))) == Bits(w) + iset{i}
  {
    hide Bits, Bit, Or;
    OrBits(w, Bit(i));
    BitBits(i);
  }

  lemma TestBits(w: bv32, i: Pin)
    ensures And(w, Bit(i)) != 0 <==> i in Bits(w)
  {
    hide And, Bit;
    MaskTest(w, i);
  }

  lemma BitsDetermine(v: bv32, w: bv32)
    ensures v == w <==> Bits(v) == Bits(w)
  {
    if Bits(v) == Bits(w) {
      forall j: Pin ensures Has(v, j) <==> Has(w, j) {
        assert Has(v, j) <==> j in Bits(v);
      }
      SameBits(v, w);
    }
  }
}
