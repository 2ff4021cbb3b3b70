/**
 The reference for CRC-32: polynomials over GF(2), as the sets of their exponents, and division by the generator
 x^32 + x^26 + x^23 + x^22 + x^16 + x^12 + x^11 + x^10 + x^8 + x^7 + x^5 + x^4 + x^2 + x + 1.
 */
module Crc32Polynomial {
  import opened Crc32

  type Poly = set<nat>

  const GENERATOR: Poly := {32, 26, 23, 22, 16, 12, 11, 10, 8, 7, 5, 4, 2, 1, 0}

  /** Addition. */
  function Add(p: Poly, q: Poly): Poly {
    (p - q) + (q - p)
  }

  /** Multiplication by x^k. */
  function Up(p: Poly, k: nat): Poly {
    set i | i in p :: i + k
  }

  /** The generator times the quotient whose coefficient of x^i is q[i]. */
  function Product(q: seq<bool>): Poly {
    if q == [] then {}
    else
      var n := |q| - 1;
      if q[n] then Add(Product(q[..n]), Up(GENERATOR, n)) else Product(q[..n])
  }

  /** The message polynomial: the first bit sent has the highest exponent. */
  function MessagePoly(bits: seq<bool>): Poly {
    if bits == [] then {}
    else
      var n := |bits| - 1;
      if bits[n] then Add(Up(MessagePoly(bits[..n]), 1), {0}) else Up(MessagePoly(bits[..n]), 1)
  }

  ghost predicate Short(p: Poly) {
    forall i :: i in p ==> i < 32
  }

  /** r is what division by the generator leaves of p. */
  ghost predicate Remainder(p: Poly, r: Poly) {
    Short(r) && exists q :: Add(p, r) == Product(q)
  }

  /** The register as a polynomial: its least significant bit is the coefficient of x^31. */
  function PolyOf(v: word): Poly {
    set j | 0 <= j < 32 && BitsOf(v, 32)[j] :: 31 - j
  }

  // ---------------------------------------------------------------------------------------------
  // Uniqueness
  // ---------------------------------------------------------------------------------------------

  lemma {:induction false} ProductDegree(q: seq<bool>)
    ensures forall i :: i in Product(q) ==> i < |q| + 32
    ensures q != [] && q[|q| - 1] ==> |q| + 31 in Product(q)
  {
    if q != [] {
      var n := |q| - 1;
      ProductDegree(q[..n]);
      if q[n] {
        assert 32 in GENERATOR;
        assert 32 + n in Up(GENERATOR, n);
      }
    }
  }

  lemma {:induction false} ShortProduct(q: seq<bool>)
    requires Short(Product(q))
    ensures Product(q) == {}
  {
    if q != [] {
      ProductDegree(q);
      ShortProduct(q[..|q| - 1]);
    }
  }

  lemma {:induction false} ProductPad(q: seq<bool>, n: nat)
    ensures Product(q + seq(n, _ => false)) == Product(q)
  {
    var z := seq(n, _ => false);
    if n == 0 {
      assert q + z == q;
    } else {
      ProductPad(q, n - 1);
      assert (q + z)[..|q| + n - 1] == q + seq(n - 1, _ => false);
    }
  }

  lemma {:induction false} ProductAdd(q: seq<bool>, r: seq<bool>)
    requires |q| == |r|
    ensures Product(XorBits(q, r)) == Add(Product(q), Product(r))
  {
    if q != [] {
      var n := |q| - 1;
      ProductAdd(q[..n], r[..n]);
      assert XorBits(q, r)[..n] == XorBits(q[..n], r[..n]);
      var a, b, g := Product(q[..n]), Product(r[..n]), Up(GENERATOR, n);
      assert Add(Add(a, g), b) == Add(Add(a, b), g) && Add(a, Add(b, g)) == Add(Add(a, b), g);
      assert Add(Add(a, g), Add(b, g)) == Add(a, b);
    }
  }

  /** What two sums have in common cancels, and only equal remainders cancel each other. */
  lemma AddCancels(p: Poly, r: Poly, s: Poly)
    ensures Add(Add(p, r), Add(p, s)) == Add(r, s)
    ensures Add(r, s) == {} <==> r == s
    ensures Short(r) && Short(s) ==> Short(Add(r, s))
  {
    if Add(r, s) == {} {
      forall i
        ensures i in r <==> i in s
      {
        assert i !in Add(r, s);
      }
    }
  }

  /** Division has one remainder. */
  lemma RemainderUnique(p: Poly, r: Poly, s: Poly)
    requires Remainder(p, r) && Remainder(p, s)
    ensures r == s
  {
    var q :| Add(p, r) == Product(q);
    var t :| Add(p, s) == Product(t);
    var a, b := q + seq(|t|, _ => false), t + seq(|q|, _ => false);
    ProductPad(q, |t|);
    ProductPad(t, |q|);
    ProductAdd(a, b);
    AddCancels(p, r, s);
    hide Product, XorBits;
    ShortProduct(XorBits(a, b));
  }

  // ---------------------------------------------------------------------------------------------
  // The register divides
  // ---------------------------------------------------------------------------------------------

  lemma {:induction false} BitsXor(a: word, b: word, n: nat)
    ensures forall j :: 0 <= j < n ==> BitsOf(Xor(a, b), n)[j] == (BitsOf(a, n)[j] != BitsOf(b, n)[j])
    decreases n
  {
    hide Xor, Half, Odd, BitsOf;
    if n > 0 {
      HalfXor(a, b);
      OddXor(a, b);
      BitsXor(Half(a), Half(b), n - 1);
      BitsFirst(a, n);
      BitsFirst(b, n);
      BitsFirst(Xor(a, b), n);
      forall j | 1 <= j < n
        ensures BitsOf(Xor(a, b), n)[j] == (BitsOf(a, n)[j] != BitsOf(b, n)[j])
      {
        assert BitsOf(a, n)[j] == BitsOf(Half(a), n - 1)[j - 1];
        assert BitsOf(b, n)[j] == BitsOf(Half(b), n - 1)[j - 1];
        assert BitsOf(Xor(a, b), n)[j] == BitsOf(Half(Xor(a, b)), n - 1)[j - 1];
      }
    }
  }

  lemma BitsFirst(v: word, n: nat)
    requires n > 0
    ensures BitsOf(v, n)[0] == Odd(v) && BitsOf(v, n)[1..] == BitsOf(Half(v), n - 1)
  {
  }

  lemma {:induction false} BitsPrefix(v: word, k: nat, n: nat)
    requires k <= n
    ensures BitsOf(v, n)[..k] == BitsOf(v, k)
    decreases k
  {
    if k > 0 {
      BitsPrefix(Half(v), k - 1, n - 1);
      BitsFirst(v, n);
      BitsFirst(v, k);
      hide Half, Odd, BitsOf;
      assert BitsOf(v, n)[..k][1..] == BitsOf(v, n)[1..][..k - 1];
    }
  }

  lemma {:induction false} HighBitsClear(w: word, k: nat, n: nat)
    requires Fits(w, Mask(k))
    ensures forall j :: k <= j < n ==> !BitsOf(w, n)[j]
    decreases n
  {
    if n > 0 {
      BitsFirst(w, n);
      if k == 0 {
        FitsNothing(w);
        HighBitsClear(Half(w), 0, n - 1);
      } else {
        HalfFits(w, Mask(k - 1));
        HighBitsClear(Half(w), k - 1, n - 1);
      }
      assert forall j :: 1 <= j < n ==> BitsOf(w, n)[j] == BitsOf(w, n)[1..][j - 1];
    }
  }

  lemma HalfIsShort(v: word)
    ensures Fits(Half(v), 0x7FFF_FFFF)
  {
  }

  lemma BitsHalf(v: word)
    ensures forall j :: 0 <= j < 32 ==> BitsOf(Half(v), 32)[j] == (j < 31 && BitsOf(v, 32)[j + 1])
  {
    BitsFirst(v, 32);
    BitsPrefix(Half(v), 31, 32);
    HalfIsShort(v);
    Mask31();
    HighBitsClear(Half(v), 31, 32);
    hide BitsOf, Half, Mask, Fits;
    forall j | 0 <= j < 31
      ensures BitsOf(Half(v), 32)[j] == BitsOf(v, 32)[j + 1]
    {
      assert BitsOf(Half(v), 32)[..31][j] == BitsOf(v, 32)[1..][j];
    }
  }

  lemma PolyXor(a: word, b: word)
    ensures PolyOf(Xor(a, b)) == Add(PolyOf(a), PolyOf(b))
  {
    BitsXor(a, b, 32);
    hide Xor, BitsOf;
    forall i: nat
      ensures i in PolyOf(Xor(a, b)) <==> i in Add(PolyOf(a), PolyOf(b))
    {
      PolyAt(a, i);
      PolyAt(b, i);
      PolyAt(Xor(a, b), i);
    }
  }

  lemma PolyAt(v: word, i: nat)
    ensures i in PolyOf(v) <==> i < 32 && BitsOf(v, 32)[31 - i]
  {
    hide BitsOf;
    if i < 32 {
      assert 31 - (31 - i) == i;
    }
  }

  lemma PolyHalfAt(v: word, i: nat)
    ensures i in PolyOf(Half(v)) <==> 0 < i < 32 && i - 1 in PolyOf(v)
  {
    BitsHalf(v);
    PolyAt(Half(v), i);
    hide Half, BitsOf, PolyOf;
    if i > 0 {
      PolyAt(v, i - 1);
    }
  }

  lemma PolyHalf(v: word)
    ensures PolyOf(Half(v)) == Up(PolyOf(v), 1) - {32}
    ensures 31 in PolyOf(v) <==> Odd(v)
  {
    BitsFirst(v, 32);
    PolyAt(v, 31);
    hide Half, BitsOf, Odd, PolyOf;
    forall i: nat
      ensures i in PolyOf(Half(v)) <==> i in Up(PolyOf(v), 1) - {32}
    {
      PolyHalfAt(v, i);
      if i > 32 && i - 1 in PolyOf(v) {
        PolyAt(v, i - 1);
      }
    }
  }

  lemma HalfTwo(v: word)
    ensures Half(v >> 1) == v >> 2
  {
  }

  lemma HalfThree(v: word)
    ensures Half(v >> 2) == v >> 3
  {
  }

  lemma HalfFour(v: word)
    ensures Half(v >> 3) == v >> 4
  {
  }

  lemma Nibble(v: word, n: nat, a: bool, b: bool, c: bool, d: bool)
    requires n >= 4 && Odd(v) == a && Odd(v >> 1) == b && Odd(v >> 2) == c && Odd(v >> 3) == d
    ensures BitsOf(v, n) == [a, b, c, d] + BitsOf(v >> 4, n - 4)
  {
    HalfTwo(v);
    HalfThree(v);
    HalfFour(v);
    BitsFirst(v, n);
    BitsFirst(v >> 1, n - 1);
    BitsFirst(v >> 2, n - 2);
    BitsFirst(v >> 3, n - 3);
    hide BitsOf, Odd;
  }

  lemma ReflectedBits()
    ensures BitsOf(REFLECTED, 32) == [
              false, false, false, false, false, true, false, false,
              true, true, false, false, false, false, false, true,
              false, false, false, true, true, true, false, true,
              true, false, true, true, false, true, true, true]
  {
    hide BitsOf;
    Nibble(0xEDB88320, 32, false, false, false, false);
    Nibble(0xEDB8832, 28, false, true, false, false);
    Nibble(0xEDB883, 24, true, true, false, false);
    Nibble(0xEDB88, 20, false, false, false, true);
    Nibble(0xEDB8, 16, false, false, false, true);
    Nibble(0xEDB, 12, true, true, false, true);
    Nibble(0xED, 8, true, false, true, true);
    Nibble(0xE, 4, false, true, true, true);
  }

  lemma PolyReflected()
    ensures PolyOf(REFLECTED) == GENERATOR - {32}
  {
    hide BitsOf, PolyOf;
    ReflectedBits();
    forall i: nat
      ensures i in PolyOf(REFLECTED) <==> i in GENERATOR - {32}
    {
      PolyAt(REFLECTED, i);
    }
  }

  function Bit31(b: bool): Poly {
    if b then {31} else {}
  }

  lemma OneBit(b: bool)
    ensures Fits(BitWord(b), Mask(1)) && (Odd(BitWord(b)) <==> b)
  {
  }

  lemma PolyBit(b: bool)
    ensures PolyOf(BitWord(b)) == Bit31(b)
  {
    BitsFirst(BitWord(b), 32);
    OneBit(b);
    HighBitsClear(BitWord(b), 1, 32);
    hide BitsOf, BitWord, PolyOf, Odd;
    forall i: nat
      ensures i in PolyOf(BitWord(b)) <==> i in Bit31(b)
    {
      PolyAt(BitWord(b), i);
    }
  }

  /** The generator, if it is subtracted in this step. */
  function Taken(c: bool): Poly {
    if c then GENERATOR else {}
  }

  /** One shift multiplies by x and subtracts the generator if that brings in x^32. */
  lemma ShiftPoly(u: word)
    ensures PolyOf(Shift(u)) == Add(Up(PolyOf(u), 1), Taken(31 in PolyOf(u)))
  {
    PolyHalf(u);
    hide PolyOf, Half, Odd, Xor;
    if Odd(u) {
      PolyXor(Half(u), REFLECTED);
      PolyReflected();
      assert 31 + 1 in Up(PolyOf(u), 1) && 32 in GENERATOR;
    } else {
      assert 32 !in Up(PolyOf(u), 1);
    }
  }

  lemma UpAdd(p: Poly, q: Poly, k: nat)
    ensures Up(Add(p, q), k) == Add(Up(p, k), Up(q, k))
  {
    forall i: nat
      ensures i in Up(Add(p, q), k) <==> i in Add(Up(p, k), Up(q, k))
    {
      UpAt(p, k, i);
      UpAt(q, k, i);
      UpAt(Add(p, q), k, i);
    }
  }

  lemma UpAt(p: Poly, k: nat, i: nat)
    ensures i in Up(p, k) <==> i >= k && i - k in p
  {
    if i >= k && i - k in p {
      assert (i - k) + k == i;
    }
  }

  lemma UpUp(p: Poly, j: nat, k: nat)
    ensures Up(Up(p, j), k) == Up(p, j + k)
  {
    forall i: nat
      ensures i in Up(Up(p, j), k) <==> i in Up(p, j + k)
    {
      UpAt(p, j + k, i);
      UpAt(Up(p, j), k, i);
      if i >= k {
        UpAt(p, j, i - k);
      }
    }
  }

  lemma {:induction false} ProductStep(c: bool, q: seq<bool>)
    ensures Product([c] + q) == Add(Up(Product(q), 1), Taken(c))
  {
    if q == [] {
      assert ([c] + q)[..0] == [] && Up(GENERATOR, 0) == GENERATOR;
    } else {
      var n := |q| - 1;
      ProductStep(c, q[..n]);
      assert ([c] + q)[..n + 1] == [c] + q[..n];
      UpAdd(Product(q[..n]), Up(GENERATOR, n), 1);
      UpUp(GENERATOR, n, 1);
      var a, g, t := Up(Product(q[..n]), 1), Up(GENERATOR, n + 1), Taken(c);
      assert Add(Add(a, t), g) == Add(Add(a, g), t);
    }
  }

  /** What the register is congruent to: its first content and the message, in their places. */
  function Target(v: word, bits: seq<bool>): Poly {
    Add(Up(PolyOf(v), |bits|), Up(MessagePoly(bits), 32))
  }

  function Bit32(b: bool): Poly {
    if b then {32} else {}
  }

  lemma TargetStep(v: word, bits: seq<bool>)
    requires bits != []
    ensures var n := |bits| - 1;
            Target(v, bits) == Add(Up(Target(v, bits[..n]), 1), Bit32(bits[n]))
  {
    var n := |bits| - 1;
    var m := MessagePoly(bits[..n]);
    hide PolyOf;
    UpAdd(Up(PolyOf(v), n), Up(m, 32), 1);
    UpUp(PolyOf(v), n, 1);
    UpUp(m, 32, 1);
    UpUp(m, 1, 32);
    UpAdd(Up(m, 1), {0}, 32);
    assert Up({0}, 32) == {32};
    var a, b := Up(PolyOf(v), n + 1), Up(m, 33);
    assert Add(a, Add(b, {32})) == Add(Add(a, b), {32}) && Add(a, b) == Add(Add(a, b), {});
  }

  /** The quotient: whether the generator was subtracted, latest step first. */
  function Quotient(v: word, bits: seq<bool>): (q: seq<bool>)
    ensures |q| == |bits|
  {
    if bits == [] then []
    else
      var n := |bits| - 1;
      [31 in PolyOf(Xor(Feed(v, bits[..n]), BitWord(bits[n])))] + Quotient(v, bits[..n])
  }

  lemma Cancel(t: Poly, u: Poly, b: Poly, g: Poly)
    ensures Add(Add(t, b), Add(Add(u, b), g)) == Add(Add(t, u), g)
  {
  }

  lemma DivideStep(t: Poly, f: Poly, b: Poly, c: bool, q: seq<bool>)
    requires Add(t, f) == Product(q)
    ensures Add(Add(Up(t, 1), Up(b, 1)), Add(Up(Add(f, b), 1), Taken(c))) == Product([c] + q)
  {
    UpAdd(f, b, 1);
    UpAdd(t, f, 1);
    ProductStep(c, q);
    Cancel(Up(t, 1), Up(f, 1), Up(b, 1), Taken(c));
  }

  lemma FeedStep(v: word, bits: seq<bool>)
    requires bits != []
    ensures var n := |bits| - 1;
            var f, b := PolyOf(Feed(v, bits[..n])), Bit31(bits[n]);
            var c := Quotient(v, bits)[0];
            && PolyOf(Feed(v, bits)) == Add(Up(Add(f, b), 1), Taken(c))
            && Quotient(v, bits) == [c] + Quotient(v, bits[..n])
  {
    var n := |bits| - 1;
    var f := Feed(v, bits[..n]);
    hide PolyOf, Xor, Shift, Up, Add, BitWord, Taken, Bit31;
    ShiftPoly(Xor(f, BitWord(bits[n])));
    PolyXor(f, BitWord(bits[n]));
    PolyBit(bits[n]);
  }

  lemma {:induction false} FeedDivides(v: word, bits: seq<bool>)
    ensures Add(Target(v, bits), PolyOf(Feed(v, bits))) == Product(Quotient(v, bits))
  {
    if bits == [] {
      assert Up(PolyOf(v), 0) == PolyOf(v);
    } else {
      hide PolyOf, Feed, Up, Add, Target, Product, Taken, Quotient;
      var n := |bits| - 1;
      FeedDivides(v, bits[..n]);
      TargetStep(v, bits);
      FeedStep(v, bits);
      UpBit(bits[n]);
      DivideStep(Target(v, bits[..n]), PolyOf(Feed(v, bits[..n])), Bit31(bits[n]), Quotient(v, bits)[0],
                 Quotient(v, bits[..n]));
    }
  }

  lemma UpBit(b: bool)
    ensures Up(Bit31(b), 1) == Bit32(b)
  {
  }

  /** Thirty-two ones, which the register starts with. */
  const ONES: Poly := set i | 0 <= i < 32

  /**
   CRC-32 as the standards define it: the message times x^32, its first 32 bits complemented, divided by the
   generator; the checksum is the complement of the remainder, most significant coefficient in the lowest bit.
   */
  lemma CrcIsRemainder(data: seq<byte>)
    ensures var bits := MessageBits(data);
            Remainder(Add(Up(ONES, |bits|), Up(MessagePoly(bits), 32)), PolyOf(Not(Update(0, data))))
  {
    var bits := MessageBits(data);
    RunIsFeed(Not(0), data);
    NotNot(Run(Not(0), data));
    FeedDivides(Not(0), bits);
    AllOnes();
    PolyIsShort(Feed(Not(0), bits));
    hide PolyOf, Feed, Run, Product, MessageBits, Not;
  }

  lemma PolyIsShort(v: word)
    ensures Short(PolyOf(v))
  {
    forall i: nat | i in PolyOf(v)
      ensures i < 32
    {
      PolyAt(v, i);
    }
  }

  lemma {:induction false} OnesBits(w: word, n: nat)
    requires n <= 32 && w == Mask(n)
    ensures forall j :: 0 <= j < n ==> BitsOf(w, n)[j]
  {
    if n > 0 {
      BitsFirst(w, n);
      MaskHalf(n);
      OnesBits(Half(w), n - 1);
      assert forall j :: 1 <= j < n ==> BitsOf(w, n)[j] == BitsOf(w, n)[1..][j - 1];
    }
  }

  lemma MaskHalf(n: nat)
    requires 0 < n <= 32
    ensures Half(Mask(n)) == Mask(n - 1) && Odd(Mask(n))
  {
    MaskGrows(n - 1, 31);
    Mask31();
    HalfOfDouble(Mask(n - 1));
  }

  lemma HalfOfDouble(m: word)
    requires Fits(m, 0x7FFF_FFFF)
    ensures Half(Xor(Double(m), 1)) == m && Odd(Xor(Double(m), 1))
  {
  }

  lemma AllOnes()
    ensures PolyOf(Not(0)) == ONES
  {
    Mask31();
    assert Mask(32) == Not(0);
    OnesBits(Not(0), 32);
    hide BitsOf, Not, PolyOf;
    forall i: nat
      ensures i in PolyOf(Not(0)) <==> i in ONES
    {
      PolyAt(Not(0), i);
    }
  }

  lemma AllFits(w: word)
    ensures Fits(w, Mask(32))
  {
    Mask31();
    assert Mask(32) == 0xFFFF_FFFF;
  }

  lemma PolyInjective(v: word, w: word)
    requires PolyOf(v) == PolyOf(w)
    ensures v == w
  {
    hide *;
    AllFits(v);
    AllFits(w);
    WordOfBits(v, 32);
    WordOfBits(w, 32);
    forall j | 0 <= j < 32
      ensures BitsOf(v, 32)[j] == BitsOf(w, 32)[j]
    {
      PolyAt(v, 31 - j);
      PolyAt(w, 31 - j);
    }
    assert BitsOf(v, 32) == BitsOf(w, 32);
  }

  lemma NotInjective(v: word, w: word)
    ensures Not(v) == Not(w) ==> v == w
  {
  }

  /** The checksum is the one word whose complement is that remainder. */
  lemma CrcIsTheRemainder(data: seq<byte>, w: word)
    ensures var bits := MessageBits(data);
            w == Update(0, data)
            <==> Remainder(Add(Up(ONES, |bits|), Up(MessagePoly(bits), 32)), PolyOf(Not(w)))
  {
    CrcIsRemainder(data);
    hide PolyOf, Not, Update, MessageBits, MessagePoly, Remainder;
    var bits := MessageBits(data);
    var p := Add(Up(ONES, |bits|), Up(MessagePoly(bits), 32));
    if Remainder(p, PolyOf(Not(w))) {
      RemainderUnique(p, PolyOf(Not(w)), PolyOf(Not(Update(0, data))));
      PolyInjective(Not(w), Not(Update(0, data)));
      NotInjective(w, Update(0, data));
    }
  }
}
