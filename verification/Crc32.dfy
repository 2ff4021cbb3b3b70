/**
 The installer's CRC-32: a table-driven loop over bytes, proved equal to a shift register fed one message bit at
 a time. Chunked updates compose, and no error burst of up to 32 bits goes unnoticed.
 */
module Crc32 {

  type byte = bv8
  type word = bv32

  const REFLECTED: word := 0xEDB8_8320

  function Xor(a: word, b: word): word {
    a ^ b
  }

  function Half(v: word): word {
    v >> 1
  }

  predicate Odd(v: word) {
    v & 1 == 1
  }

  /** One bit of the shift register, without input. */
  function Shift(v: word): word {
    if Odd(v) then Xor(Half(v), REFLECTED) else Half(v)
  }

  function Shifts(v: word, n: nat): word
    decreases n
  {
    if n == 0 then v else Shifts(Shift(v), n - 1)
  }

  function TableEntry(i: word): word {
    Shifts(i, 8)
  }

  /** The table index a byte selects. */
  function Slot(v: word, b: byte): word {
    (v ^ (b as word)) & 0xFF
  }

  function Rest(v: word): word {
    v >> 8
  }

  function Not(v: word): word {
    !v
  }

  /** One byte of the table-driven loop. */
  function Lookup(v: word, b: byte): word {
    Xor(TableEntry(Slot(v, b)), Rest(v))
  }

  function Run(v: word, data: seq<byte>): word {
    if data == [] then v else Lookup(Run(v, data[..|data| - 1]), data[|data| - 1])
  }

  function Update(crc: word, data: seq<byte>): word {
    Not(Run(Not(crc), data))
  }

  lemma SmallWord(w: word)
    requires w < 256
    ensures 0 <= w as int < 256 && (w as int) as word == w
  {
  }

  method MakeCrcTable() returns (table: array<word>)
    ensures fresh(table) && table.Length == 256
    ensures forall i :: 0 <= i < 256 ==> table[i] == TableEntry(i as word)
  {
    hide TableEntry;
    table := new word[256];
    var index := 0;
    while index < 256
      invariant 0 <= index <= 256
      invariant forall i :: 0 <= i < index ==> table[i] == TableEntry(i as word)
    {
      var value := MakeCrcEntry(index as word);
      table[index] := value;
      index := index + 1;
    }
  }

  method MakeCrcEntry(index: word) returns (value: word)
    ensures value == TableEntry(index)
  {
    hide Shift;
    value := index;
    var bit := 0;
    while bit < 8
      invariant 0 <= bit <= 8
      invariant Shifts(value, 8 - bit) == TableEntry(index)
    {
      ShiftIs(value);
      value := if value & 1 == 1 then (value >> 1) ^ REFLECTED else value >> 1;
      bit := bit + 1;
    }
  }

  lemma ShiftIs(v: word)
    ensures Shift(v) == if v & 1 == 1 then (v >> 1) ^ REFLECTED else v >> 1
  {
  }

  lemma SlotIsSmall(v: word, b: byte)
    ensures Slot(v, b) < 256
  {
  }

  method Crc32Update(table: array<word>, crc: word, data: seq<byte>) returns (r: word)
    requires table.Length == 256 && forall i :: 0 <= i < 256 ==> table[i] == TableEntry(i as word)
    ensures r == Update(crc, data)
  {
    hide TableEntry, Xor, Slot, Rest, Not;
    var value := Not(crc);
    var index := 0;
    while index < |data|
      invariant 0 <= index <= |data|
      invariant value == Run(Not(crc), data[..index])
    {
      assert data[..index + 1][..index] == data[..index];
      SlotIsSmall(value, data[index]);
      SmallWord(Slot(value, data[index]));
      value := Xor(table[Slot(value, data[index]) as int], Rest(value));
      index := index + 1;
    }
    assert data[..index] == data;
    return Not(value);
  }

  // ---------------------------------------------------------------------------------------------
  // Chunks
  // ---------------------------------------------------------------------------------------------

  lemma {:induction false} RunConcat(v: word, a: seq<byte>, b: seq<byte>)
    ensures Run(v, a + b) == Run(Run(v, a), b)
  {
    hide Lookup;
    if b == [] {
      assert a + b == a;
    } else {
      RunConcat(v, a, b[..|b| - 1]);
      assert (a + b)[..|a + b| - 1] == a + b[..|b| - 1];
    }
  }

  lemma NotNot(u: word)
    ensures Not(Not(u)) == u
  {
  }

  /** Feeding the previous result back in gives the checksum of the concatenation. */
  lemma UpdateConcat(crc: word, a: seq<byte>, b: seq<byte>)
    ensures Update(Update(crc, a), b) == Update(crc, a + b)
  {
    RunConcat(Not(crc), a, b);
    NotNot(Run(Not(crc), a));
    hide Run, Not;
  }

  // ---------------------------------------------------------------------------------------------
  // Facts about words
  // ---------------------------------------------------------------------------------------------

  lemma XorLaws(a: word, b: word, c: word)
    ensures Xor(a, b) == Xor(b, a) && Xor(a, a) == 0 && Xor(a, 0) == a
    ensures Xor(Xor(a, b), c) == Xor(a, Xor(b, c))
  {
    XorAssoc(a, b, c);
  }

  lemma XorAssoc(a: word, b: word, c: word)
    ensures Xor(Xor(a, b), c) == Xor(a, Xor(b, c))
  {
  }

  lemma HalfXor(a: word, b: word)
    ensures Half(Xor(a, b)) == Xor(Half(a), Half(b))
  {
  }

  lemma OddXor(a: word, b: word)
    ensures Odd(Xor(a, b)) <==> Odd(a) != Odd(b)
  {
  }

  lemma Rearrange(a: word, b: word, r: word)
    ensures Xor(Xor(a, r), b) == Xor(Xor(a, b), r)
    ensures Xor(a, Xor(b, r)) == Xor(Xor(a, b), r)
    ensures Xor(Xor(a, r), Xor(b, r)) == Xor(a, b)
  {
  }

  lemma ShiftXor(x: word, y: word)
    ensures Shift(Xor(x, y)) == Xor(Shift(x), Shift(y))
  {
    HalfXor(x, y);
    OddXor(x, y);
    Rearrange(Half(x), Half(y), REFLECTED);
    hide Xor, Half, Odd;
  }

  lemma ShiftInjective(x: word, y: word)
    requires Shift(x) == Shift(y)
    ensures x == y
  {
  }

  lemma {:induction false} ShiftsXor(x: word, y: word, n: nat)
    ensures Shifts(Xor(x, y), n) == Xor(Shifts(x, n), Shifts(y, n))
    decreases n
  {
    hide Xor, Shift;
    if n > 0 {
      ShiftXor(x, y);
      ShiftsXor(Shift(x), Shift(y), n - 1);
    }
  }

  lemma {:induction false} ShiftsInjective(x: word, y: word, n: nat)
    requires Shifts(x, n) == Shifts(y, n)
    ensures x == y
    decreases n
  {
    if n > 0 {
      ShiftsInjective(Shift(x), Shift(y), n - 1);
      ShiftInjective(x, y);
    }
  }

  lemma ShiftEven(v: word)
    ensures !Odd(v) ==> Shift(v) == v >> 1
  {
  }

  lemma EvenDown(v: word)
    ensures var h := v & 0xFFFF_FF00;
            && !Odd(h) && !Odd(h >> 1) && !Odd(h >> 2) && !Odd(h >> 3)
            && !Odd(h >> 4) && !Odd(h >> 5) && !Odd(h >> 6) && !Odd(h >> 7)
            && (h >> 1) >> 1 == h >> 2 && (h >> 2) >> 1 == h >> 3 && (h >> 3) >> 1 == h >> 4 && (h >> 4) >> 1 == h >> 5
            && (h >> 5) >> 1 == h >> 6 && (h >> 6) >> 1 == h >> 7 && (h >> 7) >> 1 == v >> 8
  {
  }

  lemma HighByteDown(v: word)
    ensures Shifts(v & 0xFFFF_FF00, 8) == v >> 8
  {
    var h := v & 0xFFFF_FF00;
    EvenDown(v);
    ShiftEven(h);
    ShiftEven(h >> 1);
    ShiftEven(h >> 2);
    ShiftEven(h >> 3);
    ShiftEven(h >> 4);
    ShiftEven(h >> 5);
    ShiftEven(h >> 6);
    ShiftEven(h >> 7);
    hide Shift, Odd;
  }

  lemma Bytes(v: word)
    ensures Xor(v & 0xFF, v & 0xFFFF_FF00) == v
  {
  }

  /** Eight shifts are one table lookup. */
  lemma EightShifts(v: word)
    ensures Shifts(v, 8) == Xor(TableEntry(v & 0xFF), v >> 8)
  {
    Bytes(v);
    ShiftsXor(v & 0xFF, v & 0xFFFF_FF00, 8);
    HighByteDown(v);
    hide Xor, Shifts;
  }

  // ---------------------------------------------------------------------------------------------
  // Bit by bit
  // ---------------------------------------------------------------------------------------------

  function BitWord(b: bool): word {
    if b then 1 else 0
  }

  /** The register fed one message bit after the other. */
  function Feed(v: word, bits: seq<bool>): word {
    if bits == [] then v else Shift(Xor(Feed(v, bits[..|bits| - 1]), BitWord(bits[|bits| - 1])))
  }

  /** The first n bits of a word, least significant first. */
  function BitsOf(v: word, n: nat): (bits: seq<bool>)
    ensures |bits| == n
    decreases n
  {
    if n == 0 then [] else [Odd(v)] + BitsOf(Half(v), n - 1)
  }

  function ByteBits(b: byte): (bits: seq<bool>)
    ensures |bits| == 8
  {
    BitsOf(b as word, 8)
  }

  /** A message's bits in the order they are sent: byte by byte, each from its least significant bit. */
  function MessageBits(data: seq<byte>): (bits: seq<bool>)
    ensures |bits| == 8 * |data|
  {
    if data == [] then [] else MessageBits(data[..|data| - 1]) + ByteBits(data[|data| - 1])
  }

  /** The word whose low bits these are. */
  function WordOf(bits: seq<bool>): word {
    if bits == [] then 0 else Xor(BitWord(bits[0]), Double(WordOf(bits[1..])))
  }

  function Double(v: word): word {
    v << 1
  }

  /** All ones in the low n bits. */
  function Mask(n: nat): word {
    if n == 0 then 0 else Xor(Double(Mask(n - 1)), 1)
  }

  predicate Fits(w: word, m: word) {
    w & !m == 0
  }

  lemma FitsDouble(w: word, m: word, b: bool)
    requires Fits(w, m)
    ensures Fits(Xor(BitWord(b), Double(w)), Xor(Double(m), 1))
  {
    if b {
      FitsWider(w, m);
      hide Fits, Xor, Double;
      XorLaws(1, Double(w), 0);
    } else {
      FitsShifted(w, m);
      hide Fits, Xor, Double;
      XorLaws(0, Double(w), 0);
      XorLaws(Double(w), 0, 0);
    }
  }

  lemma FitsShifted(w: word, m: word)
    requires Fits(w, m)
    ensures Fits(Double(w), Xor(Double(m), 1))
  {
  }

  lemma FitsWider(m: word, n: word)
    requires Fits(m, n)
    ensures Fits(Xor(Double(m), 1), Xor(Double(n), 1))
  {
  }

  lemma FitsTrans(w: word, m: word, n: word)
    requires Fits(w, m) && Fits(m, n)
    ensures Fits(w, n)
  {
  }

  lemma FitsSelf(m: word)
    ensures Fits(m, m) && Fits(0, m)
  {
  }

  lemma {:induction false} MaskGrows(n: nat, k: nat)
    requires n <= k
    ensures Fits(Mask(n), Mask(k))
    decreases n
  {
    hide Fits, Xor, Double;
    FitsSelf(Mask(k));
    if 0 < n {
      MaskGrows(n - 1, k - 1);
      FitsWider(Mask(n - 1), Mask(k - 1));
    }
  }

  lemma Mask31()
    ensures Mask(31) == 0x7FFF_FFFF
  {
    assert Mask(4) == 0xF;
    assert Mask(8) == 0xFF;
    assert Mask(12) == 0xFFF;
    assert Mask(16) == 0xFFFF;
    assert Mask(20) == 0xF_FFFF;
    assert Mask(24) == 0xFF_FFFF;
    assert Mask(28) == 0xFFF_FFFF;
  }

  lemma HalfDouble(w: word)
    requires Fits(w, 0x7FFF_FFFF)
    ensures Half(Double(w)) == w && !Odd(Double(w))
  {
  }

  lemma {:induction false} WordFits(bits: seq<bool>)
    ensures Fits(WordOf(bits), Mask(|bits|))
  {
    hide Fits, Xor, Double, BitWord;
    if bits == [] {
      FitsSelf(0);
    } else {
      WordFits(bits[1..]);
      FitsDouble(WordOf(bits[1..]), Mask(|bits| - 1), bits[0]);
    }
  }

  lemma ShortWord(bits: seq<bool>)
    requires |bits| <= 31
    ensures Half(Double(WordOf(bits))) == WordOf(bits) && !Odd(Double(WordOf(bits)))
  {
    WordFits(bits);
    MaskGrows(|bits|, 31);
    FitsTrans(WordOf(bits), Mask(|bits|), Mask(31));
    Mask31();
    HalfDouble(WordOf(bits));
  }

  lemma {:induction false} FeedConcat(v: word, a: seq<bool>, b: seq<bool>)
    ensures Feed(v, a + b) == Feed(Feed(v, a), b)
  {
    hide Shift, Xor, BitWord;
    if b == [] {
      assert a + b == a;
    } else {
      FeedConcat(v, a, b[..|b| - 1]);
      assert (a + b)[..|a + b| - 1] == a + b[..|b| - 1];
    }
  }

  lemma FeedFirst(v: word, bits: seq<bool>)
    requires bits != []
    ensures Feed(v, bits) == Feed(Shift(Xor(v, BitWord(bits[0]))), bits[1..])
  {
    hide Shift, Xor, BitWord;
    FeedConcat(v, bits[..1], bits[1..]);
    assert bits[..1] + bits[1..] == bits && bits[..1][..0] == [];
    assert Feed(v, bits[..1]) == Shift(Xor(Feed(v, []), BitWord(bits[0])));
  }

  /** Up to 32 bits may be put into the register at once. */
  lemma {:induction false} FeedWord(v: word, bits: seq<bool>)
    requires |bits| <= 32
    ensures Feed(v, bits) == Shifts(Xor(v, WordOf(bits)), |bits|)
    decreases |bits|
  {
    if bits == [] {
      XorLaws(v, 0, 0);
    } else {
      var u, d := Xor(v, BitWord(bits[0])), Double(WordOf(bits[1..]));
      FeedFirst(v, bits);
      FeedWord(Shift(u), bits[1..]);
      ShortWord(bits[1..]);
      ShiftEven(d);
      ShiftXor(u, d);
      XorLaws(v, BitWord(bits[0]), d);
      hide Xor, Shift, Double, BitWord, Odd;
    }
  }

  lemma HalfFits(w: word, m: word)
    requires Fits(w, Xor(Double(m), 1))
    ensures Fits(Half(w), m) && Xor(BitWord(Odd(w)), Double(Half(w))) == w
  {
  }

  lemma {:induction false} WordOfBits(w: word, n: nat)
    requires Fits(w, Mask(n))
    ensures WordOf(BitsOf(w, n)) == w
    decreases n
  {
    if n == 0 {
      FitsNothing(w);
    } else {
      HalfFits(w, Mask(n - 1));
      WordOfBits(Half(w), n - 1);
      assert BitsOf(w, n)[1..] == BitsOf(Half(w), n - 1);
      hide Xor, Double, Half, Odd, BitWord, Fits;
    }
  }

  lemma FitsNothing(w: word)
    requires Fits(w, 0)
    ensures w == 0
  {
  }

  lemma ByteFits(b: byte)
    ensures Fits(b as word, 0xFF) && Mask(8) == 0xFF
  {
  }

  lemma ByteWord(b: byte)
    ensures WordOf(ByteBits(b)) == b as word
  {
    ByteFits(b);
    WordOfBits(b as word, 8);
  }

  lemma ByteStep(v: word, b: byte)
    ensures Lookup(v, b) == Feed(v, ByteBits(b))
  {
    FeedWord(v, ByteBits(b));
    ByteWord(b);
    EightShifts(Xor(v, b as word));
    HighUntouched(v, b);
    hide Xor, Shifts, ByteBits, TableEntry, Feed, WordOf, Rest;
  }

  lemma HighUntouched(v: word, b: byte)
    ensures Xor(v, b as word) >> 8 == Rest(v) && Xor(v, b as word) & 0xFF == Slot(v, b)
  {
  }

  /** The table-driven loop is the bit-serial register. */
  lemma {:induction false} RunIsFeed(v: word, data: seq<byte>)
    ensures Run(v, data) == Feed(v, MessageBits(data))
  {
    hide Lookup, ByteBits;
    if data != [] {
      RunIsFeed(v, data[..|data| - 1]);
      ByteStep(Run(v, data[..|data| - 1]), data[|data| - 1]);
      FeedConcat(v, MessageBits(data[..|data| - 1]), ByteBits(data[|data| - 1]));
    }
  }

  // ---------------------------------------------------------------------------------------------
  // Burst errors
  // ---------------------------------------------------------------------------------------------

  function XorBits(a: seq<bool>, b: seq<bool>): (r: seq<bool>)
    requires |a| == |b|
    ensures |r| == |a|
  {
    seq(|a|, i requires 0 <= i < |a| => a[i] != b[i])
  }

  lemma BitWordXor(a: bool, b: bool)
    ensures BitWord(a != b) == Xor(BitWord(a), BitWord(b))
  {
  }

  lemma Mix(v: word, w: word, a: word, b: word)
    ensures Xor(Xor(v, w), Xor(a, b)) == Xor(Xor(v, a), Xor(w, b))
  {
    XorLaws(w, a, b);
    XorLaws(a, w, b);
    XorLaws(v, w, Xor(a, b));
    XorLaws(v, a, Xor(w, b));
    hide Xor;
  }

  lemma {:induction false} FeedXor(v: word, w: word, a: seq<bool>, b: seq<bool>)
    requires |a| == |b|
    ensures Feed(Xor(v, w), XorBits(a, b)) == Xor(Feed(v, a), Feed(w, b))
  {
    if a != [] {
      var n := |a| - 1;
      FeedXor(v, w, a[..n], b[..n]);
      assert XorBits(a, b)[..n] == XorBits(a[..n], b[..n]);
      BitWordXor(a[n], b[n]);
      Mix(Feed(v, a[..n]), Feed(w, b[..n]), BitWord(a[n]), BitWord(b[n]));
      ShiftXor(Xor(Feed(v, a[..n]), BitWord(a[n])), Xor(Feed(w, b[..n]), BitWord(b[n])));
      hide Xor, Shift, BitWord;
    }
  }

  lemma {:induction false} FeedZeros(v: word, bits: seq<bool>)
    requires forall i :: 0 <= i < |bits| ==> !bits[i]
    ensures Feed(v, bits) == Shifts(v, |bits|)
    decreases |bits|
  {
    if bits != [] {
      FeedFirst(v, bits);
      FeedZeros(Shift(Xor(v, BitWord(bits[0]))), bits[1..]);
      XorLaws(v, 0, 0);
      hide Xor, Shift;
    }
  }

  lemma {:induction false} ShiftsZero(n: nat)
    ensures Shifts(0, n) == 0
    decreases n
  {
    if n > 0 {
      ShiftsZero(n - 1);
    }
  }

  lemma ZeroParts(b: bool, w: word)
    requires Fits(w, 0x7FFF_FFFF) && Xor(BitWord(b), Double(w)) == 0
    ensures !b && w == 0
  {
  }

  lemma {:induction false} WordZero(bits: seq<bool>)
    requires |bits| <= 32 && WordOf(bits) == 0
    ensures forall i :: 0 <= i < |bits| ==> !bits[i]
  {
    if bits != [] {
      WordFits(bits[1..]);
      MaskGrows(|bits| - 1, 31);
      FitsTrans(WordOf(bits[1..]), Mask(|bits| - 1), Mask(31));
      Mask31();
      ZeroParts(bits[0], WordOf(bits[1..]));
      WordZero(bits[1..]);
      assert forall i :: 1 <= i < |bits| ==> bits[i] == bits[1..][i - 1];
    }
  }

  /** A nonzero pattern within 32 bits leaves the register nonzero, however many zeros surround it. */
  lemma NonzeroBurst(d: seq<bool>, s: nat)
    requires forall i :: 0 <= i < |d| && d[i] ==> s <= i < s + 32
    requires Feed(0, d) == 0
    ensures forall i :: 0 <= i < |d| ==> !d[i]
  {
    hide Feed, Shifts, WordOf, Xor, Shift;
    var lo := if s < |d| then s else |d|;
    var hi := if s + 32 < |d| then s + 32 else |d|;
    var a, b, c := d[..lo], d[lo..hi], d[hi..];
    assert d == a + (b + c);
    FeedConcat(0, a, b + c);
    FeedZeros(0, a);
    ShiftsZero(|a|);
    FeedConcat(0, b, c);
    FeedZeros(Feed(0, b), c);
    ShiftsZero(|c|);
    ShiftsInjective(Feed(0, b), 0, |c|);
    FeedWord(0, b);
    XorLaws(WordOf(b), 0, 0);
    XorLaws(0, WordOf(b), 0);
    ShiftsZero(|b|);
    ShiftsInjective(WordOf(b), 0, |b|);
    WordZero(b);
    forall i | 0 <= i < |d|
      ensures !d[i]
    {
      if lo <= i < hi {
        assert d[i] == b[i - lo];
      }
    }
  }

  lemma SameByte(b: byte, c: byte)
    requires b as word == c as word
    ensures b == c
  {
  }

  lemma LastByte(data: seq<byte>)
    requires data != []
    ensures var n := |data| - 1;
            MessageBits(data)[..8 * n] == MessageBits(data[..n]) && MessageBits(data)[8 * n..] == ByteBits(data[n])
  {
  }

  lemma SameBits(b: byte, c: byte)
    requires ByteBits(b) == ByteBits(c)
    ensures b == c
  {
    ByteWord(b);
    ByteWord(c);
    SameByte(b, c);
  }

  lemma {:induction false} MessageBitsInjective(a: seq<byte>, b: seq<byte>)
    requires |a| == |b| && MessageBits(a) == MessageBits(b)
    ensures a == b
  {
    hide MessageBits, ByteBits;
    if a != [] {
      var n := |a| - 1;
      LastByte(a);
      LastByte(b);
      MessageBitsInjective(a[..n], b[..n]);
      SameBits(a[n], b[n]);
      assert a == a[..n] + [a[n]] && b == b[..n] + [b[n]];
    }
  }

  lemma XorSelf(a: word)
    ensures Xor(a, a) == 0
  {
  }

  lemma NotEqual(a: word, b: word)
    ensures Not(a) == Not(b) <==> a == b
  {
  }

  /** Two messages of equal length that differ only within 32 consecutive bits never share a checksum. */
  lemma BurstDetected(crc: word, a: seq<byte>, b: seq<byte>, s: nat)
    requires |a| == |b| && a != b
    requires forall i :: 0 <= i < 8 * |a| && MessageBits(a)[i] != MessageBits(b)[i] ==> s <= i < s + 32
    ensures Update(crc, a) != Update(crc, b)
  {
    hide Feed, Run, MessageBits, Xor, Not;
    if Update(crc, a) == Update(crc, b) {
      var v, p, q := Not(crc), MessageBits(a), MessageBits(b);
      RunIsFeed(v, a);
      RunIsFeed(v, b);
      NotEqual(Run(v, a), Run(v, b));
      FeedXor(v, v, p, q);
      XorSelf(v);
      XorSelf(Feed(v, p));
      NonzeroBurst(XorBits(p, q), s);
      forall i | 0 <= i < |p|
        ensures p[i] == q[i]
      {
        assert !XorBits(p, q)[i];
      }
      MessageBitsInjective(a, b);
    }
  }
}
