/** Fixed-width little-endian integers in byte sequences, and the file checksum over them. */
module LittleEndian {
  import opened Utf8
  import Crc32

  const TWO16: nat := 0x1_0000
  const TWO32: nat := 0x1_0000_0000
  const TWO64: nat := 0x1_0000_0000_0000_0000

  type u32 = x: nat | x < TWO32
  type u64 = x: nat | x < TWO64

  /** 64-bit unsigned arithmetic, which wraps around. */
  function Plus(a: u64, b: u64): u64 {
    (a + b) % TWO64
  }

  function Minus(a: u64, b: u64): u64 {
    (a - b) % TWO64
  }

  function Times4(a: u64): u64 {
    (a * 4) % TWO64
  }

  function Pow256(n: nat): (p: nat)
    ensures p > 0
  {
    if n == 0 then 1 else 256 * Pow256(n - 1)
  }

  lemma Widths()
    ensures Pow256(2) == TWO16 && Pow256(4) == TWO32 && Pow256(8) == TWO64
  {
    assert Pow256(0) == 1 && Pow256(1) == 256 && Pow256(3) == 0x100_0000;
    assert Pow256(5) == 0x100_0000_0000 && Pow256(6) == 0x1_0000_0000_0000 && Pow256(7) == 0x100_0000_0000_0000;
  }

  function ReadLe(s: seq<u8>, at: nat, n: nat): (v: nat)
    requires at + n <= |s|
    ensures v < Pow256(n)
    decreases n
  {
    if n == 0 then 0 else s[at] + 256 * ReadLe(s, at + 1, n - 1)
  }

  function WriteLe(v: nat, n: nat): (s: seq<u8>)
    ensures |s| == n
    decreases n
  {
    if n == 0 then [] else [v % 256] + WriteLe(v / 256, n - 1)
  }

  /** Byte i holds the digit of value 256 to the power i: the least significant byte comes first. */
  lemma {:induction false} WriteLeAt(v: nat, n: nat, i: nat)
    requires i < n
    ensures WriteLe(v, n)[i] == v / Pow256(i) % 256
    decreases n
  {
    if i > 0 {
      WriteLeAt(v / 256, n - 1, i - 1);
      DivTwice(v, Pow256(i - 1));
    }
  }

  lemma DivTwice(v: nat, d: nat)
    requires d > 0
    ensures v / 256 / d == v / (256 * d)
  {
    var q, r := v / 256 / d, v / 256 % d;
    var low := v % 256;
    assert v == 256 * (q * d + r) + low;
    assert v == q * (256 * d) + (256 * r + low) && 0 <= 256 * r + low < 256 * d by {
      assert 256 * r <= 256 * (d - 1);
    }
    Quotient(v, 256 * d, q, 256 * r + low);
  }

  lemma Quotient(v: nat, d: nat, q: nat, r: nat)
    requires v == q * d + r && r < d
    ensures v / d == q
  {
    var p := v / d;
    assert v == p * d + v % d;
    assert p < q ==> (p + 1) * d <= q * d;
    assert p > q ==> (q + 1) * d <= p * d;
  }

  lemma {:induction false} ReadOfWrite(v: nat, n: nat, before: seq<u8>, after: seq<u8>)
    requires v < Pow256(n)
    ensures ReadLe(before + WriteLe(v, n) + after, |before|, n) == v
    decreases n
  {
    if n > 0 {
      var s := before + WriteLe(v, n) + after;
      ReadOfWrite(v / 256, n - 1, before + [v % 256], after);
      assert s == (before + [v % 256]) + WriteLe(v / 256, n - 1) + after;
    }
  }

  lemma {:induction false} WriteOfRead(s: seq<u8>, at: nat, n: nat)
    requires at + n <= |s|
    ensures WriteLe(ReadLe(s, at, n), n) == s[at..at + n]
    decreases n
  {
    if n > 0 {
      WriteOfRead(s, at + 1, n - 1);
      assert s[at..at + n] == [s[at]] + s[at + 1..at + n];
      DigitOut(s[at], ReadLe(s, at + 1, n - 1));
    }
  }

  lemma DigitOut(d: u8, r: nat)
    ensures (d + 256 * r) % 256 == d && (d + 256 * r) / 256 == r
  {
  }

  function Checksum(s: seq<u8>): u32 {
    Crc32.Update(0, seq(|s|, i requires 0 <= i < |s| => s[i] as Crc32.byte)) as nat
  }
}
