/** The installer's UTF-8 check, proved against the encoding of section 3 of RFC 3629. */
module Utf8 {

  type u8 = x: nat | x < 256

  datatype Option<T> = None | Some(value: T)

  /** The Unicode scalar values: every code point that is not a surrogate. */
  predicate IsScalar(c: nat) {
    c < 0xD800 || 0xE000 <= c <= 0x10FFFF
  }

  function Tail(c: nat): u8 {
    0x80 + c % 64
  }

  function Encode(c: nat): (s: seq<u8>)
    requires IsScalar(c)
    ensures 1 <= |s| <= 4
  {
    if c < 0x80 then [c]
    else if c < 0x800 then [0xC0 + c / 64, Tail(c)]
    else if c < 0x10000 then [0xE0 + c / 4096, Tail(c / 64), Tail(c)]
    else [0xF0 + c / 262144, Tail(c / 4096), Tail(c / 64), Tail(c)]
  }

  predicate AllScalars(cs: seq<nat>) {
    forall i :: 0 <= i < |cs| ==> IsScalar(cs[i])
  }

  function EncodeAll(cs: seq<nat>): seq<u8>
    requires AllScalars(cs)
  {
    if cs == [] then [] else Encode(cs[0]) + EncodeAll(cs[1..])
  }

  /** The concatenation of the encodings of some scalar values. */
  ghost predicate IsEncoding(s: seq<u8>) {
    exists cs: seq<nat> :: AllScalars(cs) && EncodeAll(cs) == s
  }

  // ---------------------------------------------------------------------------------------------
  // Decoding one character
  // ---------------------------------------------------------------------------------------------

  /** How many bytes the lead byte announces after itself. */
  function Extra(lead: u8): Option<nat> {
    if lead < 0x80 then Some(0)
    else if 0xC0 <= lead < 0xE0 then Some(1)
    else if 0xE0 <= lead < 0xF0 then Some(2)
    else if 0xF0 <= lead < 0xF8 then Some(3)
    else None
  }

  function Minimum(extra: nat): nat {
    if extra == 0 then 0 else if extra == 1 then 0x80 else if extra == 2 then 0x800 else 0x10000
  }

  /** The payload bits of the lead byte. */
  function LeadBits(lead: u8, extra: nat): nat {
    if extra == 0 then lead else if extra == 1 then lead % 32 else if extra == 2 then lead % 16 else lead % 8
  }

  predicate IsTail(b: u8) {
    0x80 <= b < 0xC0
  }

  /** The code accumulated over the first n bytes after the lead, if they are there and are tails. */
  function Accumulate(s: seq<u8>, code: nat, n: nat): Option<nat> {
    if n == 0 then Some(code)
    else
      var rest := Accumulate(s, code, n - 1);
      if rest.None? || n >= |s| || !IsTail(s[n]) then None else Some(rest.value * 64 + s[n] % 64)
  }

  /** The first character's code and length. */
  function First(s: seq<u8>): (r: Option<(nat, nat)>)
    requires s != []
    ensures r.Some? ==> 1 <= r.value.1 <= |s|
  {
    var extra := Extra(s[0]);
    if extra.None? then None
    else
      var code := Accumulate(s, LeadBits(s[0], extra.value), extra.value);
      if code.None? || !(extra.value == 0 || (Minimum(extra.value) <= code.value && IsScalar(code.value))) then None
      else
        AccumulateInside(s, LeadBits(s[0], extra.value), extra.value);
        Some((code.value, extra.value + 1))
  }

  lemma AccumulateInside(s: seq<u8>, code: nat, n: nat)
    ensures Accumulate(s, code, n).Some? && s != [] ==> n < |s|
  {
  }

  lemma AccumulateSteps(s: seq<u8>, code: nat)
    ensures Accumulate(s, code, 1) == if |s| > 1 && IsTail(s[1]) then Some(code * 64 + s[1] % 64) else None
    ensures Accumulate(s, code, 2) == if |s| > 2 && IsTail(s[1]) && IsTail(s[2])
                                      then Some((code * 64 + s[1] % 64) * 64 + s[2] % 64) else None
    ensures Accumulate(s, code, 3) == if |s| > 3 && IsTail(s[1]) && IsTail(s[2]) && IsTail(s[3])
                                      then Some(((code * 64 + s[1] % 64) * 64 + s[2] % 64) * 64 + s[3] % 64) else None
  {
    assert Accumulate(s, code, 0) == Some(code);
  }

  /** The base-64 digits of a code. */
  lemma Digits(c: nat)
    ensures c == c / 64 * 64 + c % 64
    ensures c / 64 == c / 4096 * 64 + c / 64 % 64
    ensures c / 4096 == c / 262144 * 64 + c / 4096 % 64
  {
  }

  lemma LeadDigit(a: nat)
    ensures a < 32 ==> (0xC0 + a) % 32 == a
    ensures a < 16 ==> (0xE0 + a) % 16 == a
    ensures a < 8 ==> (0xF0 + a) % 8 == a
  {
  }

  lemma TailDigit(a: nat)
    ensures IsTail(Tail(a)) && Tail(a) % 64 == a % 64
  {
  }

  /** Four digits put together and taken apart. */
  lemma Compose(a: nat, b: nat, c: nat, d: nat)
    requires b < 64 && c < 64 && d < 64
    ensures var n := ((a * 64 + b) * 64 + c) * 64 + d;
            n % 64 == d && n / 64 % 64 == c && n / 4096 % 64 == b && n / 262144 == a
    ensures var n := (b * 64 + c) * 64 + d;
            n % 64 == d && n / 64 % 64 == c && n / 4096 == b
    ensures var n := c * 64 + d; n % 64 == d && n / 64 == c
  {
    Carry(c, d);
    Carry(b * 64 + c, d);
    Carry(b, c);
    Carry((a * 64 + b) * 64 + c, d);
    Carry(a * 64 + b, c);
    Carry(a, b);
    DivDiv(((a * 64 + b) * 64 + c) * 64 + d);
    DivDiv((b * 64 + c) * 64 + d);
  }

  lemma Carry(x: nat, y: nat)
    requires y < 64
    ensures (x * 64 + y) / 64 == x && (x * 64 + y) % 64 == y
  {
  }

  lemma DivDiv(n: nat)
    ensures n / 64 / 64 == n / 4096 && n / 64 / 64 / 64 == n / 262144
  {
  }

  lemma FirstOfTwo(c: nat, rest: seq<u8>)
    requires 0x80 <= c < 0x800
    ensures First(Encode(c) + rest) == Some((c, 2))
  {
    var s := Encode(c) + rest;
    AccumulateSteps(s, LeadBits(s[0], 1));
    hide Accumulate, Tail, IsTail;
    Digits(c);
    TailDigit(c);
    LeadDigit(c / 64);
  }

  lemma FirstOfThree(c: nat, rest: seq<u8>)
    requires 0x800 <= c < 0x10000 && IsScalar(c)
    ensures First(Encode(c) + rest) == Some((c, 3))
  {
    var s := Encode(c) + rest;
    AccumulateSteps(s, LeadBits(s[0], 2));
    hide Accumulate, Tail, IsTail;
    Digits(c);
    TailDigit(c);
    TailDigit(c / 64);
    LeadDigit(c / 4096);
  }

  lemma FirstOfFour(c: nat, rest: seq<u8>)
    requires 0x10000 <= c && IsScalar(c)
    ensures First(Encode(c) + rest) == Some((c, 4))
  {
    var s := Encode(c) + rest;
    AccumulateSteps(s, LeadBits(s[0], 3));
    hide Accumulate, Tail, IsTail;
    Digits(c);
    TailDigit(c);
    TailDigit(c / 64);
    TailDigit(c / 4096);
    LeadDigit(c / 262144);
  }

  /** What starts with an encoded character decodes to it first. */
  lemma FirstOfEncode(c: nat, rest: seq<u8>)
    requires IsScalar(c)
    ensures First(Encode(c) + rest) == Some((c, |Encode(c)|))
  {
    if c >= 0x10000 {
      FirstOfFour(c, rest);
    } else if c >= 0x800 {
      FirstOfThree(c, rest);
    } else if c >= 0x80 {
      FirstOfTwo(c, rest);
    } else {
      assert Accumulate([c] + rest, c, 0) == Some(c);
    }
  }

  lemma EncodeTwo(l: u8, b: u8)
    requires Extra(l) == Some(1) && IsTail(b) && 0x80 <= LeadBits(l, 1) * 64 + b % 64
    ensures var c := LeadBits(l, 1) * 64 + b % 64; IsScalar(c) && Encode(c) == [l, b]
  {
    Compose(0, 0, LeadBits(l, 1), b % 64);
  }

  lemma EncodeThree(l: u8, b: u8, d: u8)
    requires Extra(l) == Some(2) && IsTail(b) && IsTail(d)
    requires var c := (LeadBits(l, 2) * 64 + b % 64) * 64 + d % 64; 0x800 <= c && IsScalar(c)
    ensures Encode((LeadBits(l, 2) * 64 + b % 64) * 64 + d % 64) == [l, b, d]
  {
    Compose(0, LeadBits(l, 2), b % 64, d % 64);
  }

  lemma EncodeFour(l: u8, b: u8, d: u8, e: u8)
    requires Extra(l) == Some(3) && IsTail(b) && IsTail(d) && IsTail(e)
    requires var c := ((LeadBits(l, 3) * 64 + b % 64) * 64 + d % 64) * 64 + e % 64; 0x10000 <= c && IsScalar(c)
    ensures Encode(((LeadBits(l, 3) * 64 + b % 64) * 64 + d % 64) * 64 + e % 64) == [l, b, d, e]
  {
    assert l == 0xF0 + LeadBits(l, 3);
    hide LeadBits, Extra;
    Compose(LeadBits(l, 3), b % 64, d % 64, e % 64);
  }

  lemma EncodeOfFirst(s: seq<u8>)
    requires s != [] && First(s).Some?
    ensures IsScalar(First(s).value.0) && Encode(First(s).value.0) == s[..First(s).value.1]
  {
    var extra := Extra(s[0]).value;
    AccumulateSteps(s, LeadBits(s[0], extra));
    hide Accumulate, LeadBits, Tail, IsTail;
    if extra == 1 {
      EncodeTwo(s[0], s[1]);
    } else if extra == 2 {
      EncodeThree(s[0], s[1], s[2]);
    } else if extra == 3 {
      EncodeFour(s[0], s[1], s[2], s[3]);
    } else {
      ShortCode(s[0]);
    }
  }

  lemma ShortCode(l: u8)
    ensures LeadBits(l, 0) == l && (l < 0x80 ==> Encode(l) == [l])
  {
  }

  // ---------------------------------------------------------------------------------------------
  // The whole text
  // ---------------------------------------------------------------------------------------------

  predicate Valid(s: seq<u8>) {
    s == [] || (First(s).Some? && Valid(s[First(s).value.1..]))
  }

  lemma EncodeAfter(c: nat, cs: seq<nat>)
    requires IsScalar(c) && AllScalars(cs)
    ensures AllScalars([c] + cs) && EncodeAll([c] + cs) == Encode(c) + EncodeAll(cs)
  {
    assert ([c] + cs)[1..] == cs;
  }

  lemma {:induction false} ValidIsEncoding(s: seq<u8>)
    requires Valid(s)
    ensures IsEncoding(s)
  {
    if s == [] {
      assert AllScalars([]) && EncodeAll([]) == s;
    } else {
      var (c, n) := First(s).value;
      EncodeOfFirst(s);
      ValidIsEncoding(s[n..]);
      hide First, Encode, Valid;
      var cs :| AllScalars(cs) && EncodeAll(cs) == s[n..];
      EncodeAfter(c, cs);
      assert s == s[..n] + s[n..];
    }
  }

  lemma {:induction false} EncodingIsValid(cs: seq<nat>)
    requires AllScalars(cs)
    ensures Valid(EncodeAll(cs))
  {
    if cs != [] {
      FirstOfEncode(cs[0], EncodeAll(cs[1..]));
      EncodingIsValid(cs[1..]);
      assert EncodeAll(cs)[|Encode(cs[0])|..] == EncodeAll(cs[1..]);
    }
  }

  lemma ValidMeans(s: seq<u8>)
    ensures Valid(s) <==> IsEncoding(s)
  {
    if Valid(s) {
      ValidIsEncoding(s);
    }
    if IsEncoding(s) {
      var cs :| AllScalars(cs) && EncodeAll(cs) == s;
      EncodingIsValid(cs);
    }
  }

  method IsValidUtf8(text: seq<u8>) returns (ok: bool)
    ensures ok <==> IsEncoding(text)
  {
    ValidMeans(text);
    hide First, IsEncoding;
    var index := 0;
    while index < |text|
      invariant 0 <= index <= |text|
      invariant Valid(text) <==> Valid(text[index..])
    {
      var first := DecodeFirst(text, index);
      if first.None? {
        return false;
      }
      assert text[index..][first.value.1..] == text[index + first.value.1..];
      index := index + first.value.1;
    }
    return true;
  }

  /** The character at the index, if there is a well-formed one. */
  method DecodeFirst(text: seq<u8>, index: nat) returns (first: Option<(nat, nat)>)
    requires index < |text|
    ensures first == First(text[index..])
  {
    ghost var s := text[index..];
    var lead := text[index];
    var announced := Extra(lead);
    if announced.None? {
      return None;
    }
    var extra, minimum := announced.value, Minimum(announced.value);
    var code: nat := LeadBits(lead, extra);
    var offset := 1;
    while offset <= extra
      invariant 1 <= offset <= extra + 1
      invariant Accumulate(s, LeadBits(lead, extra), offset - 1) == Some(code)
    {
      if index + offset >= |text| || !IsTail(text[index + offset]) {
        AccumulateStops(s, LeadBits(lead, extra), offset, extra);
        return None;
      }
      code := code * 64 + text[index + offset] % 64;
      offset := offset + 1;
    }
    if extra != 0 && (code < minimum || code > 0x10FFFF || 0xD800 <= code <= 0xDFFF) {
      return None;
    }
    return Some((code, extra + 1));
  }

  lemma {:induction false} AccumulateStops(s: seq<u8>, code: nat, k: nat, n: nat)
    requires Accumulate(s, code, k).None? && k <= n
    ensures Accumulate(s, code, n).None?
  {
    if k < n {
      AccumulateStops(s, code, k, n - 1);
    }
  }
}
