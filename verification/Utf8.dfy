/** UTF-8 (section 3 of RFC 3629), with the decoder that replaces ill-formed input by U+FFFD. */
module Utf8 {

  type byte = n: int | 0 <= n < 256

  const REPLACEMENT: char := '\U{FFFD}'

  function EncodeChar(c: char): (bytes: seq<byte>)
    ensures 1 <= |bytes| <= 4
  {
    var n := c as int;
    if n < 0x80 then
      [n]
    else if n < 0x800 then
      [0xC0 + n / 0x40, 0x80 + n % 0x40]
    else if n < 0x1_0000 then
      [0xE0 + n / 0x1000, 0x80 + n / 0x40 % 0x40, 0x80 + n % 0x40]
    else
      [0xF0 + n / 0x4_0000, 0x80 + n / 0x1000 % 0x40, 0x80 + n / 0x40 % 0x40, 0x80 + n % 0x40]
  }

  function Encode(s: string): seq<byte> {
    if s == "" then [] else EncodeChar(s[0]) + Encode(s[1..])
  }

  predicate IsTail(b: byte) {
    0x80 <= b < 0xC0
  }

  /** The second byte also excludes overlong forms, surrogates and code points past U+10FFFF. */
  predicate IsSecond(lead: byte, b: byte) {
    && IsTail(b)
    && (lead == 0xE0 ==> 0xA0 <= b)
    && (lead == 0xED ==> b < 0xA0)
    && (lead == 0xF0 ==> 0x90 <= b)
    && (lead == 0xF4 ==> b < 0x90)
  }

  function Join2(a: int, b: int): int {
    (a - 0xC0) * 0x40 + (b - 0x80)
  }

  function Join3(a: int, b: int, c: int): int {
    (a - 0xE0) * 0x1000 + (b - 0x80) * 0x40 + (c - 0x80)
  }

  function Join4(a: int, b: int, c: int, d: int): int {
    (a - 0xF0) * 0x4_0000 + (b - 0x80) * 0x1000 + (c - 0x80) * 0x40 + (d - 0x80)
  }

  /** The first character of `bytes` and how many bytes it takes. Ill-formed input gives a
      replacement character for the longest start of `bytes` that could still have become one. */
  function DecodeOne(bytes: seq<byte>): (r: (char, nat))
    requires bytes != []
    ensures 1 <= r.1 <= |bytes|
  {
    var lead := bytes[0];
    if lead < 0x80 then
      (lead as char, 1)
    else if lead < 0xC2 || 0xF5 <= lead || |bytes| == 1 || !IsSecond(lead, bytes[1]) then
      (REPLACEMENT, 1)
    else if lead < 0xE0 then
      (Join2(lead, bytes[1]) as char, 2)
    else if |bytes| == 2 || !IsTail(bytes[2]) then
      (REPLACEMENT, 2)
    else if lead < 0xF0 then
      (Join3(lead, bytes[1], bytes[2]) as char, 3)
    else if |bytes| == 3 || !IsTail(bytes[3]) then
      (REPLACEMENT, 3)
    else
      (Join4(lead, bytes[1], bytes[2], bytes[3]) as char, 4)
  }

  function Decode(bytes: seq<byte>): string {
    if bytes == [] then
      ""
    else
      var (c, n) := DecodeOne(bytes);
      [c] + Decode(bytes[n..])
  }

  lemma DecodeOneOfEncoded(c: char, rest: seq<byte>)
    ensures DecodeOne(EncodeChar(c) + rest) == (c, |EncodeChar(c)|)
  {
    var n, code := c as int, EncodeChar(c);
    var bytes := code + rest;
    assert forall i :: 0 <= i < |code| ==> bytes[i] == code[i];
    if n < 0x80 {
    } else if n < 0x800 {
      assert Join2(code[0], code[1]) == n;
    } else if n < 0x1_0000 {
      Digits3(n);
    } else {
      Digits4(n);
    }
  }

  lemma Digits3(n: int)
    requires 0x800 <= n < 0x1_0000 && !(0xD800 <= n < 0xE000)
    ensures var (a, b, c) := (0xE0 + n / 0x1000, 0x80 + n / 0x40 % 0x40, 0x80 + n % 0x40);
            Join3(a, b, c) == n && a < 0xF0 && IsSecond(a, b) && IsTail(c)
  {
    assert n / 0x1000 == n / 0x40 / 0x40;
  }

  lemma Digits4(n: int)
    requires 0x1_0000 <= n < 0x11_0000
    ensures var (a, b, c, d) :=
              (0xF0 + n / 0x4_0000, 0x80 + n / 0x1000 % 0x40, 0x80 + n / 0x40 % 0x40, 0x80 + n % 0x40);
            Join4(a, b, c, d) == n && a < 0xF5 && IsSecond(a, b) && IsTail(c) && IsTail(d)
  {
    assert n / 0x1000 == n / 0x40 / 0x40;
    assert n / 0x4_0000 == n / 0x1000 / 0x40;
  }

  /** Decoding undoes encoding, for every text. */
  lemma {:induction false} DecodeOfEncode(s: string)
    ensures Decode(Encode(s)) == s
  {
    if s != "" {
      var bytes := Encode(s);
      DecodeOneOfEncoded(s[0], Encode(s[1..]));
      assert bytes[|EncodeChar(s[0])|..] == Encode(s[1..]);
      DecodeOfEncode(s[1..]);
      assert s == [s[0]] + s[1..];
    }
  }

  /** What is not replaced is the one encoding of a character: no overlong form, no surrogate. */
  lemma DecodeOneIsEncoded(bytes: seq<byte>)
    requires bytes != [] && DecodeOne(bytes).0 != REPLACEMENT
    ensures EncodeChar(DecodeOne(bytes).0) == bytes[..DecodeOne(bytes).1]
  {
    var (c, n) := DecodeOne(bytes);
    if n == 2 {
      assert Join2(bytes[0], bytes[1]) == c as int;
      assert EncodeChar(c) == [bytes[0], bytes[1]];
    } else if n == 3 {
      Split3(bytes[0], bytes[1], bytes[2]);
    } else if n == 4 {
      Split4(bytes[0], bytes[1], bytes[2], bytes[3]);
    }
  }

  lemma Split3(a: byte, b: byte, c: byte)
    requires 0xE0 <= a < 0xF0 && IsSecond(a, b) && IsTail(c)
    ensures var n := Join3(a, b, c);
            0x800 <= n < 0x1_0000 && n / 0x1000 == a - 0xE0 && n / 0x40 % 0x40 == b - 0x80 && n % 0x40 == c - 0x80
  {
    var n: int := Join3(a, b, c);
    var (x: int, y: int, z: int) := (a - 0xE0, b - 0x80, c - 0x80);
    assert n == (x * 0x40 + y) * 0x40 + z;
    assert n / 0x40 == x * 0x40 + y;
  }

  lemma Split4(a: byte, b: byte, c: byte, d: byte)
    requires 0xF0 <= a < 0xF5 && IsSecond(a, b) && IsTail(c) && IsTail(d)
    ensures var n := Join4(a, b, c, d);
            && 0x1_0000 <= n < 0x11_0000
            && n / 0x4_0000 == a - 0xF0 && n / 0x1000 % 0x40 == b - 0x80
            && n / 0x40 % 0x40 == c - 0x80 && n % 0x40 == d - 0x80
  {
    var n: int := Join4(a, b, c, d);
    var (x: int, y: int, z: int, w: int) := (a - 0xF0, b - 0x80, c - 0x80, d - 0x80);
    assert n == ((x * 0x40 + y) * 0x40 + z) * 0x40 + w;
    assert n / 0x40 == (x * 0x40 + y) * 0x40 + z;
    assert n / 0x1000 == x * 0x40 + y;
  }

  /** Text of ASCII bytes is the bytes themselves. */
  lemma {:induction false} DecodeAscii(bytes: seq<byte>)
    requires forall b :: b in bytes ==> b < 0x80
    ensures |Decode(bytes)| == |bytes|
    ensures forall i :: 0 <= i < |bytes| ==> Decode(bytes)[i] == bytes[i] as char
  {
    if bytes != [] {
      assert bytes[0] in bytes;
      assert forall b :: b in bytes[1..] ==> b in bytes;
      DecodeAscii(bytes[1..]);
    }
  }

  // ---- ill-formed input ----

  /** The bytes are the encoding of a character, or could go on to become one. */
  ghost predicate StartsChar(bytes: seq<byte>) {
    exists c: char :: bytes <= EncodeChar(c)
  }

  /** How the bytes of a character stand. */
  lemma EncodedBytes(c: char)
    ensures var code := EncodeChar(c);
            && (|code| == 1 ==> code[0] < 0x80)
            && (|code| == 2 ==> 0xC2 <= code[0] < 0xE0 && IsSecond(code[0], code[1]))
            && (|code| == 3 ==> 0xE0 <= code[0] < 0xF0 && IsSecond(code[0], code[1]) && IsTail(code[2]))
            && (|code| == 4 ==>
                  0xF0 <= code[0] < 0xF5 && IsSecond(code[0], code[1]) && IsTail(code[2]) && IsTail(code[3]))
  {
    var n := c as int;
    if 0x800 <= n < 0x1_0000 {
      Digits3(n);
    } else if 0x1_0000 <= n {
      Digits4(n);
    }
  }

  lemma StartsThree(a: byte, b: byte)
    requires 0xE0 <= a < 0xF0 && IsSecond(a, b)
    ensures StartsChar([a, b])
  {
    Split3(a, b, 0x80);
    var c := Join3(a, b, 0x80) as char;
    assert EncodeChar(c) == [a, b, 0x80] && [a, b] == EncodeChar(c)[..2];
  }

  lemma StartsFour(a: byte, b: byte, d: byte)
    requires 0xF0 <= a < 0xF5 && IsSecond(a, b) && IsTail(d)
    ensures StartsChar([a, b]) && StartsChar([a, b, d])
  {
    Split4(a, b, d, 0x80);
    var c := Join4(a, b, d, 0x80) as char;
    assert EncodeChar(c) == [a, b, d, 0x80];
    assert [a, b] == EncodeChar(c)[..2] && [a, b, d] == EncodeChar(c)[..3];
  }

  lemma EncodedStart(bytes: seq<byte>, k: nat, c: char)
    requires 0 < k <= |bytes| && bytes[..k] <= EncodeChar(c)
    ensures forall i :: 0 <= i < k ==> bytes[i] == EncodeChar(c)[i]
  {
    assert forall i :: 0 <= i < k ==> bytes[..k][i] == bytes[i];
  }

  /** The bytes begin with the encoding of a character. */
  predicate IsWellFormed(bytes: seq<byte>)
    requires bytes != []
  {
    var lead := bytes[0];
    || lead < 0x80
    || (0xC2 <= lead < 0xE0 && |bytes| >= 2 && IsSecond(lead, bytes[1]))
    || (0xE0 <= lead < 0xF0 && |bytes| >= 3 && IsSecond(lead, bytes[1]) && IsTail(bytes[2]))
    || (0xF0 <= lead < 0xF5 && |bytes| >= 4 && IsSecond(lead, bytes[1]) && IsTail(bytes[2]) && IsTail(bytes[3]))
  }

  lemma WellFormedIsEncoded(bytes: seq<byte>)
    requires bytes != [] && IsWellFormed(bytes)
    ensures EncodeChar(DecodeOne(bytes).0) <= bytes
  {
    var (c, n) := DecodeOne(bytes);
    if n == 1 {
      assert EncodeChar(c) == [bytes[0]];
    } else if n == 2 {
      assert EncodeChar(c) == [bytes[0], bytes[1]];
    } else if n == 3 {
      Split3(bytes[0], bytes[1], bytes[2]);
      assert EncodeChar(c) == [bytes[0], bytes[1], bytes[2]];
    } else {
      Split4(bytes[0], bytes[1], bytes[2], bytes[3]);
      assert EncodeChar(c) == [bytes[0], bytes[1], bytes[2], bytes[3]];
    }
  }

  lemma NoLongerStart(bytes: seq<byte>, k: nat)
    requires bytes != [] && !IsWellFormed(bytes) && DecodeOne(bytes).1 < k <= |bytes|
    ensures !StartsChar(bytes[..k])
  {
    if StartsChar(bytes[..k]) {
      var c: char :| bytes[..k] <= EncodeChar(c);
      EncodedBytes(c);
      EncodedStart(bytes, k, c);
    }
  }

  lemma ReplacedStart(bytes: seq<byte>)
    requires bytes != [] && !IsWellFormed(bytes) && DecodeOne(bytes).1 > 1
    ensures StartsChar(bytes[..DecodeOne(bytes).1])
  {
    if DecodeOne(bytes).1 == 2 {
      assert bytes[..2] == [bytes[0], bytes[1]];
      if bytes[0] < 0xF0 {
        StartsThree(bytes[0], bytes[1]);
      } else {
        StartsFour(bytes[0], bytes[1], 0x80);
      }
    } else {
      assert bytes[..3] == [bytes[0], bytes[1], bytes[2]];
      StartsFour(bytes[0], bytes[1], bytes[2]);
    }
  }

  /** Where no character stands, one replacement is given for the longest start of the bytes that could have
      become one, or else for the first byte. */
  lemma IllFormedExactly(bytes: seq<byte>)
    requires bytes != [] && forall c: char :: !(EncodeChar(c) <= bytes)
    ensures DecodeOne(bytes).0 == REPLACEMENT
    ensures DecodeOne(bytes).1 == 1 || StartsChar(bytes[..DecodeOne(bytes).1])
    ensures forall k :: DecodeOne(bytes).1 < k <= |bytes| ==> !StartsChar(bytes[..k])
  {
    if IsWellFormed(bytes) {
      WellFormedIsEncoded(bytes);
    }
    if DecodeOne(bytes).1 > 1 {
      ReplacedStart(bytes);
    }
    forall k | DecodeOne(bytes).1 < k <= |bytes|
      ensures !StartsChar(bytes[..k])
    {
      NoLongerStart(bytes, k);
    }
  }
}
