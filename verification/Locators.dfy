/** The locator codec: `source:row_key:field`, each component percent-encoded
    (sections 2.1 and 2.3 of RFC 3986) over its UTF-8 bytes. */
module Locators {
  import opened Contract
  import Text
  import opened Utf8

  const SEP: char := ':'

  // ---- percent-encoding ----

  predicate IsUnreserved(c: char) {
    'A' <= c <= 'Z' || 'a' <= c <= 'z' || '0' <= c <= '9' || c == '-' || c == '.' || c == '_' || c == '~'
  }

  predicate IsAscii(c: char) {
    c as int < 0x80
  }

  function UpperHex(n: int): char
    requires 0 <= n < 16
  {
    "0123456789ABCDEF"[n]
  }

  /** Either case of a hexadecimal digit. */
  function HexValue(c: char): (v: Option<int>)
    ensures v.Some? ==> 0 <= v.value < 16
  {
    if '0' <= c <= '9' then Some(c as int - '0' as int)
    else if 'A' <= c <= 'F' then Some(c as int - 'A' as int + 10)
    else if 'a' <= c <= 'f' then Some(c as int - 'a' as int + 10)
    else None
  }

  function QuoteByte(b: byte): string {
    if b < 0x80 && IsUnreserved(b as char) then
      [b as char]
    else
      ['%', UpperHex(b / 16), UpperHex(b % 16)]
  }

  function QuoteBytes(bytes: seq<byte>): string {
    if bytes == [] then "" else QuoteByte(bytes[0]) + QuoteBytes(bytes[1..])
  }

  function Quote(s: string): string {
    QuoteBytes(Encode(s))
  }

  predicate IsEscape(s: string) {
    |s| >= 3 && s[0] == '%' && HexValue(s[1]).Some? && HexValue(s[2]).Some?
  }

  /** A '%' that does not start an escape stands for itself. */
  function UnquoteBytes(s: string): (bytes: seq<byte>)
    requires forall c :: c in s ==> IsAscii(c)
    ensures s != "" ==> bytes != []
  {
    if s == "" then
      []
    else if IsEscape(s) then
      [16 * HexValue(s[1]).value + HexValue(s[2]).value] + UnquoteBytes(s[3..])
    else
      assert s[0] in s && IsAscii(s[0]);
      var b: byte := s[0] as int;
      [b] + UnquoteBytes(s[1..])
  }

  /** Decodes each run of ASCII on its own; other characters stand for themselves. */
  function UnquoteRuns(s: string): (r: string)
    ensures s != "" ==> r != ""
  {
    if s == "" then
      ""
    else if IsAscii(s[0]) then
      var n := Text.RunLength(s, IsAscii);
      Decode(UnquoteBytes(s[..n])) + UnquoteRuns(s[n..])
    else
      [s[0]] + UnquoteRuns(s[1..])
  }

  function Unquote(s: string): string {
    if '%' !in s then s else UnquoteRuns(s)
  }

  // ---- locators ----

  function Split(s: string): (parts: seq<string>)
    ensures parts != []
  {
    if s == "" then
      [""]
    else
      var rest := Split(s[1..]);
      if s[0] == SEP then [""] + rest else [[s[0]] + rest[0]] + rest[1..]
  }

  function MakeLocator(source: string, rowKey: RowKey, field: string): Result<string> {
    if source == "" || rowKey == "" || field == "" then
      Err(ValueError)
    else
      Ok(Quote(source) + [SEP] + Quote(rowKey) + [SEP] + Quote(field))
  }

  function ParseLocator(locator: string): Result<(string, RowKey, string)> {
    var parts := Split(locator);
    if |parts| != 3 then
      Err(ValueError)
    else
      var (source, rowKey, field) := (Unquote(parts[0]), Unquote(parts[1]), Unquote(parts[2]));
      if source == "" || rowKey == "" || field == "" then Err(ValueError) else Ok((source, rowKey, field))
  }

  // ---- percent-encoding round trip ----

  predicate IsQuoted(c: char) {
    IsUnreserved(c) || c == '%'
  }

  lemma {:induction false} QuoteBytesAlphabet(bytes: seq<byte>)
    ensures forall c :: c in QuoteBytes(bytes) ==> IsQuoted(c) && IsAscii(c) && c != SEP
  {
    if bytes != [] {
      QuoteBytesAlphabet(bytes[1..]);
    }
  }

  lemma HexRoundTrip(n: int)
    requires 0 <= n < 16
    ensures HexValue(UpperHex(n)) == Some(n)
  {
  }

  lemma UnquoteOfQuoteByte(b: byte, rest: string)
    requires forall c :: c in QuoteByte(b) + rest ==> IsAscii(c)
    ensures (forall c :: c in rest ==> IsAscii(c)) && UnquoteBytes(QuoteByte(b) + rest) == [b] + UnquoteBytes(rest)
  {
    var s := QuoteByte(b) + rest;
    if b < 0x80 && IsUnreserved(b as char) {
      assert s[0] == b as char && s[1..] == rest;
    } else {
      HexRoundTrip(b / 16);
      HexRoundTrip(b % 16);
      assert s[0] == '%' && s[1] == UpperHex(b / 16) && s[2] == UpperHex(b % 16) && s[3..] == rest;
    }
  }

  lemma {:induction false} UnquoteOfQuoteBytes(bytes: seq<byte>)
    requires forall c :: c in QuoteBytes(bytes) ==> IsAscii(c)
    ensures UnquoteBytes(QuoteBytes(bytes)) == bytes
  {
    if bytes != [] {
      QuoteBytesAlphabet(bytes[1..]);
      UnquoteOfQuoteBytes(bytes[1..]);
      UnquoteOfQuoteByte(bytes[0], QuoteBytes(bytes[1..]));
      assert bytes == [bytes[0]] + bytes[1..];
    }
  }

  lemma AsciiRunFirst(s: string) returns (n: nat)
    requires s != "" && IsAscii(s[0])
    ensures 0 < n <= |s| && forall c :: c in s[..n] ==> IsAscii(c)
    ensures UnquoteRuns(s) == Decode(UnquoteBytes(s[..n])) + UnquoteRuns(s[n..])
  {
    n := Text.RunLength(s, IsAscii);
  }

  lemma PlainParts(s: string, n: nat)
    requires '%' !in s && n <= |s|
    ensures '%' !in s[..n] && '%' !in s[n..] && s == s[..n] + s[n..]
  {
  }

  /** With no '%' in it, a string unquotes to itself either way: the early return is only faster. */
  lemma {:induction false} UnquoteRunsOfPlain(s: string)
    requires '%' !in s
    ensures UnquoteRuns(s) == s
    decreases |s|
  {
    if s != "" {
      if IsAscii(s[0]) {
        var n := AsciiRunFirst(s);
        PlainParts(s, n);
        PlainRunStays(s[..n]);
        UnquoteRunsOfPlain(s[n..]);
      } else {
        PlainParts(s, 1);
        UnquoteRunsOfPlain(s[1..]);
        assert s == [s[0]] + s[1..];
      }
    }
  }

  lemma PlainRunStays(s: string)
    requires '%' !in s && forall c :: c in s ==> IsAscii(c)
    ensures Decode(UnquoteBytes(s)) == s
  {
    UnquoteBytesOfPlain(s);
    DecodeAscii(UnquoteBytes(s));
  }

  lemma {:induction false} UnquoteBytesOfPlain(s: string)
    requires '%' !in s && forall c :: c in s ==> IsAscii(c)
    ensures |UnquoteBytes(s)| == |s|
    ensures forall i :: 0 <= i < |s| ==> UnquoteBytes(s)[i] == s[i] as int
    ensures forall b :: b in UnquoteBytes(s) ==> b < 0x80
  {
    if s != "" {
      UnquoteBytesOfPlain(s[1..]);
      assert s[0] in s && IsAscii(s[0]);
    }
  }

  lemma UnquoteIsRuns(s: string)
    ensures Unquote(s) == UnquoteRuns(s)
  {
    if '%' !in s {
      UnquoteRunsOfPlain(s);
    }
  }

  lemma UnquoteOfQuote(s: string)
    ensures Unquote(Quote(s)) == s
  {
    var q := Quote(s);
    UnquoteIsRuns(q);
    QuoteBytesAlphabet(Encode(s));
    UnquoteOfQuoteBytes(Encode(s));
    DecodeOfEncode(s);
    if q != "" {
      assert q[0] in q;
      var n := Text.RunLength(q, IsAscii);
      assert forall i :: 0 <= i < |q| ==> q[i] in q && IsAscii(q[i]);
      assert n == |q|;
      assert q[..n] == q && q[n..] == "";
    }
  }

  // ---- splitting ----

  lemma {:induction false} SplitPlain(s: string)
    requires SEP !in s
    ensures Split(s) == [s]
  {
    if s != "" {
      SplitPlain(s[1..]);
      assert s == [s[0]] + s[1..];
    }
  }

  lemma {:induction false} SplitJoined(s: string, rest: string)
    requires SEP !in s
    ensures Split(s + [SEP] + rest) == [s] + Split(rest)
  {
    var whole := s + [SEP] + rest;
    if s == "" {
      assert whole[1..] == rest;
    } else {
      assert whole[1..] == s[1..] + [SEP] + rest;
      SplitJoined(s[1..], rest);
      assert s == [s[0]] + s[1..];
    }
  }

  /** As many parts as separators, and one more. */
  lemma {:induction false} SplitCounts(s: string)
    ensures |Split(s)| == multiset(s)[SEP] + 1
  {
    if s != "" {
      SplitCounts(s[1..]);
      assert s == [s[0]] + s[1..];
    }
  }

  lemma SplitParts(a: string, b: string, c: string)
    requires SEP !in a && SEP !in b && SEP !in c
    ensures Split(a + [SEP] + b + [SEP] + c) == [a, b, c]
  {
    assert a + [SEP] + b + [SEP] + c == a + [SEP] + (b + [SEP] + c);
    SplitJoined(a, b + [SEP] + c);
    SplitJoined(b, c);
    SplitPlain(c);
  }

  lemma SplitMinted(source: string, rowKey: RowKey, field: string)
    requires MakeLocator(source, rowKey, field).Ok?
    ensures Split(MakeLocator(source, rowKey, field).value) == [Quote(source), Quote(rowKey), Quote(field)]
  {
    QuoteBytesAlphabet(Encode(source));
    QuoteBytesAlphabet(Encode(rowKey));
    QuoteBytesAlphabet(Encode(field));
    SplitParts(Quote(source), Quote(rowKey), Quote(field));
  }

  // ---- the codec's laws ----

  /** Parsing inverts minting, whatever the components hold; minting fails only on an empty one. */
  lemma RoundTrip(source: string, rowKey: RowKey, field: string)
    ensures MakeLocator(source, rowKey, field).Ok? <==> source != "" && rowKey != "" && field != ""
    ensures MakeLocator(source, rowKey, field).Ok? ==>
              ParseLocator(MakeLocator(source, rowKey, field).value) == Ok((source, rowKey, field))
  {
    if MakeLocator(source, rowKey, field).Ok? {
      SplitMinted(source, rowKey, field);
      UnquoteOfQuote(source);
      UnquoteOfQuote(rowKey);
      UnquoteOfQuote(field);
    }
  }

  lemma MintingIsInjective(a: (string, RowKey, string), b: (string, RowKey, string))
    requires MakeLocator(a.0, a.1, a.2).Ok?
    requires MakeLocator(a.0, a.1, a.2) == MakeLocator(b.0, b.1, b.2)
    ensures a == b
  {
    RoundTrip(a.0, a.1, a.2);
    RoundTrip(b.0, b.1, b.2);
  }

  /** A minted locator has exactly two separators, and otherwise only unreserved characters and '%'. */
  lemma MintedAlphabet(source: string, rowKey: RowKey, field: string)
    requires MakeLocator(source, rowKey, field).Ok?
    ensures var minted := MakeLocator(source, rowKey, field).value;
            && multiset(minted)[SEP] == 2
            && forall c :: c in minted ==> IsQuoted(c) || c == SEP
  {
    SplitMinted(source, rowKey, field);
    SplitCounts(MakeLocator(source, rowKey, field).value);
    QuoteBytesAlphabet(Encode(source));
    QuoteBytesAlphabet(Encode(rowKey));
    QuoteBytesAlphabet(Encode(field));
  }

  /** Exactly what parses: two separators and no empty part. Escapes can never empty a part. */
  lemma ParsesExactly(locator: string)
    ensures ParseLocator(locator).Ok? <==> multiset(locator)[SEP] == 2 && "" !in Split(locator)
  {
    SplitCounts(locator);
    var parts := Split(locator);
    if |parts| == 3 {
      UnquoteIsRuns(parts[0]);
      UnquoteIsRuns(parts[1]);
      UnquoteIsRuns(parts[2]);
      assert "" in parts <==> parts[0] == "" || parts[1] == "" || parts[2] == "";
    }
  }

  /** Minting again what any accepted locator parses to gives one canonical locator for the triple:
      it parses to the same triple, and two accepted locators share it only if they name one place. */
  lemma CanonicalForm(locator: string, other: string)
    requires ParseLocator(locator).Ok? && ParseLocator(other).Ok?
    ensures var (source, rowKey, field) := ParseLocator(locator).value;
            var canonical := MakeLocator(source, rowKey, field);
            var (source', rowKey', field') := ParseLocator(other).value;
            && canonical.Ok?
            && ParseLocator(canonical.value) == ParseLocator(locator)
            && (MakeLocator(source', rowKey', field') == canonical <==> ParseLocator(other) == ParseLocator(locator))
  {
    var (source, rowKey, field) := ParseLocator(locator).value;
    RoundTrip(source, rowKey, field);
    var (source', rowKey', field') := ParseLocator(other).value;
    RoundTrip(source', rowKey', field');
  }

  /** An escape that is broken is no error: it stands for itself, here in `a%zz:b:c`. */
  lemma BrokenEscapeParses()
    ensures ParseLocator("a%zz" + [SEP] + "b" + [SEP] + "c") == Ok(("a%zz", "b", "c"))
  {
    SplitParts("a%zz", "b", "c");
    BrokenEscapeStays();
  }

  lemma BrokenEscapeBytes()
    ensures UnquoteBytes("a%zz") == [0x61, 0x25, 0x7A, 0x7A]
  {
    UnquoteBytesOfPlain("zz");
    assert UnquoteBytes("zz") == [0x7A, 0x7A];
    assert "%zz"[1..] == "zz" && !IsEscape("%zz");
    assert UnquoteBytes("%zz") == [0x25] + UnquoteBytes("zz");
    assert "a%zz"[1..] == "%zz";
    assert UnquoteBytes("a%zz") == [0x61] + UnquoteBytes("%zz");
  }

  lemma BrokenEscapeStays()
    ensures Unquote("a%zz") == "a%zz"
  {
    var s := "a%zz";
    assert s[1] == '%';
    assert Text.RunLength(s, IsAscii) == 4;
    assert s[..4] == s && s[4..] == "";
    BrokenEscapeBytes();
    DecodeAscii(UnquoteBytes(s));
    assert Decode(UnquoteBytes(s)) == s;
  }

  // ---- what a locator looks like ----

  /** The unreserved characters of section 2.3 of RFC 3986. */
  lemma UnreservedExactly(c: char)
    ensures IsUnreserved(c) <==>
              || c in {'A', 'B', 'C', 'D', 'E', 'F', 'G', 'H', 'I', 'J', 'K', 'L', 'M',
                       'N', 'O', 'P', 'Q', 'R', 'S', 'T', 'U', 'V', 'W', 'X', 'Y', 'Z'}
              || c in {'a', 'b', 'c', 'd', 'e', 'f', 'g', 'h', 'i', 'j', 'k', 'l', 'm',
                       'n', 'o', 'p', 'q', 'r', 's', 't', 'u', 'v', 'w', 'x', 'y', 'z'}
              || c in {'0', '1', '2', '3', '4', '5', '6', '7', '8', '9', '-', '.', '_', '~'}
  {
  }

  /** A hexadecimal digit is read in either case, and written in upper case. */
  lemma HexExactly(v: int, c: char)
    requires 0 <= v < 16
    ensures HexValue(c) == Some(v) <==> c == "0123456789ABCDEF"[v] || c == "0123456789abcdef"[v]
    ensures UpperHex(v) == "0123456789ABCDEF"[v]
  {
  }

  /** Unreserved characters stand for themselves. */
  lemma {:induction false} QuotePlain(s: string)
    requires forall c :: c in s ==> IsUnreserved(c)
    ensures Quote(s) == s
  {
    if s != "" {
      assert s[0] in s && IsUnreserved(s[0]) && EncodeChar(s[0]) == [s[0] as int];
      QuotePlain(s[1..]);
      var bytes := Encode(s);
      assert bytes[1..] == Encode(s[1..]);
      assert QuoteByte(bytes[0]) == [s[0]] && s == [s[0]] + s[1..];
    }
  }

  /** Any other byte is written as an escape. */
  lemma QuoteEscapes(b: byte)
    requires b >= 0x80 || !IsUnreserved(b as char)
    ensures var q := QuoteByte(b);
            |q| == 3 && q[0] == '%' && q[1] == "0123456789ABCDEF"[b / 16] && q[2] == "0123456789ABCDEF"[b % 16]
  {
  }

  /** A locator of plain components is these components, separated, the source first and the field last. */
  lemma MintedPlain(source: string, rowKey: RowKey, field: string)
    requires source != "" && rowKey != "" && field != ""
    requires forall c :: c in source + rowKey + field ==> IsUnreserved(c)
    ensures MakeLocator(source, rowKey, field) == Ok(source + ":" + rowKey + ":" + field)
  {
    assert forall c :: c in source || c in rowKey || c in field ==> c in source + rowKey + field;
    QuotePlain(source);
    QuotePlain(rowKey);
    QuotePlain(field);
  }

  /** An escape, in either case, reads as its byte, whatever follows; a character that starts no escape as
      its own. */
  lemma EscapeReads(h: char, l: char, rest: string)
    requires HexValue(h).Some? && HexValue(l).Some? && forall c :: c in ['%', h, l] + rest ==> IsAscii(c)
    ensures forall c :: c in rest ==> IsAscii(c)
    ensures UnquoteBytes(['%', h, l] + rest) ==
            [16 * HexValue(h).value + HexValue(l).value] + UnquoteBytes(rest)
  {
    var s := ['%', h, l] + rest;
    assert s[0] == '%' && s[1] == h && s[2] == l && s[3..] == rest;
  }
}
