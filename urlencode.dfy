/**
 * The client's percent-encoder. A character of the unreserved set of
 * section 2.3 of RFC 3986 is kept; any other character is replaced, byte by
 * byte of its UTF-8 encoding, by `%` followed by the byte in upper-case
 * hexadecimal as Rust's `{:X}` writes it: without leading zeros, so a byte
 * below 0x10 gets a single digit.
 */
module UrlEncode {
  import opened Common
  import Utf8

  // ---------------------------------------------------------------------
  // The unreserved set

  /** The character at index `i` of the encoder's table. */
  function UnreservedAt(i: int): char
    requires 0 <= i < 66
  {
    if i < 26 then ('A' as int + i) as char
    else if i < 52 then ('a' as int + (i - 26)) as char
    else if i < 62 then ('0' as int + (i - 52)) as char
    else if i == 62 then '-' else if i == 63 then '.' else if i == 64 then '_' else '~'
  }

  /** The encoder's table of the 66 characters it keeps. */
  function UnreservedCharacters(): (t: seq<char>)
    ensures |t| == 66
  {
    seq(66, i requires 0 <= i < 66 => UnreservedAt(i))
  }

  /** The table holds, row by row, the characters the source lists. */
  lemma UnreservedRows()
    ensures UnreservedCharacters()[..14] == ['A', 'B', 'C', 'D', 'E', 'F', 'G', 'H', 'I', 'J', 'K', 'L', 'M', 'N']
    ensures UnreservedCharacters()[14..28] == ['O', 'P', 'Q', 'R', 'S', 'T', 'U', 'V', 'W', 'X', 'Y', 'Z', 'a', 'b']
    ensures UnreservedCharacters()[28..42] == ['c', 'd', 'e', 'f', 'g', 'h', 'i', 'j', 'k', 'l', 'm', 'n', 'o', 'p']
    ensures UnreservedCharacters()[42..56] == ['q', 'r', 's', 't', 'u', 'v', 'w', 'x', 'y', 'z', '0', '1', '2', '3']
    ensures UnreservedCharacters()[56..] == ['4', '5', '6', '7', '8', '9', '-', '.', '_', '~']
  {
  }

  /** `unreserved = ALPHA / DIGIT / "-" / "." / "_" / "~"` (section 2.3 of
      RFC 3986, with ALPHA and DIGIT from RFC 5234). */
  predicate IsUnreserved(c: char)
  {
    ('A' <= c <= 'Z') || ('a' <= c <= 'z') || ('0' <= c <= '9')
    || c == '-' || c == '.' || c == '_' || c == '~'
  }

  /** The table is exactly the unreserved set. */
  lemma UnreservedTable(c: char)
    ensures c in UnreservedCharacters() <==> IsUnreserved(c)
  {
    var t := UnreservedCharacters();
    if c in t {
      var i :| 0 <= i < 66 && t[i] == c;
      assert c == UnreservedAt(i);
    }
    if IsUnreserved(c) {
      var i :=
        if 'A' <= c <= 'Z' then c as int - 'A' as int
        else if 'a' <= c <= 'z' then c as int - 'a' as int + 26
        else if '0' <= c <= '9' then c as int - '0' as int + 52
        else if c == '-' then 62 else if c == '.' then 63 else if c == '_' then 64 else 65;
      assert t[i] == c;
    }
  }

  // ---------------------------------------------------------------------
  // Hexadecimal as `{:X}` writes a byte

  predicate IsUpperHexDigit(c: char)
  {
    ('0' <= c <= '9') || ('A' <= c <= 'F')
  }

  /** The upper-case hexadecimal digit of `d`. */
  function HexDigit(d: int): (c: char)
    requires 0 <= d < 0x10
    ensures IsUpperHexDigit(c)
  {
    if d < 10 then ('0' as int + d) as char else ('A' as int + (d - 10)) as char
  }

  /** `format!("{:X}", b)` for a `u8`: the digits of `b` in base 16, most
      significant first, with no leading zero. */
  function UpperHex(b: byte): (r: string)
    ensures 1 <= |r| <= 2
    ensures |r| == 2 <==> b >= 0x10
    ensures forall i :: 0 <= i < |r| ==> IsUpperHexDigit(r[i])
    ensures r[0] == '0' ==> b == 0
  {
    if b < 0x10 then [HexDigit(b as int)]
    else [HexDigit(b as int / 0x10), HexDigit(b as int % 0x10)]
  }

  /** The value of an upper-case hexadecimal digit. */
  function HexDigitValue(c: char): (v: int)
    requires IsUpperHexDigit(c)
    ensures 0 <= v < 0x10
  {
    if c <= '9' then c as int - '0' as int else c as int - 'A' as int + 10
  }

  /** The value of a string of upper-case hexadecimal digits. */
  function HexValue(s: string): int
    requires forall i :: 0 <= i < |s| ==> IsUpperHexDigit(s[i])
  {
    if s == [] then 0 else HexValue(s[..|s| - 1]) * 0x10 + HexDigitValue(s[|s| - 1])
  }

  lemma HexDigitValueOf(d: int)
    requires 0 <= d < 0x10
    ensures HexDigitValue(HexDigit(d)) == d
  {
  }

  /** Reading the digits back gives the byte: nothing is lost or reordered. */
  lemma UpperHexValue(b: byte)
    ensures HexValue(UpperHex(b)) == b as int
  {
    var r := UpperHex(b);
    if b < 0x10 {
      HexDigitValueOf(b as int);
      assert r[..0] == [];
    } else {
      var hi, lo := b as int / 0x10, b as int % 0x10;
      HexDigitValueOf(hi);
      HexDigitValueOf(lo);
      assert r[..1] == [r[0]] && [r[0]][..0] == [];
      assert HexValue(r[..1]) == hi;
      assert HexValue(r) == hi * 0x10 + lo;
    }
  }

  // ---------------------------------------------------------------------
  // The encoding

  /** `%` and the hexadecimal digits of each byte in turn. */
  function ByteEscapes(bs: seq<byte>): string
  {
    if bs == [] then [] else ByteEscapes(bs[..|bs| - 1]) + ['%'] + UpperHex(bs[|bs| - 1])
  }

  /** `encode_char`: an unreserved character stands for itself; any other
      character becomes the escapes of its UTF-8 bytes. */
  function EncodeChar(c: char): string
  {
    if c in UnreservedCharacters() then [c] else ByteEscapes(Utf8.EncodeChar(c))
  }

  /** The strings `f` gives for the characters of `s`, joined in order. */
  function Joined(f: char -> string, s: string): string
  {
    if s == [] then [] else Joined(f, s[..|s| - 1]) + f(s[|s| - 1])
  }

  /** The encoding of a string: the encodings of its characters, in order. */
  function Encoding(s: string): string
  {
    Joined(EncodeChar, s)
  }

  // ---------------------------------------------------------------------
  // The encoder as the source writes it

  /** `encode_non_reserved_char`: for each byte, push `%`, then push its
      `{:X}` rendering. */
  method EncodeNonReservedChar(bytes: seq<byte>) returns (result: string)
    ensures result == ByteEscapes(bytes)
  {
    result := [];
    var i := 0;
    while i < |bytes|
      invariant 0 <= i <= |bytes|
      invariant result == ByteEscapes(bytes[..i])
    {
      assert bytes[..i + 1][..i] == bytes[..i];
      result := result + ['%'];
      result := result + UpperHex(bytes[i]);
      i := i + 1;
    }
    assert bytes[..|bytes|] == bytes;
  }

  /** `encode`: push the encoding of each character in turn. */
  method Encode(input: string) returns (result: string)
    ensures result == Encoding(input)
  {
    result := [];
    var i := 0;
    while i < |input|
      invariant 0 <= i <= |input|
      invariant result == Encoding(input[..i])
    {
      assert input[..i + 1][..i] == input[..i];
      result := result + EncodeChar(input[i]);
      i := i + 1;
    }
    assert input[..|input|] == input;
  }

  // ---------------------------------------------------------------------
  // Properties

  /** An unreserved character is kept; any other becomes `%`-escapes of its
      UTF-8 bytes, in order. */
  lemma EncodeCharCases(c: char)
    ensures IsUnreserved(c) ==> EncodeChar(c) == [c]
    ensures !IsUnreserved(c) ==> EncodeChar(c) == ByteEscapes(Utf8.EncodeChar(c))
  {
    UnreservedTable(c);
  }

  lemma {:induction false} ByteEscapesAppend(a: seq<byte>, b: seq<byte>)
    ensures ByteEscapes(a + b) == ByteEscapes(a) + ByteEscapes(b)
  {
    if b == [] {
      assert a + b == a;
    } else {
      var b' := b[..|b| - 1];
      assert (a + b)[..|a + b| - 1] == a + b';
      ByteEscapesAppend(a, b');
    }
  }

  /** A byte sequence of one byte is escaped as `%` and that byte's digits. */
  lemma ByteEscapesOne(x: byte)
    ensures ByteEscapes([x]) == ['%'] + UpperHex(x)
  {
    assert [x][..0] == [];
  }

  lemma {:induction false} JoinedAppend(f: char -> string, s: string, t: string)
    ensures Joined(f, s + t) == Joined(f, s) + Joined(f, t)
  {
    if t == [] {
      assert s + t == s;
    } else {
      var t' := t[..|t| - 1];
      assert (s + t)[..|s + t| - 1] == s + t';
      JoinedAppend(f, s, t');
    }
  }

  lemma JoinedOne(f: char -> string, c: char)
    ensures Joined(f, [c]) == f(c)
  {
    assert [c][..0] == [];
    assert [] + f(c) == f(c);
  }

  /** A one-character string encodes as its character does. */
  lemma EncodingOne(c: char)
    ensures Encoding([c]) == EncodeChar(c)
  {
    JoinedOne(EncodeChar, c);
  }

  /** Encoding distributes over concatenation. */
  lemma EncodingAppend(s: string, t: string)
    ensures Encoding(s + t) == Encoding(s) + Encoding(t)
  {
    JoinedAppend(EncodeChar, s, t);
  }

  /** A character the output may hold: an unreserved one, `%`, or a digit of
      an escape. */
  predicate IsOutputChar(c: char)
  {
    IsUnreserved(c) || c == '%' || IsUpperHexDigit(c)
  }

  lemma {:induction false} ByteEscapesAlphabet(bs: seq<byte>)
    ensures forall i :: 0 <= i < |ByteEscapes(bs)| ==> IsOutputChar(ByteEscapes(bs)[i])
  {
    if bs != [] {
      var p := bs[..|bs| - 1];
      ByteEscapesAlphabet(p);
      var r, h := ByteEscapes(p) + ['%'], UpperHex(bs[|bs| - 1]);
      assert ByteEscapes(bs) == r + h;
      assert forall i :: 0 <= i < |r| ==> IsOutputChar(r[i]);
    }
  }

  /** The output holds only unreserved characters, `%` and `0-9A-F`. */
  lemma {:induction false} EncodingAlphabet(s: string)
    ensures forall i :: 0 <= i < |Encoding(s)| ==> IsOutputChar(Encoding(s)[i])
  {
    if s != [] {
      var p, c := s[..|s| - 1], s[|s| - 1];
      EncodingAlphabet(p);
      EncodeCharCases(c);
      if !IsUnreserved(c) {
        ByteEscapesAlphabet(Utf8.EncodeChar(c));
      }
      var r, e := Encoding(p), EncodeChar(c);
      assert forall i :: 0 <= i < |e| ==> IsOutputChar(e[i]);
      assert Encoding(s) == r + e;
    }
  }

  /** Every byte's escape is at least two characters long. */
  lemma {:induction false} ByteEscapesLength(bs: seq<byte>)
    ensures |ByteEscapes(bs)| >= 2 * |bs|
  {
    if bs != [] {
      ByteEscapesLength(bs[..|bs| - 1]);
    }
  }

  /** One character's encoding is one character exactly when it is kept. */
  lemma EncodeCharLength(c: char)
    ensures |EncodeChar(c)| >= 1
    ensures |EncodeChar(c)| == 1 <==> IsUnreserved(c)
  {
    EncodeCharCases(c);
    if !IsUnreserved(c) {
      ByteEscapesLength(Utf8.EncodeChar(c));
    }
  }

  /** The output is at least as long as the input, and exactly as long when
      every character is unreserved. */
  lemma {:induction false} EncodingLength(s: string)
    ensures |Encoding(s)| >= |s|
    ensures |Encoding(s)| == |s| <==> forall i :: 0 <= i < |s| ==> IsUnreserved(s[i])
  {
    if s != [] {
      var p, c := s[..|s| - 1], s[|s| - 1];
      EncodingLength(p);
      EncodeCharLength(c);
      assert forall i :: 0 <= i < |p| ==> p[i] == s[i];
      if forall i :: 0 <= i < |s| ==> IsUnreserved(s[i]) {
        assert IsUnreserved(c);
      }
    }
  }

  /** A string of unreserved characters is its own encoding. */
  lemma {:induction false} EncodingUnreserved(s: string)
    requires forall i :: 0 <= i < |s| ==> IsUnreserved(s[i])
    ensures Encoding(s) == s
  {
    if s != [] {
      var p := s[..|s| - 1];
      assert forall i :: 0 <= i < |p| ==> p[i] == s[i];
      EncodingUnreserved(p);
      EncodeCharCases(s[|s| - 1]);
      assert p + [s[|s| - 1]] == s;
    }
  }

  /** The character's encoding when its code is below 0x10: `%` and a single
      digit, which section 2.1 of RFC 3986 does not allow. */
  lemma EscapeBelowSixteen(c: char)
    requires (c as int) < 0x10
    ensures EncodeChar(c) == ['%', HexDigit(c as int)]
  {
    EncodeCharCases(c);
    ByteEscapesOne(Utf8.EncodeChar(c)[0]);
  }

  /** Two different strings with the same encoding: the single-digit escape
      of U+0001 followed by `A` reads as the escape of U+001A. */
  lemma EncodingCollision()
    ensures ['\U{1}', 'A'] != ['\U{1A}']
    ensures Encoding(['\U{1}', 'A']) == Encoding(['\U{1A}']) == "%1A"
  {
    EscapeBelowSixteen('\U{1}');
    EncodeCharCases('A');
    EncodeCharCases('\U{1A}');
    ByteEscapesOne(Utf8.EncodeChar('\U{1A}')[0]);
    assert Encoding(['\U{1}', 'A']) == Encoding(['\U{1}']) + "A";
  }

  // ---------------------------------------------------------------------
  // Percent-encoding as section 2.1 of RFC 3986 writes it

  /** An octet as two upper-case hexadecimal digits. */
  function HexOctet(b: byte): (r: string)
    ensures |r| == 2 && IsUpperHexDigit(r[0]) && IsUpperHexDigit(r[1])
  {
    [HexDigit(b as int / 0x10), HexDigit(b as int % 0x10)]
  }

  /** `%` and the two digits of each byte in turn. */
  function OctetEscapes(bs: seq<byte>): string
  {
    if bs == [] then [] else OctetEscapes(bs[..|bs| - 1]) + ['%'] + HexOctet(bs[|bs| - 1])
  }

  /** `encode_char` with each byte written as two digits. */
  function PercentEncodeChar(c: char): string
  {
    if c in UnreservedCharacters() then [c] else OctetEscapes(Utf8.EncodeChar(c))
  }

  function PercentEncoding(s: string): string
  {
    Joined(PercentEncodeChar, s)
  }

  /** The octets a percent-encoded string stands for; `None` when it holds a
      character that is neither unreserved nor part of a `%HH` triplet. */
  function PercentDecode(s: string): Option<seq<byte>>
  {
    if s == [] then Some([])
    else if s[0] == '%' then
      if |s| < 3 || !IsUpperHexDigit(s[1]) || !IsUpperHexDigit(s[2]) then None
      else
        match PercentDecode(s[3..])
        case None => None
        case Some(rest) => Some([(HexDigitValue(s[1]) * 0x10 + HexDigitValue(s[2])) as byte] + rest)
    else if IsUnreserved(s[0]) then
      match PercentDecode(s[1..])
      case None => None
      case Some(rest) => Some([s[0] as int as byte] + rest)
    else None
  }

  lemma {:induction false} PercentDecodeAppend(a: string, b: string)
    requires PercentDecode(a).Some? && PercentDecode(b).Some?
    ensures PercentDecode(a + b) == Some(PercentDecode(a).value + PercentDecode(b).value)
  {
    if a == [] {
      assert a + b == b;
      assert PercentDecode(a).value + PercentDecode(b).value == PercentDecode(b).value;
    } else {
      var n := if a[0] == '%' then 3 else 1;
      var x := PercentDecode(a).value[0];
      var ra, rb := PercentDecode(a[n..]).value, PercentDecode(b).value;
      assert (a + b)[..n] == a[..n];
      assert (a + b)[n..] == a[n..] + b;
      PercentDecodeAppend(a[n..], b);
      assert PercentDecode(a).value == [x] + ra;
      var rest := PercentDecode((a + b)[n..]);
      assert rest == Some(ra + rb);
      var head := if a[0] == '%' then (HexDigitValue(a[1]) * 0x10 + HexDigitValue(a[2])) as byte else a[0] as int as byte;
      assert x == head;
      if a[0] == '%' {
        assert (a + b)[0] == '%' && (a + b)[1] == a[1] && (a + b)[2] == a[2];
      } else {
        assert (a + b)[0] == a[0];
      }
      assert PercentDecode(a + b) == Some([head] + rest.value);
      ConsAssociative(x, ra, rb);
    }
  }

  lemma ConsAssociative(x: byte, s: seq<byte>, t: seq<byte>)
    ensures ([x] + s) + t == [x] + (s + t)
  {
  }

  lemma HexOctetDecode(x: byte)
    ensures PercentDecode(['%'] + HexOctet(x)) == Some([x])
  {
    var hi, lo := x as int / 0x10, x as int % 0x10;
    HexDigitValueOf(hi);
    HexDigitValueOf(lo);
    var e := ['%'] + HexOctet(x);
    assert e[1] == HexDigit(hi) && e[2] == HexDigit(lo);
    assert hi * 0x10 + lo == x as int;
    assert e[3..] == [];
    assert PercentDecode(e[3..]) == Some([]);
    assert (HexDigitValue(e[1]) * 0x10 + HexDigitValue(e[2])) as byte == x;
    assert PercentDecode(e) == Some([x] + []);
    assert [x] + [] == [x];
    assert PercentDecode(e) == Some([x]);
  }

  lemma {:induction false} OctetEscapesDecode(bs: seq<byte>)
    ensures PercentDecode(OctetEscapes(bs)) == Some(bs)
  {
    if bs != [] {
      var p, x := bs[..|bs| - 1], bs[|bs| - 1];
      OctetEscapesDecode(p);
      HexOctetDecode(x);
      assert OctetEscapes(bs) == OctetEscapes(p) + (['%'] + HexOctet(x));
      PercentDecodeAppend(OctetEscapes(p), ['%'] + HexOctet(x));
      assert p + [x] == bs;
    }
  }

  lemma PercentEncodeCharDecode(c: char)
    ensures PercentDecode(PercentEncodeChar(c)) == Some(Utf8.EncodeChar(c))
  {
    UnreservedTable(c);
    if IsUnreserved(c) {
      assert PercentEncodeChar(c) == [c];
      assert [c][1..] == [];
      var r := Utf8.EncodeChar(c);
      assert |r| == 1 && r[0] == c as int as byte;
      assert r == [c as int as byte];
      assert PercentDecode([c]) == Some([c as int as byte] + []);
      assert [c as int as byte] + [] == r;
    } else {
      OctetEscapesDecode(Utf8.EncodeChar(c));
    }
  }

  /** Percent-decoding recovers the UTF-8 bytes of the encoded string. */
  lemma {:induction false} PercentEncodingDecode(s: string)
    ensures PercentDecode(PercentEncoding(s)) == Some(Utf8.EncodeString(s))
  {
    if s != [] {
      var p, c := s[..|s| - 1], s[|s| - 1];
      PercentEncodingDecode(p);
      PercentEncodeCharDecode(c);
      assert PercentEncoding(s) == PercentEncoding(p) + PercentEncodeChar(c);
      PercentDecodeAppend(PercentEncoding(p), PercentEncodeChar(c));
      Utf8.EncodeStringAppend(p, [c]);
      assert [c][1..] == [];
      assert Utf8.EncodeString([c]) == Utf8.EncodeChar(c) + Utf8.EncodeString([]);
      assert Utf8.EncodeChar(c) + [] == Utf8.EncodeChar(c);
      assert p + [c] == s;
      assert Utf8.EncodeString(s) == Utf8.EncodeString(p) + Utf8.EncodeChar(c);
    }
  }

  /** With two digits per byte, different strings have different encodings. */
  lemma PercentEncodingInjective(s: string, t: string)
    requires PercentEncoding(s) == PercentEncoding(t)
    ensures s == t
  {
    PercentEncodingDecode(s);
    PercentEncodingDecode(t);
    Utf8.DecodeEncodeString(s);
    Utf8.DecodeEncodeString(t);
  }

  lemma {:induction false} EscapesAgree(bs: seq<byte>)
    requires forall i :: 0 <= i < |bs| ==> bs[i] >= 0x10
    ensures ByteEscapes(bs) == OctetEscapes(bs)
  {
    if bs != [] {
      var p := bs[..|bs| - 1];
      assert forall i :: 0 <= i < |p| ==> p[i] == bs[i];
      EscapesAgree(p);
    }
  }

  lemma EncodeCharAgrees(c: char)
    requires (c as int) >= 0x10
    ensures EncodeChar(c) == PercentEncodeChar(c)
  {
    var bs := Utf8.EncodeChar(c);
    forall i | 0 <= i < |bs|
      ensures bs[i] >= 0x10
    {
      if (c as int) >= 0x80 {
        Utf8.MultiByteHighBits(c, i);
      }
    }
    EscapesAgree(bs);
  }

  /** The encoder departs from section 2.1 of RFC 3986 only on the characters
      U+0000 to U+000F: on any string without them the two encodings agree. */
  lemma {:induction false} EncodingAgrees(s: string)
    requires forall i :: 0 <= i < |s| ==> (s[i] as int) >= 0x10
    ensures Encoding(s) == PercentEncoding(s)
  {
    if s != [] {
      var p := s[..|s| - 1];
      assert forall i :: 0 <= i < |p| ==> p[i] == s[i];
      EncodingAgrees(p);
      EncodeCharAgrees(s[|s| - 1]);
    }
  }
}
