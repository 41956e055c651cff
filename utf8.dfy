/**
 * UTF-8, as section 3 of RFC 3629 defines it: the byte sequence Rust's
 * `str::as_bytes` and `char::to_string().as_bytes()` produce for a string or
 * a character. The decoder is the encoder's partner: it inverts it.
 */
module Utf8 {
  import opened Common

  /** The number of bytes of a UTF-8 sequence, read from its first byte. */
  function SequenceLength(lead: byte): nat
  {
    if lead < 0x80 then 1 else if lead < 0xE0 then 2 else if lead < 0xF0 then 3 else 4
  }

  predicate IsContinuation(b: byte)
  {
    0x80 <= b < 0xC0
  }

  /** The UTF-8 encoding of one Unicode scalar value. */
  function EncodeChar(c: char): (r: seq<byte>)
    ensures 1 <= |r| <= 4 && SequenceLength(r[0]) == |r|
    ensures |r| == 1 <==> (c as int) < 0x80
    ensures |r| == 1 ==> r[0] as int == c as int
    ensures |r| == 2 <==> 0x80 <= (c as int) < 0x800
    ensures |r| == 3 <==> 0x800 <= (c as int) < 0x1_0000
    ensures |r| > 1 ==> 0xC0 <= r[0]
    ensures |r| == 4 ==> r[0] <= 0xF4
    ensures forall i :: 1 <= i < |r| ==> IsContinuation(r[i])
  {
    var cp := c as int;
    if cp < 0x80 then
      [cp as byte]
    else if cp < 0x800 then
      [(0xC0 + cp / 0x40) as byte, (0x80 + cp % 0x40) as byte]
    else if cp < 0x1_0000 then
      [(0xE0 + cp / 0x1000) as byte, (0x80 + cp / 0x40 % 0x40) as byte, (0x80 + cp % 0x40) as byte]
    else
      [(0xF0 + cp / 0x4_0000) as byte, (0x80 + cp / 0x1000 % 0x40) as byte,
       (0x80 + cp / 0x40 % 0x40) as byte, (0x80 + cp % 0x40) as byte]
  }

  /** Every byte of a multi-byte sequence has its high bit set. */
  lemma MultiByteHighBits(c: char, i: int)
    requires 0 <= i < |EncodeChar(c)| && (c as int) >= 0x80
    ensures EncodeChar(c)[i] >= 0x80
  {
  }

  /** The scalar value a sequence of one to four bytes carries: the low bits
      of the first byte followed by six payload bits per continuation byte. */
  function ScalarValue(bs: seq<byte>): int
    requires 1 <= |bs| <= 4
  {
    if |bs| == 1 then
      bs[0] as int
    else if |bs| == 2 then
      (bs[0] as int % 0x20) * 0x40 + bs[1] as int % 0x40
    else if |bs| == 3 then
      (bs[0] as int % 0x10) * 0x1000 + (bs[1] as int % 0x40) * 0x40 + bs[2] as int % 0x40
    else
      (bs[0] as int % 0x08) * 0x4_0000 + (bs[1] as int % 0x40) * 0x1000
        + (bs[2] as int % 0x40) * 0x40 + bs[3] as int % 0x40
  }

  lemma ScalarValueOfEncodeChar(c: char)
    ensures ScalarValue(EncodeChar(c)) == c as int
  {
    var cp := c as int;
    if cp >= 0x1_0000 {
      FourByteArithmetic(cp);
    } else if cp >= 0x800 {
      ThreeByteArithmetic(cp);
    } else if cp >= 0x80 {
      TwoByteArithmetic(cp);
    }
  }

  lemma TwoByteArithmetic(cp: int)
    requires 0x80 <= cp < 0x800
    ensures ((0xC0 + cp / 0x40) % 0x20) * 0x40 + (0x80 + cp % 0x40) % 0x40 == cp
  {
    assert (0xC0 + cp / 0x40) % 0x20 == cp / 0x40;
  }

  lemma ThreeByteArithmetic(cp: int)
    requires 0x800 <= cp < 0x1_0000
    ensures ((0xE0 + cp / 0x1000) % 0x10) * 0x1000 + ((0x80 + cp / 0x40 % 0x40) % 0x40) * 0x40
            + (0x80 + cp % 0x40) % 0x40 == cp
  {
    assert (0xE0 + cp / 0x1000) % 0x10 == cp / 0x1000;
    assert (cp / 0x40) == (cp / 0x1000) * 0x40 + cp / 0x40 % 0x40;
  }

  lemma FourByteArithmetic(cp: int)
    requires 0x1_0000 <= cp < 0x11_0000
    ensures ((0xF0 + cp / 0x4_0000) % 0x08) * 0x4_0000 + ((0x80 + cp / 0x1000 % 0x40) % 0x40) * 0x1000
            + ((0x80 + cp / 0x40 % 0x40) % 0x40) * 0x40 + (0x80 + cp % 0x40) % 0x40 == cp
  {
    assert (0xF0 + cp / 0x4_0000) % 0x08 == cp / 0x4_0000;
    assert (cp / 0x1000) == (cp / 0x4_0000) * 0x40 + cp / 0x1000 % 0x40;
    assert (cp / 0x40) == (cp / 0x1000) * 0x40 + cp / 0x40 % 0x40;
  }

  /** Decodes a byte sequence that is a concatenation of well-formed sequences;
      `None` when a sequence is cut short or names no scalar value. The decoder
      is lenient: it does not check that the bytes after a lead byte are
      continuation bytes, and it reads any byte from 0xF0 up as a four-byte
      lead. It serves as the partner of the encoder, which never produces
      such sequences. */
  function DecodeString(bs: seq<byte>): Option<string>
  {
    if bs == [] then Some([])
    else
      var n := SequenceLength(bs[0]);
      if n > |bs| then None
      else
        var cp := ScalarValue(bs[..n]);
        if !(0 <= cp < 0xD800 || 0xE000 <= cp < 0x11_0000) then None
        else
          match DecodeString(bs[n..])
          case None => None
          case Some(rest) => Some([cp as char] + rest)
  }

  /** The UTF-8 encoding of a string: the encodings of its characters, in order. */
  function EncodeString(s: string): (r: seq<byte>)
    ensures |r| >= |s|
  {
    if s == [] then [] else EncodeChar(s[0]) + EncodeString(s[1..])
  }

  lemma {:induction false} EncodeStringAppend(s: string, t: string)
    ensures EncodeString(s + t) == EncodeString(s) + EncodeString(t)
  {
    if s == [] {
      assert s + t == t;
    } else {
      assert (s + t)[1..] == s[1..] + t;
      EncodeStringAppend(s[1..], t);
    }
  }

  /** On ASCII text the encoding is the identity, character for byte. */
  lemma {:induction false} EncodeStringAscii(s: string)
    requires forall i :: 0 <= i < |s| ==> (s[i] as int) < 0x80
    ensures |EncodeString(s)| == |s|
    ensures forall i :: 0 <= i < |s| ==> EncodeString(s)[i] as int == s[i] as int
  {
    if s != [] {
      EncodeStringAscii(s[1..]);
    }
  }

  /** Decoding inverts encoding. */
  lemma {:induction false} DecodeEncodeString(s: string)
    ensures DecodeString(EncodeString(s)) == Some(s)
  {
    if s != [] {
      var head := EncodeChar(s[0]);
      var bs := EncodeString(s);
      assert bs == head + EncodeString(s[1..]);
      assert bs[..|head|] == head;
      assert bs[|head|..] == EncodeString(s[1..]);
      ScalarValueOfEncodeChar(s[0]);
      DecodeEncodeString(s[1..]);
      assert [s[0]] + s[1..] == s;
    }
  }
}
