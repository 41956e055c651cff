/**
 * The expected encodings of the encoder's unit tests, proved about the
 * reference encoding that the encoder's loop is proved equal to. The inputs
 * are ASCII, so their UTF-8 bytes are their character codes
 * (`Utf8.EncodeStringAscii`).
 */
module Base64Vectors {
  import opened Common
  import opened Base64
  import Utf8

  /** The empty string encodes to the empty string. */
  lemma VectorEmpty()
    ensures Encoding(Utf8.EncodeString("")) == ""
  {
    assert Whole(0) == 0;
  }

  lemma Testing100Sextets()
    ensures Groups([0x54, 0x65, 0x73, 0x74, 0x69, 0x6E, 0x67, 0x31, 0x30]) + FinalSextets([0x30]) == [21, 6, 21, 51, 29, 6, 37, 46, 25, 51, 4, 48, 12, 0]
  {
  }

  lemma Testing100Chars()
    ensures Chars([21, 6, 21, 51, 29, 6, 37, 46, 25, 51, 4, 48, 12, 0]) + Padding(PaddingLength(1)) == "VGVzdGluZzEwMA=="
  {
  }

  lemma Testing100OfBytes()
    ensures Encoding([0x54, 0x65, 0x73, 0x74, 0x69, 0x6E, 0x67, 0x31, 0x30, 0x30]) == "VGVzdGluZzEwMA=="
  {
    assert [0x54, 0x65, 0x73, 0x74, 0x69, 0x6E, 0x67, 0x31, 0x30, 0x30] == [0x54, 0x65, 0x73, 0x74, 0x69, 0x6E, 0x67, 0x31, 0x30] + [0x30];
    EncodingSplit([0x54, 0x65, 0x73, 0x74, 0x69, 0x6E, 0x67, 0x31, 0x30], [0x30]);
    Testing100Sextets();
    Testing100Chars();
  }

  lemma Testing10Sextets()
    ensures Groups([0x54, 0x65, 0x73, 0x74, 0x69, 0x6E, 0x67, 0x31, 0x30]) + FinalSextets([]) == [21, 6, 21, 51, 29, 6, 37, 46, 25, 51, 4, 48]
  {
  }

  lemma Testing10Chars()
    ensures Chars([21, 6, 21, 51, 29, 6, 37, 46, 25, 51, 4, 48]) + Padding(PaddingLength(0)) == "VGVzdGluZzEw"
  {
  }

  lemma Testing10OfBytes()
    ensures Encoding([0x54, 0x65, 0x73, 0x74, 0x69, 0x6E, 0x67, 0x31, 0x30]) == "VGVzdGluZzEw"
  {
    assert [0x54, 0x65, 0x73, 0x74, 0x69, 0x6E, 0x67, 0x31, 0x30] == [0x54, 0x65, 0x73, 0x74, 0x69, 0x6E, 0x67, 0x31, 0x30] + [];
    EncodingSplit([0x54, 0x65, 0x73, 0x74, 0x69, 0x6E, 0x67, 0x31, 0x30], []);
    Testing10Sextets();
    Testing10Chars();
  }

  lemma Testing1Sextets()
    ensures Groups([0x54, 0x65, 0x73, 0x74, 0x69, 0x6E]) + FinalSextets([0x67, 0x31]) == [21, 6, 21, 51, 29, 6, 37, 46, 25, 51, 4]
  {
  }

  lemma Testing1Chars()
    ensures Chars([21, 6, 21, 51, 29, 6, 37, 46, 25, 51, 4]) + Padding(PaddingLength(2)) == "VGVzdGluZzE="
  {
  }

  lemma Testing1OfBytes()
    ensures Encoding([0x54, 0x65, 0x73, 0x74, 0x69, 0x6E, 0x67, 0x31]) == "VGVzdGluZzE="
  {
    assert [0x54, 0x65, 0x73, 0x74, 0x69, 0x6E, 0x67, 0x31] == [0x54, 0x65, 0x73, 0x74, 0x69, 0x6E] + [0x67, 0x31];
    EncodingSplit([0x54, 0x65, 0x73, 0x74, 0x69, 0x6E], [0x67, 0x31]);
    Testing1Sextets();
    Testing1Chars();
  }

  lemma TestingSextets()
    ensures Groups([0x54, 0x65, 0x73, 0x74, 0x69, 0x6E]) + FinalSextets([0x67]) == [21, 6, 21, 51, 29, 6, 37, 46, 25, 48]
  {
  }

  lemma TestingChars()
    ensures Chars([21, 6, 21, 51, 29, 6, 37, 46, 25, 48]) + Padding(PaddingLength(1)) == "VGVzdGluZw=="
  {
  }

  lemma TestingOfBytes()
    ensures Encoding([0x54, 0x65, 0x73, 0x74, 0x69, 0x6E, 0x67]) == "VGVzdGluZw=="
  {
    assert [0x54, 0x65, 0x73, 0x74, 0x69, 0x6E, 0x67] == [0x54, 0x65, 0x73, 0x74, 0x69, 0x6E] + [0x67];
    EncodingSplit([0x54, 0x65, 0x73, 0x74, 0x69, 0x6E], [0x67]);
    TestingSextets();
    TestingChars();
  }

  lemma TestinSextets()
    ensures Groups([0x54, 0x65, 0x73, 0x74, 0x69, 0x6E]) + FinalSextets([]) == [21, 6, 21, 51, 29, 6, 37, 46]
  {
  }

  lemma TestinChars()
    ensures Chars([21, 6, 21, 51, 29, 6, 37, 46]) + Padding(PaddingLength(0)) == "VGVzdGlu"
  {
  }

  lemma TestinOfBytes()
    ensures Encoding([0x54, 0x65, 0x73, 0x74, 0x69, 0x6E]) == "VGVzdGlu"
  {
    assert [0x54, 0x65, 0x73, 0x74, 0x69, 0x6E] == [0x54, 0x65, 0x73, 0x74, 0x69, 0x6E] + [];
    EncodingSplit([0x54, 0x65, 0x73, 0x74, 0x69, 0x6E], []);
    TestinSextets();
    TestinChars();
  }

  lemma Testing100Bytes()
    ensures Utf8.EncodeString("Testing100") == [0x54, 0x65, 0x73, 0x74, 0x69, 0x6E, 0x67, 0x31, 0x30, 0x30]
  {
    Utf8.EncodeStringAscii("Testing100");
  }

  /** The encoder's test: "Testing100" encodes to "VGVzdGluZzEwMA==". */
  lemma VectorTesting100()
    ensures Encoding(Utf8.EncodeString("Testing100")) == "VGVzdGluZzEwMA=="
  {
    Testing100Bytes();
    Testing100OfBytes();
  }

  lemma Testing10Bytes()
    ensures Utf8.EncodeString("Testing10") == [0x54, 0x65, 0x73, 0x74, 0x69, 0x6E, 0x67, 0x31, 0x30]
  {
    Utf8.EncodeStringAscii("Testing10");
  }

  /** The encoder's test: "Testing10" encodes to "VGVzdGluZzEw". */
  lemma VectorTesting10()
    ensures Encoding(Utf8.EncodeString("Testing10")) == "VGVzdGluZzEw"
  {
    Testing10Bytes();
    Testing10OfBytes();
  }

  lemma Testing1Bytes()
    ensures Utf8.EncodeString("Testing1") == [0x54, 0x65, 0x73, 0x74, 0x69, 0x6E, 0x67, 0x31]
  {
    Utf8.EncodeStringAscii("Testing1");
  }

  /** The encoder's test: "Testing1" encodes to "VGVzdGluZzE=". */
  lemma VectorTesting1()
    ensures Encoding(Utf8.EncodeString("Testing1")) == "VGVzdGluZzE="
  {
    Testing1Bytes();
    Testing1OfBytes();
  }

  lemma TestingBytes()
    ensures Utf8.EncodeString("Testing") == [0x54, 0x65, 0x73, 0x74, 0x69, 0x6E, 0x67]
  {
    Utf8.EncodeStringAscii("Testing");
  }

  /** The encoder's test: "Testing" encodes to "VGVzdGluZw==". */
  lemma VectorTesting()
    ensures Encoding(Utf8.EncodeString("Testing")) == "VGVzdGluZw=="
  {
    TestingBytes();
    TestingOfBytes();
  }

  lemma TestinBytes()
    ensures Utf8.EncodeString("Testin") == [0x54, 0x65, 0x73, 0x74, 0x69, 0x6E]
  {
    Utf8.EncodeStringAscii("Testin");
  }

  /** The encoder's test: "Testin" encodes to "VGVzdGlu". */
  lemma VectorTestin()
    ensures Encoding(Utf8.EncodeString("Testin")) == "VGVzdGlu"
  {
    TestinBytes();
    TestinOfBytes();
  }

  // The encoder's last test, "This is a very long line.", in pieces

  lemma {:induction false} GroupsConcat(s: seq<byte>, t: seq<byte>)
    requires |s| % 3 == 0 && |t| % 3 == 0
    ensures Groups(s + t) == Groups(s) + Groups(t)
  {
    if s != [] {
      assert (s + t)[3..] == s[3..] + t;
      GroupsConcat(s[3..], t);
    } else {
      assert s + t == t;
    }
  }

  lemma LongGroups1()
    ensures Groups([0x54, 0x68, 0x69, 0x73, 0x20, 0x69, 0x73, 0x20, 0x61]) == [21, 6, 33, 41, 28, 50, 1, 41, 28, 50, 1, 33]
  {
  }

  lemma LongChars1()
    ensures Chars([21, 6, 33, 41, 28, 50, 1, 41, 28, 50, 1, 33]) == "VGhpcyBpcyBh"
  {
  }

  lemma LongGroups2()
    ensures Groups([0x20, 0x76, 0x65, 0x72, 0x79, 0x20, 0x6C, 0x6F, 0x6E]) == [8, 7, 25, 37, 28, 39, 36, 32, 27, 6, 61, 46]
  {
  }

  lemma LongChars2()
    ensures Chars([8, 7, 25, 37, 28, 39, 36, 32, 27, 6, 61, 46]) == "IHZlcnkgbG9u"
  {
  }

  lemma LongGroups3()
    ensures Groups([0x67, 0x20, 0x6C, 0x69, 0x6E, 0x65]) == [25, 50, 1, 44, 26, 22, 57, 37]
  {
  }

  lemma LongChars3()
    ensures Chars([25, 50, 1, 44, 26, 22, 57, 37]) == "ZyBsaW5l"
  {
  }

  lemma LongFinal()
    ensures Chars(FinalSextets([0x2E])) + Padding(PaddingLength(1)) == "Lg=="
  {
    assert FinalSextets([0x2E]) == [11, 32];
    CharsTwo(11, 32);
  }

  /** The encoding of three runs of complete groups and a final part. */
  lemma EncodingParts(p1: seq<byte>, p2: seq<byte>, p3: seq<byte>, f: seq<byte>)
    requires |p1| % 3 == 0 && |p2| % 3 == 0 && |p3| % 3 == 0 && |f| < 3
    ensures Encoding(p1 + p2 + p3 + f)
         == Chars(Groups(p1)) + Chars(Groups(p2)) + Chars(Groups(p3)) + (Chars(FinalSextets(f)) + Padding(PaddingLength(|f|)))
  {
    var k1, k2, k3 := |p1| / 3, |p2| / 3, |p3| / 3;
    assert |p1| == 3 * k1 && |p2| == 3 * k2 && |p3| == 3 * k3;
    DivMod(|p1 + p2|, 3, k1 + k2, 0);
    DivMod(|p1 + p2 + p3|, 3, k1 + k2 + k3, 0);
    var g1, g2, g3, fs := Groups(p1), Groups(p2), Groups(p3), FinalSextets(f);
    EncodingSplit(p1 + p2 + p3, f);
    GroupsConcat(p1 + p2, p3);
    GroupsConcat(p1, p2);
    assert Groups(p1 + p2 + p3) == g1 + g2 + g3;
    CharsAppend(g1 + g2 + g3, fs);
    CharsAppend(g1 + g2, g3);
    CharsAppend(g1, g2);
    assert Chars(g1 + g2 + g3 + fs) == Chars(g1) + Chars(g2) + Chars(g3) + Chars(fs);
  }

  lemma LongOutput()
    ensures "VGhpcyBpcyBh" + "IHZlcnkgbG9u" + "ZyBsaW5l" + "Lg==" == "VGhpcyBpcyBhIHZlcnkgbG9uZyBsaW5lLg=="
  {
  }

  lemma LongOfBytes()
    ensures Encoding([0x54, 0x68, 0x69, 0x73, 0x20, 0x69, 0x73, 0x20, 0x61] + [0x20, 0x76, 0x65, 0x72, 0x79, 0x20, 0x6C, 0x6F, 0x6E] + [0x67, 0x20, 0x6C, 0x69, 0x6E, 0x65] + [0x2E]) == "VGhpcyBpcyBhIHZlcnkgbG9uZyBsaW5lLg=="
  {
    EncodingParts([0x54, 0x68, 0x69, 0x73, 0x20, 0x69, 0x73, 0x20, 0x61], [0x20, 0x76, 0x65, 0x72, 0x79, 0x20, 0x6C, 0x6F, 0x6E], [0x67, 0x20, 0x6C, 0x69, 0x6E, 0x65], [0x2E]);
    LongGroups1();
    LongGroups2();
    LongGroups3();
    LongChars1();
    LongChars2();
    LongChars3();
    LongFinal();
    LongOutput();
  }

  lemma LongBytes1()
    ensures Utf8.EncodeString("This is a") == [0x54, 0x68, 0x69, 0x73, 0x20, 0x69, 0x73, 0x20, 0x61]
  {
    Utf8.EncodeStringAscii("This is a");
  }

  lemma LongBytes2()
    ensures Utf8.EncodeString(" very lon") == [0x20, 0x76, 0x65, 0x72, 0x79, 0x20, 0x6C, 0x6F, 0x6E]
  {
    Utf8.EncodeStringAscii(" very lon");
  }

  lemma LongBytes3()
    ensures Utf8.EncodeString("g line") == [0x67, 0x20, 0x6C, 0x69, 0x6E, 0x65]
  {
    Utf8.EncodeStringAscii("g line");
  }

  lemma LongBytes4()
    ensures Utf8.EncodeString(".") == [0x2E]
  {
    Utf8.EncodeStringAscii(".");
  }

  lemma LongText()
    ensures "This is a very long line." == "This is a" + " very lon" + "g line" + "."
  {
  }

  lemma LongBytes()
    ensures Utf8.EncodeString("This is a very long line.") == [0x54, 0x68, 0x69, 0x73, 0x20, 0x69, 0x73, 0x20, 0x61] + [0x20, 0x76, 0x65, 0x72, 0x79, 0x20, 0x6C, 0x6F, 0x6E] + [0x67, 0x20, 0x6C, 0x69, 0x6E, 0x65] + [0x2E]
  {
    LongText();
    Utf8.EncodeStringAppend("This is a" + " very lon" + "g line", ".");
    Utf8.EncodeStringAppend("This is a" + " very lon", "g line");
    Utf8.EncodeStringAppend("This is a", " very lon");
    LongBytes1();
    LongBytes2();
    LongBytes3();
    LongBytes4();
  }

  /** The encoder's test: "This is a very long line." encodes to "VGhpcyBpcyBhIHZlcnkgbG9uZyBsaW5lLg==". */
  lemma VectorLong()
    ensures Encoding(Utf8.EncodeString("This is a very long line.")) == "VGhpcyBpcyBhIHZlcnkgbG9uZyBsaW5lLg=="
  {
    LongBytes();
    LongOfBytes();
  }
}
