/**
 * The encoder's expected outputs for the strings its unit test encodes.
 * Each string is cut into runs of unreserved characters, which encode to
 * themselves, and single characters, which are escaped.
 */
module UrlEncodeVectors {
  import opened Common
  import opened UrlEncode
  import Utf8

  /** A one-character string that is not unreserved encodes to the escapes of
      its UTF-8 bytes. */
  lemma Escaped(c: char)
    requires !IsUnreserved(c)
    ensures Encoding([c]) == ByteEscapes(Utf8.EncodeChar(c))
  {
    EncodeCharCases(c);
    EncodingOne(c);
  }

  /** An ASCII character that is not unreserved encodes to `%` and its code. */
  lemma EscapedAscii(c: char)
    requires (c as int) < 0x80 && !IsUnreserved(c)
    ensures Encoding([c]) == ['%'] + UpperHex(c as int as byte)
  {
    Escaped(c);
    var bs := Utf8.EncodeChar(c);
    assert bs == [c as int as byte];
    ByteEscapesOne(c as int as byte);
  }

  lemma Hex3A() ensures UpperHex(0x3A) == "3A" {}
  lemma Hex2F() ensures UpperHex(0x2F) == "2F" {}
  lemma Hex20() ensures UpperHex(0x20) == "20" {}
  lemma HexC3() ensures UpperHex(0xC3) == "C3" {}
  lemma HexBC() ensures UpperHex(0xBC) == "BC" {}

  /** The UTF-8 encoding of U+00FC LATIN SMALL LETTER U WITH DIAERESIS. */
  lemma Utf8Diaeresis() ensures Utf8.EncodeChar('ü') == [0xC3, 0xBC] {}

  lemma PartsLocalhost()
    ensures "http://localhost:8080" == "http" + ":" + "/" + "/" + "localhost" + ":" + "8080"
  {
  }

  lemma OutputLocalhost()
    ensures "http" + "%3A" + "%2F" + "%2F" + "localhost" + "%3A" + "8080" == "http%3A%2F%2Flocalhost%3A8080"
  {
  }

  lemma PartsGunter()
    ensures "Hello Günter" == "Hello" + " " + "G" + "ü" + "nter"
  {
  }

  lemma OutputGunter()
    ensures "Hello" + "%20" + "G" + "%C3%BC" + "nter" == "Hello%20G%C3%BCnter"
  {
  }

  /** The unreserved parts of the first two test inputs encode to themselves. */
  lemma UnreservedParts()
    ensures Encoding("http") == "http" && Encoding("8080") == "8080" && Encoding("nter") == "nter"
    ensures Encoding("localhost") == "localhost" && Encoding("Hello") == "Hello" && Encoding("G") == "G"
  {
    EncodingUnreserved("http");
    EncodingUnreserved("8080");
    EncodingUnreserved("nter");
    EncodingUnreserved("localhost");
    EncodingUnreserved("Hello");
    EncodingUnreserved("G");
  }

  lemma EscapesLocalhost() ensures Encoding(":") == "%3A" && Encoding("/") == "%2F"
  {
    EscapedAscii(':');
    Hex3A();
    EscapedAscii('/');
    Hex2F();
  }

  lemma EscapesGunter() ensures Encoding(" ") == "%20" && Encoding("ü") == "%C3%BC"
  {
    EscapedAscii(' ');
    Hex20();
    Escaped('ü');
    Utf8Diaeresis();
    var bs: seq<byte> := [0xC3, 0xBC];
    ByteEscapesOne(0xC3);
    assert bs[..1] == [0xC3];
    HexC3();
    HexBC();
  }

  /** Encoding distributes over a concatenation of several parts. */
  lemma Encoding5(a: string, b: string, c: string, d: string, e: string)
    ensures Encoding(a + b + c + d + e) == Encoding(a) + Encoding(b) + Encoding(c) + Encoding(d) + Encoding(e)
  {
    EncodingAppend(a, b);
    EncodingAppend(a + b, c);
    EncodingAppend(a + b + c, d);
    EncodingAppend(a + b + c + d, e);
  }

  lemma VectorLocalhost()
    ensures Encoding("http://localhost:8080") == "http%3A%2F%2Flocalhost%3A8080"
  {
    PartsLocalhost();
    OutputLocalhost();
    UnreservedParts();
    EscapesLocalhost();
    var head := "http" + ":" + "/";
    EncodingAppend("http", ":");
    EncodingAppend("http" + ":", "/");
    Encoding5(head, "/", "localhost", ":", "8080");
  }

  lemma VectorGunter()
    ensures Encoding("Hello Günter") == "Hello%20G%C3%BCnter"
  {
    PartsGunter();
    OutputGunter();
    UnreservedParts();
    EscapesGunter();
    Encoding5("Hello", " ", "G", "ü", "nter");
  }

  lemma Hex21() ensures UpperHex(0x21) == "21" {}
  lemma Hex22() ensures UpperHex(0x22) == "22" {}
  lemma Hex23() ensures UpperHex(0x23) == "23" {}
  lemma Hex25() ensures UpperHex(0x25) == "25" {}
  lemma Hex2C() ensures UpperHex(0x2C) == "2C" {}
  lemma Hex3B() ensures UpperHex(0x3B) == "3B" {}
  lemma Hex85() ensures UpperHex(0x85) == "85" {}
  lemma Hex86() ensures UpperHex(0x86) == "86" {}
  lemma Hex98() ensures UpperHex(0x98) == "98" {}
  lemma HexA4() ensures UpperHex(0xA4) == "A4" {}
  lemma HexA5() ensures UpperHex(0xA5) == "A5" {}
  lemma HexA6() ensures UpperHex(0xA6) == "A6" {}
  lemma HexB8() ensures UpperHex(0xB8) == "B8" {}
  lemma HexC2() ensures UpperHex(0xC2) == "C2" {}

  /** A character whose UTF-8 encoding is two bytes, and that is therefore
      not unreserved, encodes to two escapes. */
  lemma EscapedTwoBytes(c: char, x: byte, y: byte)
    requires Utf8.EncodeChar(c) == [x, y]
    ensures Encoding([c]) == ['%'] + UpperHex(x) + ['%'] + UpperHex(y)
  {
    Escaped(c);
    ByteEscapesOne(x);
    assert [x, y][..1] == [x];
  }

  lemma Utf8U00E6() ensures Utf8.EncodeChar('\U{E6}') == [0xC3, 0xA6] {}
  lemma Utf8U00F8() ensures Utf8.EncodeChar('\U{F8}') == [0xC3, 0xB8] {}
  lemma Utf8U00E5() ensures Utf8.EncodeChar('\U{E5}') == [0xC3, 0xA5] {}
  lemma Utf8U00C6() ensures Utf8.EncodeChar('\U{C6}') == [0xC3, 0x86] {}
  lemma Utf8U00D8() ensures Utf8.EncodeChar('\U{D8}') == [0xC3, 0x98] {}
  lemma Utf8U00C5() ensures Utf8.EncodeChar('\U{C5}') == [0xC3, 0x85] {}
  lemma Utf8U00A4() ensures Utf8.EncodeChar('\U{A4}') == [0xC2, 0xA4] {}

  lemma EscapesSymbols1()
    ensures Encoding("\U{E6}") == "%C3%A6" && Encoding("\U{F8}") == "%C3%B8"
  {
    Utf8U00E6();
    EscapedTwoBytes('\U{E6}', 0xC3, 0xA6);
    HexC3();
    HexA6();
    Utf8U00F8();
    EscapedTwoBytes('\U{F8}', 0xC3, 0xB8);
    HexC3();
    HexB8();
  }

  lemma EscapesSymbols2()
    ensures Encoding("\U{E5}") == "%C3%A5" && Encoding("\U{C6}") == "%C3%86"
  {
    Utf8U00E5();
    EscapedTwoBytes('\U{E5}', 0xC3, 0xA5);
    HexC3();
    HexA5();
    Utf8U00C6();
    EscapedTwoBytes('\U{C6}', 0xC3, 0x86);
    HexC3();
    Hex86();
  }

  lemma EscapesSymbols3()
    ensures Encoding("\U{D8}") == "%C3%98" && Encoding("\U{C5}") == "%C3%85"
  {
    Utf8U00D8();
    EscapedTwoBytes('\U{D8}', 0xC3, 0x98);
    HexC3();
    Hex98();
    Utf8U00C5();
    EscapedTwoBytes('\U{C5}', 0xC3, 0x85);
    HexC3();
    Hex85();
  }

  lemma EscapesSymbols4()
    ensures Encoding(",") == "%2C" && Encoding(";") == "%3B"
  {
    EscapedAscii(',');
    Hex2C();
    EscapedAscii(';');
    Hex3B();
  }

  lemma EscapesSymbols5()
    ensures Encoding(":") == "%3A" && Encoding("!") == "%21"
  {
    EscapedAscii(':');
    Hex3A();
    EscapedAscii('!');
    Hex21();
  }

  lemma EscapesSymbols6()
    ensures Encoding("\"") == "%22" && Encoding("#") == "%23"
  {
    EscapedAscii('"');
    Hex22();
    EscapedAscii('#');
    Hex23();
  }

  lemma EscapesSymbols7()
    ensures Encoding("\U{A4}") == "%C2%A4" && Encoding("%") == "%25"
  {
    Utf8U00A4();
    EscapedTwoBytes('\U{A4}', 0xC2, 0xA4);
    HexC2();
    HexA4();
    EscapedAscii('%');
    Hex25();
  }

  lemma UnreservedSymbols() ensures Encoding(".-") == ".-" && Encoding("_") == "_"
  {
    EncodingUnreserved(".-");
    EncodingUnreserved("_");
  }

  lemma PartsSymbols()
    ensures "\U{E6}\U{F8}\U{E5}\U{C6}\U{D8}\U{C5},.-;:_!\"#\U{A4}%"
         == (("\U{E6}" + "\U{F8}" + "\U{E5}" + "\U{C6}") + ("\U{D8}" + "\U{C5}" + "," + ".-"))
          + ((";" + ":" + "_" + "!") + ("\"" + "#" + "\U{A4}" + "%"))
  {
  }

  lemma OutputSymbols1()
    ensures ("%C3%A6" + "%C3%B8" + "%C3%A5" + "%C3%86") + ("%C3%98" + "%C3%85" + "%2C" + ".-") == "%C3%A6%C3%B8%C3%A5%C3%86%C3%98%C3%85%2C.-"
  {
    assert "%C3%A6" + "%C3%B8" + "%C3%A5" + "%C3%86" == "%C3%A6%C3%B8%C3%A5%C3%86";
    assert "%C3%98" + "%C3%85" + "%2C" + ".-" == "%C3%98%C3%85%2C.-";
  }

  lemma OutputSymbols2()
    ensures ("%3B" + "%3A" + "_" + "%21") + ("%22" + "%23" + "%C2%A4" + "%25") == "%3B%3A_%21%22%23%C2%A4%25"
  {
    assert "%3B" + "%3A" + "_" + "%21" == "%3B%3A_%21";
    assert "%22" + "%23" + "%C2%A4" + "%25" == "%22%23%C2%A4%25";
  }

  lemma OutputSymbols()
    ensures "%C3%A6%C3%B8%C3%A5%C3%86%C3%98%C3%85%2C.-" + "%3B%3A_%21%22%23%C2%A4%25"
         == "%C3%A6%C3%B8%C3%A5%C3%86%C3%98%C3%85%2C.-%3B%3A_%21%22%23%C2%A4%25"
  {
  }

  /** Encoding distributes over a concatenation of four parts. */
  lemma Encoding4(a: string, b: string, c: string, d: string)
    ensures Encoding(a + b + c + d) == Encoding(a) + Encoding(b) + Encoding(c) + Encoding(d)
  {
    EncodingAppend(a, b);
    EncodingAppend(a + b, c);
    EncodingAppend(a + b + c, d);
  }

  lemma VectorSymbols()
    ensures Encoding("\U{E6}\U{F8}\U{E5}\U{C6}\U{D8}\U{C5},.-;:_!\"#\U{A4}%")
         == "%C3%A6%C3%B8%C3%A5%C3%86%C3%98%C3%85%2C.-%3B%3A_%21%22%23%C2%A4%25"
  {
    PartsSymbols();
    OutputSymbols();
    EscapesSymbols1();
    EscapesSymbols2();
    EscapesSymbols3();
    EscapesSymbols4();
    EscapesSymbols5();
    EscapesSymbols6();
    EscapesSymbols7();
    UnreservedSymbols();
    OutputSymbols1();
    OutputSymbols2();
    var g0 := "\U{E6}" + "\U{F8}" + "\U{E5}" + "\U{C6}";
    Encoding4("\U{E6}", "\U{F8}", "\U{E5}", "\U{C6}");
    var g1 := "\U{D8}" + "\U{C5}" + "," + ".-";
    Encoding4("\U{D8}", "\U{C5}", ",", ".-");
    var g2 := ";" + ":" + "_" + "!";
    Encoding4(";", ":", "_", "!");
    var g3 := "\"" + "#" + "\U{A4}" + "%";
    Encoding4("\"", "#", "\U{A4}", "%");
    EncodingAppend(g0, g1);
    EncodingAppend(g2, g3);
    EncodingAppend(g0 + g1, g2 + g3);
  }
}
