/**
 * The Base64 encoder of the client: a byte-at-a-time loop that carries the
 * bits not yet emitted between input bytes, then a final character for the
 * leftover bits and `=` padding. It is proved equal to the group-wise
 * encoding of section 4 of RFC 4648.
 */
module Base64 {
  import opened Common
  import Utf8

  /** A six-bit value: an index into the table. */
  type Sextet = x: int | 0 <= x < 0x40

  /** The character at index `i` of the table, by the ranges of Table 1 of
      RFC 4648: `A`-`Z`, `a`-`z`, `0`-`9`, then `+` and `/`. */
  function Alphabet(i: int): char
    requires 0 <= i < 0x40
  {
    if i < 26 then ('A' as int + i) as char
    else if i < 52 then ('a' as int + (i - 26)) as char
    else if i < 62 then ('0' as int + (i - 52)) as char
    else if i == 62 then '+' else '/'
  }

  /** The encoder's 64-entry table. */
  function Base64Table(): (t: seq<char>)
    ensures |t| == 0x40
  {
    seq(0x40, i requires 0 <= i < 0x40 => Alphabet(i))
  }

  /** The table holds, row by row, the characters the source lists. */
  lemma TableRows()
    ensures Base64Table()[..8] == ['A', 'B', 'C', 'D', 'E', 'F', 'G', 'H']
    ensures Base64Table()[8..16] == ['I', 'J', 'K', 'L', 'M', 'N', 'O', 'P']
    ensures Base64Table()[16..24] == ['Q', 'R', 'S', 'T', 'U', 'V', 'W', 'X']
    ensures Base64Table()[24..32] == ['Y', 'Z', 'a', 'b', 'c', 'd', 'e', 'f']
    ensures Base64Table()[32..40] == ['g', 'h', 'i', 'j', 'k', 'l', 'm', 'n']
    ensures Base64Table()[40..48] == ['o', 'p', 'q', 'r', 's', 't', 'u', 'v']
    ensures Base64Table()[48..56] == ['w', 'x', 'y', 'z', '0', '1', '2', '3']
    ensures Base64Table()[56..] == ['4', '5', '6', '7', '8', '9', '+', '/']
  {
  }

  /** The table entry for a sextet. */
  function Symbol(x: Sextet): char
  {
    Base64Table()[x]
  }

  /** The characters for a sequence of sextets. */
  function Chars(xs: seq<Sextet>): (r: string)
    ensures |r| == |xs|
    ensures forall i :: 0 <= i < |xs| ==> r[i] == Symbol(xs[i])
  {
    seq(|xs|, i requires 0 <= i < |xs| => Symbol(xs[i]))
  }

  lemma CharsOne(a: Sextet)
    ensures Chars([a]) == [Symbol(a)]
  {
    assert Chars([a])[0] == Symbol(a);
  }

  lemma CharsTwo(a: Sextet, b: Sextet)
    ensures Chars([a, b]) == [Symbol(a), Symbol(b)]
  {
    var r := Chars([a, b]);
    assert r[0] == Symbol(a) && r[1] == Symbol(b);
  }

  lemma CharsAppend(xs: seq<Sextet>, ys: seq<Sextet>)
    ensures Chars(xs + ys) == Chars(xs) + Chars(ys)
  {
    assert forall i :: 0 <= i < |xs + ys| ==> Chars(xs + ys)[i] == (Chars(xs) + Chars(ys))[i];
  }

  // ---------------------------------------------------------------------
  // The reference encoding, group by group

  /** The four sextets of a complete group of three bytes: the high six bits
      of the first byte, its low two bits with the high four of the second,
      the low four of the second with the high two of the third, and the low
      six of the third. */
  function Quantum(x: byte, y: byte, z: byte): (r: seq<Sextet>)
    ensures |r| == 4
  {
    [x as int / 4, (x as int % 4) * 0x10 + y as int / 0x10,
     (y as int % 0x10) * 4 + z as int / 0x40, z as int % 0x40]
  }

  /** The sextets of the final, incomplete group of one or two bytes, the
      missing bits taken as zero; none when the input ends on a group
      boundary. */
  function FinalSextets(t: seq<byte>): (r: seq<Sextet>)
    requires |t| < 3
  {
    if |t| == 0 then []
    else if |t| == 1 then [t[0] as int / 4, (t[0] as int % 4) * 0x10]
    else [t[0] as int / 4, (t[0] as int % 4) * 0x10 + t[1] as int / 0x10, (t[1] as int % 0x10) * 4]
  }

  /** The sextets of the complete groups, in order. */
  function Groups(s: seq<byte>): (r: seq<Sextet>)
    requires |s| % 3 == 0
  {
    if s == [] then [] else Quantum(s[0], s[1], s[2]) + Groups(s[3..])
  }

  /** The number of input bytes in complete groups. */
  function Whole(n: nat): nat
  {
    n - n % 3
  }

  /** All the sextets of the input. */
  function Sextets(s: seq<byte>): seq<Sextet>
  {
    Groups(s[..Whole(|s|)]) + FinalSextets(s[Whole(|s|)..])
  }

  /** The position in a group after `phase`. */
  function Following(phase: int): int
  {
    if phase == 2 then 0 else phase + 1
  }

  /** How the position within a group moves from one byte to the next. */
  lemma NextPhase(n: nat)
    ensures (n + 1) % 3 == Following(n % 3)
    ensures n >= 1 ==> (n - 1) % 3 == (if n % 3 == 0 then 2 else n % 3 - 1)
  {
  }

  /** The number of `=` that complete the final group to four characters. */
  function PaddingLength(n: nat): nat
  {
    (3 - n % 3) % 3
  }

  /** `n` padding characters. */
  function Padding(n: nat): string
  {
    seq(n, _ => '=')
  }

  /** Base64 as section 4 of RFC 4648 defines it. */
  function Encoding(s: seq<byte>): string
  {
    Chars(Sextets(s)) + Padding(PaddingLength(|s|))
  }

  // ---------------------------------------------------------------------
  // Properties of the reference encoding

  /** The group's sextets are the four six-bit digits, most significant
      first, of the three bytes read as one big-endian 24-bit number. */
  lemma QuantumIsBigEndian(x: byte, y: byte, z: byte)
    ensures var n := (x as int) * 0x1_0000 + (y as int) * 0x100 + z as int;
      Quantum(x, y, z) == [n / 0x4_0000, n / 0x1000 % 0x40, n / 0x40 % 0x40, n % 0x40]
  {
    var a, b, c := x as int, y as int, z as int;
    SextetArithmetic(a, b, c);
    var n := a * 0x1_0000 + b * 0x100 + c;
    assert Quantum(x, y, z) == [a / 4, (a % 4) * 0x10 + b / 0x10, (b % 0x10) * 4 + c / 0x40, c % 0x40];
  }

  lemma SextetArithmetic(a: int, b: int, c: int)
    requires 0 <= a < 0x100 && 0 <= b < 0x100 && 0 <= c < 0x100
    ensures var n := a * 0x1_0000 + b * 0x100 + c;
      && n / 0x4_0000 == a / 4
      && n / 0x1000 % 0x40 == (a % 4) * 0x10 + b / 0x10
      && n / 0x40 % 0x40 == (b % 0x10) * 4 + c / 0x40
      && n % 0x40 == c % 0x40
  {
    var n := a * 0x1_0000 + b * 0x100 + c;
    var s0, s1, s2, s3 := a / 4, (a % 4) * 0x10 + b / 0x10, (b % 0x10) * 4 + c / 0x40, c % 0x40;
    assert a == s0 * 4 + a % 4;
    assert b == (b / 0x10) * 0x10 + b % 0x10;
    assert c == (c / 0x40) * 0x40 + s3;
    assert n == s0 * 0x4_0000 + s1 * 0x1000 + s2 * 0x40 + s3;
    assert n / 0x40 == s0 * 0x1000 + s1 * 0x40 + s2;
    assert n / 0x1000 == s0 * 0x40 + s1;
  }

  /** Every complete group becomes four characters and so does a final
      incomplete one. */
  lemma EncodingLength(s: seq<byte>)
    ensures |Encoding(s)| == 4 * ((|s| + 2) / 3)
  {
    var w := Whole(|s|);
    GroupsLength(s[..w]);
    assert |Sextets(s)| == |Groups(s[..w])| + |FinalSextets(s[w..])|;
    LengthArithmetic(|s|);
  }

  lemma LengthArithmetic(n: nat)
    ensures (n - n % 3) / 3 * 4 + (if n % 3 == 0 then 0 else n % 3 + 1) + PaddingLength(n)
      == 4 * ((n + 2) / 3)
  {
    var q, r := n / 3, n % 3;
    assert n == 3 * q + r;
    assert (n - r) / 3 == q;
    if r == 0 {
      assert (n + 2) / 3 == q;
    } else {
      assert (n + 2) / 3 == q + 1;
    }
  }

  lemma {:induction false} GroupsLength(s: seq<byte>)
    requires |s| % 3 == 0
    ensures |Groups(s)| == |s| / 3 * 4
  {
    if s != [] {
      GroupsLength(s[3..]);
    }
  }

  /** The encoding is table characters followed by `=` padding only. */
  lemma EncodingAlphabet(s: seq<byte>)
    ensures var r := Encoding(s);
      && |r| >= PaddingLength(|s|)
      && (forall i :: 0 <= i < |r| - PaddingLength(|s|) ==> r[i] in Base64Table())
      && (forall i :: |r| - PaddingLength(|s|) <= i < |r| ==> r[i] == '=')
  {
    var r, k := Encoding(s), |Sextets(s)|;
    forall i | 0 <= i < k
      ensures r[i] in Base64Table()
    {
      assert r[i] == Base64Table()[Sextets(s)[i]];
    }
  }

  /** Complete groups followed by `n < 3` bytes: the groups are the whole
      part and the padding is that of the final part. */
  lemma GroupShift(m: nat, n: nat)
    requires m % 3 == 0 && n < 3
    ensures Whole(m + n) == m && PaddingLength(m + n) == PaddingLength(n)
  {
    var k := m / 3;
    assert m == 3 * k;
    DivMod(m + n, 3, k, n);
  }

  /** The encoding of complete groups `g` followed by a final part `t`. */
  lemma EncodingSplit(g: seq<byte>, t: seq<byte>)
    requires |g| % 3 == 0 && |t| < 3
    ensures Encoding(g + t) == Chars(Groups(g) + FinalSextets(t)) + Padding(PaddingLength(|t|))
  {
    var s := g + t;
    GroupShift(|g|, |t|);
    assert Whole(|s|) == |g|;
    assert s[..|g|] == g;
    assert s[|g|..] == t;
  }

  // ---------------------------------------------------------------------
  // What the loop has emitted after a prefix of the input

  /** The sextets complete after reading `s`, group by group. */
  function Emitted(s: seq<byte>): seq<Sextet>
  {
    var w := Whole(|s|);
    Groups(s[..w])
      + (if |s| % 3 == 0 then []
         else if |s| % 3 == 1 then [s[w] as int / 4]
         else [s[w] as int / 4, (s[w] as int % 4) * 0x10 + s[w + 1] as int / 0x10])
  }

  /** The sextets of one byte `v` read at position `phase` of a group, after
      `left`, the bits the previous byte left over. */
  function Chunk(phase: int, left: int, v: byte): seq<Sextet>
    requires (phase == 0 && left == 0) || (phase == 1 && 0 <= left < 4) || (phase == 2 && 0 <= left < 0x10)
  {
    if phase == 0 then [v as int / 4]
    else if phase == 1 then [left * 0x10 + v as int / 0x10]
    else [left * 4 + v as int / 0x40, v as int % 0x40]
  }

  /** The bits of `v` left over when it is read at position `phase`. */
  function NextLeft(phase: int, v: byte): nat
  {
    if phase == 0 then v as int % 4 else if phase == 1 then v as int % 0x10 else 0
  }

  /** The value of the bits read but not yet emitted after reading `s`:
      none at a group boundary, two bits after the first byte of a group and
      four after the second. */
  function Leftover(s: seq<byte>): (r: nat)
    ensures |s| % 3 == 0 ==> r == 0
    ensures |s| % 3 == 1 ==> r < 4
    ensures |s| % 3 == 2 ==> r < 0x10
  {
    if s == [] then 0 else NextLeft((|s| - 1) % 3, s[|s| - 1])
  }

  /** The sextets the loop pushes after reading `s`, byte by byte. */
  function Pushed(s: seq<byte>): seq<Sextet>
  {
    if s == [] then []
    else
      var p := s[..|s| - 1];
      Pushed(p) + Chunk(|p| % 3, Leftover(p), s[|s| - 1])
  }

  lemma {:induction false} GroupsAppend(s: seq<byte>, x: byte, y: byte, z: byte)
    requires |s| % 3 == 0
    ensures Groups(s + [x, y, z]) == Groups(s) + Quantum(x, y, z)
  {
    if s != [] {
      assert (s + [x, y, z])[3..] == s[3..] + [x, y, z];
      GroupsAppend(s[3..], x, y, z);
    } else {
      assert [x, y, z][3..] == [];
    }
  }

  /** Reading one byte at a group boundary completes its first sextet. */
  lemma EmittedStepFirst(s: seq<byte>, v: byte)
    requires |s| % 3 == 0
    ensures Emitted(s + [v]) == Emitted(s) + [v as int / 4]
  {
    var t := s + [v];
    var w := Whole(|s|);
    assert Whole(|t|) == w && t[..w] == s[..w] && t[w] == v;
  }

  /** The second byte of a group completes the second sextet. */
  lemma EmittedStepSecond(s: seq<byte>, v: byte)
    requires |s| % 3 == 1
    ensures Emitted(s + [v]) == Emitted(s) + [(s[|s| - 1] as int % 4) * 0x10 + v as int / 0x10]
  {
    var t := s + [v];
    var w := Whole(|s|);
    assert w == |s| - 1;
    assert |t| % 3 == 2;
    assert Whole(|t|) == w;
    assert t[..w] == s[..w];
    assert t[w] == s[w] && t[w + 1] == v;
  }

  /** The third byte of a group completes the group. */
  lemma EmittedStepThird(s: seq<byte>, v: byte)
    requires |s| % 3 == 2
    ensures Emitted(s + [v]) == Emitted(s)
      + [(s[|s| - 1] as int % 0x10) * 4 + v as int / 0x40, v as int % 0x40]
  {
    var t := s + [v];
    var w := Whole(|s|);
    var x, y := s[w], s[w + 1];
    assert w + 2 == |s|;
    assert |t| % 3 == 0;
    assert Whole(|t|) == |t|;
    assert t[..|t|] == s[..w] + [x, y, v];
    GroupsAppend(s[..w], x, y, v);
    assert Emitted(s) == Groups(s[..w]) + [x as int / 4, (x as int % 4) * 0x10 + y as int / 0x10];
    assert Emitted(t) == Groups(s[..w]) + Quantum(x, y, v);
  }

  /** Reading one more byte emits its chunk, whatever the position. */
  lemma EmittedStep(p: seq<byte>, v: byte)
    ensures Emitted(p + [v]) == Emitted(p) + Chunk(|p| % 3, Leftover(p), v)
  {
    var n := |p|;
    NextPhase(n);
    if n % 3 == 0 {
      EmittedStepFirst(p, v);
    } else if n % 3 == 1 {
      assert Leftover(p) == p[n - 1] as int % 4;
      EmittedStepSecond(p, v);
    } else {
      assert Leftover(p) == p[n - 1] as int % 0x10;
      EmittedStepThird(p, v);
    }
  }

  /** Reading the byte at index `i` pushes its chunk and leaves its bits. */
  lemma PushedStep(bytes: seq<byte>, i: int)
    requires 0 <= i < |bytes|
    ensures Pushed(bytes[..i + 1]) == Pushed(bytes[..i]) + Chunk(i % 3, Leftover(bytes[..i]), bytes[i])
    ensures Leftover(bytes[..i + 1]) == NextLeft(i % 3, bytes[i])
  {
    var p, v, s := bytes[..i], bytes[i], bytes[..i + 1];
    assert s == p + [v] && s[..i] == p && s[i] == v;
  }

  /** The byte-wise sextets are the group-wise ones. */
  lemma {:induction false} PushedIsEmitted(s: seq<byte>)
    ensures Pushed(s) == Emitted(s)
  {
    if s != [] {
      var p, v := s[..|s| - 1], s[|s| - 1];
      assert s == p + [v];
      assert Pushed(s) == Pushed(p) + Chunk(|p| % 3, Leftover(p), v);
      PushedIsEmitted(p);
      EmittedStep(p, v);
    }
  }

  /** The sextet of the bits left after the last complete one, if any. */
  function TailSextets(s: seq<byte>): seq<Sextet>
  {
    if |s| % 3 == 0 then []
    else if |s| % 3 == 1 then [Leftover(s) * 0x10]
    else [Leftover(s) * 4]
  }

  /** After the loop, the tail sextet completes the reference encoding's
      sextets. */
  lemma SextetsFromPushed(s: seq<byte>)
    ensures Sextets(s) == Pushed(s) + TailSextets(s)
  {
    PushedIsEmitted(s);
    var n, w := |s|, Whole(|s|);
    NextPhase(n);
    if n % 3 == 1 {
      assert w == n - 1;
      assert s[w..] == [s[w]];
      assert Leftover(s) == s[w] as int % 4;
      assert FinalSextets(s[w..]) == [s[w] as int / 4, (s[w] as int % 4) * 0x10];
      assert Emitted(s) == Groups(s[..w]) + [s[w] as int / 4];
    } else if n % 3 == 2 {
      assert w == n - 2;
      assert s[w..] == [s[w], s[w + 1]];
      assert Leftover(s) == s[w + 1] as int % 0x10;
    } else {
      assert w == n;
      assert s[w..] == [];
    }
  }

  /** Whether the bit count `8 * n` has a remainder modulo 6, and how many
      `=` the source appends: both follow from `n` modulo 3. */
  lemma PaddingArithmetic(n: nat)
    ensures (n * 8) % 6 != 0 <==> n % 3 != 0
    ensures (n * 8) % 3 == PaddingLength(n)
  {
    var q, r := n / 3, n % 3;
    assert n == 3 * q + r;
    if r == 0 {
      DivMod(n * 8, 6, 4 * q, 0);
      DivMod(n * 8, 3, 8 * q, 0);
    } else if r == 1 {
      DivMod(n * 8, 6, 4 * q + 1, 2);
      DivMod(n * 8, 3, 8 * q + 2, 2);
    } else {
      DivMod(n * 8, 6, 4 * q + 2, 4);
      DivMod(n * 8, 3, 8 * q + 5, 1);
    }
  }

  lemma DivMod(a: int, m: int, k: int, r: int)
    requires m == 3 || m == 6
    requires 0 <= r < m && a == m * k + r
    ensures a % m == r
  {
  }

  // ---------------------------------------------------------------------
  // Values of the `u8` bit operations

  /** The table entry for a sextet held in a `u8`. */
  function SymbolBits(b: bv8): char
    requires b < 0x40
  {
    Symbol(b as int)
  }

  /** The byte a `u8` holds. */
  function ByteOf(b: bv8): (x: byte)
    ensures x as int == b as int
  {
    b as int as byte
  }

  /** Reading a byte as a `u8` keeps its value. */
  lemma ByteAsBits(x: byte)
    ensures ByteOf(x as bv8) == x
  {
  }

  /** A right shift by `k` divides by `2^k`. */
  lemma HighBits(v: bv8, k: int)
    requires k == 2 || k == 4 || k == 6
    ensures k == 2 ==> (v >> 2) as int == v as int / 4 && v >> 2 < 0x40
    ensures k == 4 ==> (v >> 4) as int == v as int / 0x10 && v >> 4 < 0x10
    ensures k == 6 ==> (v >> 6) as int == v as int / 0x40 && v >> 6 < 4
  {
  }

  /** Masking the low `k` bits takes the remainder modulo `2^k`. */
  lemma LowBits(v: bv8, k: int)
    requires k == 2 || k == 4 || k == 6
    ensures k == 2 ==> (v & 3) as int == v as int % 4
    ensures k == 4 ==> (v & 0xF) as int == v as int % 0x10
    ensures k == 6 ==> (v & 0x3F) as int == v as int % 0x40 && v & 0x3F < 0x40
  {
  }

  /** Placing `hi` above the `k` bits of `lo` adds their values. */
  lemma JoinBits(hi: bv8, lo: bv8, k: int)
    requires (k == 4 && hi < 4 && lo < 0x10) || (k == 2 && hi < 0x10 && lo < 4)
    ensures k == 4 ==> ((hi << 4) | lo) as int == hi as int * 0x10 + lo as int && (hi << 4) | lo < 0x40 && hi as int < 4
    ensures k == 2 ==> ((hi << 2) | lo) as int == hi as int * 4 + lo as int && (hi << 2) | lo < 0x40 && hi as int < 0x10
  {
  }

  /** The tail shift moves the leftover bits to the top of a sextet. */
  lemma TailBits(storage: bv8, stored: bv8)
    requires (stored == 2 && storage < 4) || (stored == 4 && storage < 0x10)
    ensures storage << (6 - stored) < 0x40
    ensures (storage << (6 - stored)) as int == storage as int * (if stored == 2 then 0x10 else 4)
  {
  }

  /** The `u8` operations of an iteration at a group boundary, on integers. */
  lemma FirstBits(b: bv8)
    ensures (b >> 2) as int == b as int / 4
    ensures (b & 3) as int == b as int % 4
  {
    HighBits(b, 2);
    LowBits(b, 2);
  }

  /** The `u8` results of an iteration at a group boundary are the values of
      `Chunk` and `NextLeft`. */
  lemma IterationFirst(b: bv8, pushed: string, storage': bv8)
    requires pushed == [SymbolBits(b >> 2)] && storage' == b & 3
    ensures pushed == Chars(Chunk(0, 0, ByteOf(b))) && storage' as int == NextLeft(0, ByteOf(b))
  {
    FirstBits(b);
    var h := ByteOf(b) as int / 4;
    assert Chunk(0, 0, ByteOf(b)) == [h];
    CharsOne(h);
  }

  /** The `u8` operations of an iteration at the second byte of a group,
      on integers. */
  lemma SecondBits(storage: bv8, b: bv8)
    requires storage < 4
    ensures ((storage << 4) | (b >> 4)) as int == storage as int * 0x10 + b as int / 0x10
    ensures (b & 0xF) as int == b as int % 0x10
    ensures storage as int < 4
  {
    HighBits(b, 4);
    LowBits(b, 4);
    JoinBits(storage, b >> 4, 4);
  }

  /** Likewise for the second byte of a group. */
  lemma IterationSecond(storage: bv8, b: bv8, pushed: string, storage': bv8)
    requires storage < 4
    requires pushed == [SymbolBits((storage << 4) | (b >> 4))] && storage' == b & 0xF
    ensures pushed == Chars(Chunk(1, storage as int, ByteOf(b))) && storage' as int == NextLeft(1, ByteOf(b))
  {
    SecondBits(storage, b);
    var h := storage as int * 0x10 + ByteOf(b) as int / 0x10;
    assert Chunk(1, storage as int, ByteOf(b)) == [h];
    CharsOne(h);
  }

  /** The `u8` operations of an iteration at the third byte of a group,
      on integers. */
  lemma ThirdBits(storage: bv8, b: bv8)
    requires storage < 0x10
    ensures ((storage << 2) | (b >> 6)) as int == storage as int * 4 + b as int / 0x40
    ensures (b & 0x3F) as int == b as int % 0x40
    ensures storage as int < 0x10
  {
    HighBits(b, 6);
    LowBits(b, 6);
    JoinBits(storage, b >> 6, 2);
  }

  /** Likewise for the third byte of a group, which leaves no bits. */
  lemma IterationThird(storage: bv8, b: bv8, pushed: string)
    requires storage < 0x10
    requires pushed == [SymbolBits((storage << 2) | (b >> 6)), SymbolBits(b & 0x3F)]
    ensures pushed == Chars(Chunk(2, storage as int, ByteOf(b)))
  {
    ThirdBits(storage, b);
    var x := ByteOf(b) as int;
    var h, l := storage as int * 4 + x / 0x40, x % 0x40;
    assert pushed == [Symbol(h), Symbol(l)];
    assert Chunk(2, storage as int, ByteOf(b)) == [h, l];
    CharsTwo(h, l);
  }

  // ---------------------------------------------------------------------
  // The encoder as the source writes it

  /** The number of bits stored at position `phase` of a group. */
  function PhaseBits(phase: int): bv8
  {
    if phase == 0 then 0 else if phase == 1 then 2 else 4
  }

  /** One iteration of the encoder's loop on the byte `byteVal`, given the
      `currentBitsStored` bits held in `bitStorage`: it pushes the characters
      of the byte's sextets and leaves its unused bits. Every `u8` operation
      is Rust's: shifts drop the bits moved out, and the asserts are the
      overflow checks of the counter's additions and subtractions. */
  method EncodeByte(bitStorage: bv8, currentBitsStored: bv8, byteVal: bv8, ghost phase: int)
    returns (pushed: string, storage: bv8, stored: bv8)
    requires 0 <= phase < 3 && currentBitsStored == PhaseBits(phase)
    requires (currentBitsStored == 0 && bitStorage == 0)
          || (currentBitsStored == 2 && bitStorage < 4)
          || (currentBitsStored == 4 && bitStorage < 0x10)
    ensures pushed == Chars(Chunk(phase, bitStorage as int, ByteOf(byteVal)))
    ensures storage as int == NextLeft(phase, ByteOf(byteVal))
    ensures stored == PhaseBits(Following(phase))
  {
    pushed := [];
    storage, stored := bitStorage, currentBitsStored;
    assert stored <= 6;
    var newBitsPush: bv8 := 6 - stored;

    storage := storage << newBitsPush;
    storage := storage ^ (byteVal >> (8 - newBitsPush));
    storage := 0x3F & storage;
    assert stored <= 0xFF - newBitsPush;
    stored := stored + newBitsPush;

    pushed := pushed + [SymbolBits(storage)];
    assert stored >= 6;
    stored := stored - 6;
    var remainingBits: bv8 := 8 - newBitsPush;
    assert stored <= 0xFF - remainingBits;
    stored := stored + remainingBits;

    storage := storage << newBitsPush;
    storage := (byteVal << newBitsPush) >> newBitsPush;
    storage := 0x3F & storage;

    if stored >= 6 {
      pushed := pushed + [SymbolBits(storage)];
      storage := 0;
      stored := 0;
    }
    EncodeByteChunk(phase, bitStorage, currentBitsStored, byteVal, pushed, storage, stored);
  }

  /** What `EncodeByte` pushes and leaves are the byte's chunk and leftover
      bits at the position `currentBitsStored` stands for. */
  lemma EncodeByteChunk(phase: int, bitStorage: bv8, currentBitsStored: bv8, byteVal: bv8,
                        pushed: string, storage: bv8, stored: bv8)
    requires 0 <= phase < 3 && currentBitsStored == PhaseBits(phase)
    requires (currentBitsStored == 0 && bitStorage == 0)
          || (currentBitsStored == 2 && bitStorage < 4)
          || (currentBitsStored == 4 && bitStorage < 0x10)
    requires currentBitsStored == 0 ==>
      pushed == [SymbolBits(byteVal >> 2)] && storage == byteVal & 3 && stored == 2
    requires currentBitsStored == 2 ==>
      pushed == [SymbolBits((bitStorage << 4) | (byteVal >> 4))] && storage == byteVal & 0xF && stored == 4
    requires currentBitsStored == 4 ==>
      pushed == [SymbolBits((bitStorage << 2) | (byteVal >> 6)), SymbolBits(byteVal & 0x3F)]
      && storage == 0 && stored == 0
    ensures pushed == Chars(Chunk(phase, bitStorage as int, ByteOf(byteVal)))
    ensures storage as int == NextLeft(phase, ByteOf(byteVal))
    ensures stored == PhaseBits(Following(phase))
  {
    if currentBitsStored == 0 {
      IterationFirst(byteVal, pushed, storage);
    } else if currentBitsStored == 2 {
      IterationSecond(bitStorage, byteVal, pushed, storage);
    } else {
      IterationThird(bitStorage, byteVal, pushed);
    }
  }

  /** What the encoder's state holds after it has read `bytes[..i]`: the
      characters of the sextets completed so far, and the value and number
      of the bits not yet emitted. */
  predicate EncoderState(bytes: seq<byte>, i: int, out: string, bitStorage: bv8, currentBitsStored: bv8)
  {
    && 0 <= i <= |bytes|
    && currentBitsStored == PhaseBits(i % 3)
    && bitStorage as int == Leftover(bytes[..i])
    && out == Chars(Pushed(bytes[..i]))
  }

  /** In the encoder's state, the stored bits fit their count, as
      `EncodeByte` requires. */
  lemma EncoderStateBits(bytes: seq<byte>, i: int, out: string, bitStorage: bv8, currentBitsStored: bv8)
    requires EncoderState(bytes, i, out, bitStorage, currentBitsStored)
    ensures (currentBitsStored == 0 && bitStorage == 0)
         || (currentBitsStored == 2 && bitStorage < 4)
         || (currentBitsStored == 4 && bitStorage < 0x10)
  {
    var left := Leftover(bytes[..i]);
    assert i % 3 == 0 ==> left == 0;
    assert i % 3 == 1 ==> left < 4;
    assert i % 3 == 2 ==> left < 0x10;
  }

  /** One iteration of the loop, as `EncodeByte` states it, keeps the
      encoder's state. */
  lemma EncoderStep(bytes: seq<byte>, i: int, out: string, bitStorage: bv8, currentBitsStored: bv8,
                    pushed: string, storage: bv8, stored: bv8)
    requires EncoderState(bytes, i, out, bitStorage, currentBitsStored) && i < |bytes|
    requires var phase := i % 3;
      && pushed == Chars(Chunk(phase, bitStorage as int, ByteOf(bytes[i] as bv8)))
      && storage as int == NextLeft(phase, ByteOf(bytes[i] as bv8))
      && stored == PhaseBits(Following(phase))
    ensures EncoderState(bytes, i + 1, out + pushed, storage, stored)
  {
    NextPhase(i);
    ByteAsBits(bytes[i]);
    PushedStep(bytes, i);
    CharsAppend(Pushed(bytes[..i]), Chunk(i % 3, Leftover(bytes[..i]), bytes[i]));
  }

  /** After the last byte, the leftover bits, if any, give the last sextet of
      the reference encoding, and the source's padding count is right. */
  lemma EncoderEnd(bytes: seq<byte>, out: string, bitStorage: bv8, currentBitsStored: bv8)
    requires EncoderState(bytes, |bytes|, out, bitStorage, currentBitsStored)
    ensures (|bytes| * 8) % 3 == PaddingLength(|bytes|)
    ensures (|bytes| * 8) % 6 == 0 ==> out == Chars(Sextets(bytes))
    ensures (|bytes| * 8) % 6 != 0 ==>
      && (currentBitsStored == 2 || currentBitsStored == 4)
      && bitStorage << (6 - currentBitsStored) < 0x40
      && out + [SymbolBits(bitStorage << (6 - currentBitsStored))] == Chars(Sextets(bytes))
  {
    assert bytes[..|bytes|] == bytes;
    SextetsFromPushed(bytes);
    CharsAppend(Pushed(bytes), TailSextets(bytes));
    PaddingArithmetic(|bytes|);
    if |bytes| % 3 != 0 {
      EncoderStateBits(bytes, |bytes|, out, bitStorage, currentBitsStored);
      TailBits(bitStorage, currentBitsStored);
    }
  }

  /** The main loop: every byte in turn through `EncodeByte`, the output and
      the carried bits accumulating. */
  method EncodeBytes(bytes: seq<byte>) returns (out: string, bitStorage: bv8, currentBitsStored: bv8)
    ensures EncoderState(bytes, |bytes|, out, bitStorage, currentBitsStored)
  {
    out := [];
    currentBitsStored := 0;
    bitStorage := 0;
    var i := 0;
    while i < |bytes|
      invariant EncoderState(bytes, i, out, bitStorage, currentBitsStored)
      decreases |bytes| - i
    {
      EncoderStateBits(bytes, i, out, bitStorage, currentBitsStored);
      var pushed, storage, stored := EncodeByte(bitStorage, currentBitsStored, bytes[i] as bv8, i % 3);
      EncoderStep(bytes, i, out, bitStorage, currentBitsStored, pushed, storage, stored);
      out, bitStorage, currentBitsStored := out + pushed, storage, stored;
      i := i + 1;
    }
  }

  /** The padding loop: `count` times, push `=` onto `s`. */
  method PushPadding(s: string, count: nat) returns (r: string)
    ensures r == s + Padding(count)
  {
    r := s;
    var k := 0;
    while k < count
      invariant 0 <= k <= count
      invariant r == s + Padding(k)
    {
      assert Padding(k) + ['='] == Padding(k + 1);
      r := r + ['='];
      k := k + 1;
    }
  }

  /** The Base64 encoding of the UTF-8 bytes of `str`. `bitStorage` holds the
      bits of the current byte not yet emitted and `currentBitsStored` how
      many there are. */
  method Base64Encode(str: string) returns (base64Encoded: string)
    ensures base64Encoded == Encoding(Utf8.EncodeString(str))
  {
    var bytes := Utf8.EncodeString(str);
    var bitStorage, currentBitsStored;
    base64Encoded, bitStorage, currentBitsStored := EncodeBytes(bytes);
    EncoderEnd(bytes, base64Encoded, bitStorage, currentBitsStored);

    // The leftover bits, shifted to the top of a final sextet. The source's
    // `len() * 8` is a `usize`; here it is unbounded (see README, Left out).
    var padding := |bytes| * 8;
    if padding % 6 != 0 {
      bitStorage := bitStorage << (6 - currentBitsStored);
      base64Encoded := base64Encoded + [SymbolBits(bitStorage)];
    }
    // `=` padding
    base64Encoded := PushPadding(base64Encoded, (|bytes| * 8) % 3);
  }
}
