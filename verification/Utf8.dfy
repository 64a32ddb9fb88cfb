/** Bytes and the decoding of their first UTF-8 rune (RFC 3629, section 4). */
module Utf8 {

  type Byte = b: int | 0 <= b < 0x100

  /** What stands for undecodable input, with size 1; a genuine U+FFFD has size 3. */
  const RUNE_ERROR := 0xFFFD

  datatype Rune = Rune(code: int, size: nat)

  const INVALID := Rune(RUNE_ERROR, 1)

  predicate Continues(b: Byte) {
    0x80 <= b <= 0xBF
  }

  /** The payload of a byte that carries the given marker. */
  function Digit(b: Byte, marker: int): int {
    b - marker
  }

  function DecodeTwo(s: seq<Byte>): Rune
    requires |s| > 0 && 0xC2 <= s[0] <= 0xDF
  {
    if |s| < 2 || !Continues(s[1]) then INVALID
    else Rune(Digit(s[0], 0xC0) * 0x40 + Digit(s[1], 0x80), 2)
  }

  function DecodeThree(s: seq<Byte>): Rune
    requires |s| > 0 && 0xE0 <= s[0] <= 0xEF
  {
    var low := if s[0] == 0xE0 then 0xA0 else 0x80;
    var high := if s[0] == 0xED then 0x9F else 0xBF;
    if |s| < 3 || !(low <= s[1] <= high) || !Continues(s[2]) then INVALID
    else Rune(Digit(s[0], 0xE0) * 0x1000 + Digit(s[1], 0x80) * 0x40 + Digit(s[2], 0x80), 3)
  }

  function DecodeFour(s: seq<Byte>): Rune
    requires |s| > 0 && 0xF0 <= s[0] <= 0xF4
  {
    var low := if s[0] == 0xF0 then 0x90 else 0x80;
    var high := if s[0] == 0xF4 then 0x8F else 0xBF;
    if |s| < 4 || !(low <= s[1] <= high) || !Continues(s[2]) || !Continues(s[3]) then INVALID
    else Rune(Digit(s[0], 0xF0) * 0x40000 + Digit(s[1], 0x80) * 0x1000 + Digit(s[2], 0x80) * 0x40 + Digit(s[3], 0x80), 4)
  }

  function DecodeRune(s: seq<Byte>): (r: Rune)
    ensures r.size <= |s| && (s != [] ==> r.size >= 1)
    ensures r.code < 0x80 <==> s != [] && s[0] < 0x80
    ensures s != [] && s[0] < 0x80 ==> r == Rune(s[0], 1)
    ensures forall i :: 1 <= i < r.size ==> s[i] >= 0x80
  {
    if s == [] then Rune(RUNE_ERROR, 0)
    else if s[0] < 0x80 then Rune(s[0], 1)
    else if 0xC2 <= s[0] <= 0xDF then DecodeTwo(s)
    else if 0xE0 <= s[0] <= 0xEF then DecodeThree(s)
    else if 0xF0 <= s[0] <= 0xF4 then DecodeFour(s)
    else INVALID
  }

  // ----- Encoding -----

  predicate ScalarValue(c: int) {
    0 <= c < 0xD800 || 0xE000 <= c <= 0x10FFFF
  }

  /** The bytes of a character, by the ranges of its code point. */
  function Encode(c: int): seq<Byte>
    requires ScalarValue(c)
  {
    if c < 0x80 then [c]
    else if c < 0x800 then [0xC0 + c / 0x40, 0x80 + c % 0x40]
    else if c < 0x10000 then [0xE0 + c / 0x1000, 0x80 + c / 0x40 % 0x40, 0x80 + c % 0x40]
    else [0xF0 + c / 0x40000, 0x80 + c / 0x1000 % 0x40, 0x80 + c / 0x40 % 0x40, 0x80 + c % 0x40]
  }

  /** The groups of six bits that a code point consists of. */
  lemma Groups(c: int)
    requires 0 <= c
    ensures c == c / 0x40 * 0x40 + c % 0x40 && 0 <= c % 0x40 < 0x40
    ensures c / 0x40 == c / 0x1000 * 0x40 + c / 0x40 % 0x40 && 0 <= c / 0x40 % 0x40 < 0x40
    ensures c / 0x1000 == c / 0x40000 * 0x40 + c / 0x1000 % 0x40 && 0 <= c / 0x1000 % 0x40 < 0x40
  {}

  /** Groups of six bits are told apart. */
  lemma GroupsUnique(a: int, b: int, c: int, d: int)
    requires 0 <= a && 0 <= b < 0x40 && 0 <= c < 0x40 && 0 <= d < 0x40
    ensures var n := a * 0x40000 + b * 0x1000 + c * 0x40 + d;
      n / 0x40000 == a && n / 0x1000 % 0x40 == b && n / 0x40 % 0x40 == c && n % 0x40 == d
  {
    var n := a * 0x40000 + b * 0x1000 + c * 0x40 + d;
    assert n / 0x40 == a * 0x1000 + b * 0x40 + c;
    assert n / 0x1000 == a * 0x40 + b;
  }

  /** Every character decodes to itself, whatever follows it. */
  lemma DecodesEncoded(c: int, rest: seq<Byte>)
    requires ScalarValue(c)
    ensures DecodeRune(Encode(c) + rest) == Rune(c, |Encode(c)|)
  {
    if c >= 0x10000 {
      DecodesFour(c, rest);
    } else if c >= 0x800 {
      DecodesThree(c, rest);
    } else if c >= 0x80 {
      DecodesTwo(c, rest);
    }
  }

  lemma DecodesTwo(c: int, rest: seq<Byte>)
    requires 0x80 <= c < 0x800
    ensures DecodeRune(Encode(c) + rest) == Rune(c, 2)
  {
    Groups(c);
    var s := Encode(c) + rest;
    assert s[0] == 0xC0 + c / 0x40 && s[1] == 0x80 + c % 0x40;
    hide Encode;
  }

  lemma DecodesThree(c: int, rest: seq<Byte>)
    requires 0x800 <= c < 0x10000 && ScalarValue(c)
    ensures DecodeRune(Encode(c) + rest) == Rune(c, 3)
  {
    Groups(c);
    var s := Encode(c) + rest;
    assert s[0] == 0xE0 + c / 0x1000 && s[1] == 0x80 + c / 0x40 % 0x40 && s[2] == 0x80 + c % 0x40;
    hide Encode;
    ThreeDecode(s, c, c / 0x1000, c / 0x40 % 0x40, c % 0x40);
  }

  lemma ThreeDecode(s: seq<Byte>, c: int, x: int, y: int, z: int)
    requires |s| >= 3 && s[0] == 0xE0 + x && s[1] == 0x80 + y && s[2] == 0x80 + z
    requires 0 <= x < 0x10 && 0 <= y < 0x40 && 0 <= z < 0x40
    requires c == x * 0x1000 + y * 0x40 + z && 0x800 <= c && !(0xD800 <= c < 0xE000)
    ensures DecodeRune(s) == Rune(c, 3)
  {}

  lemma DecodesFour(c: int, rest: seq<Byte>)
    requires 0x10000 <= c <= 0x10FFFF
    ensures DecodeRune(Encode(c) + rest) == Rune(c, 4)
  {
    Groups(c);
    var s := Encode(c) + rest;
    assert s[0] == 0xF0 + c / 0x40000 && s[1] == 0x80 + c / 0x1000 % 0x40;
    assert s[2] == 0x80 + c / 0x40 % 0x40 && s[3] == 0x80 + c % 0x40;
    hide Encode;
    FourDecode(s, c, c / 0x40000, c / 0x1000 % 0x40, c / 0x40 % 0x40, c % 0x40);
  }

  lemma FourDecode(s: seq<Byte>, c: int, w: int, x: int, y: int, z: int)
    requires |s| >= 4 && s[0] == 0xF0 + w && s[1] == 0x80 + x && s[2] == 0x80 + y && s[3] == 0x80 + z
    requires 0 <= w && 0 <= x < 0x40 && 0 <= y < 0x40 && 0 <= z < 0x40
    requires c == w * 0x40000 + x * 0x1000 + y * 0x40 + z && 0x10000 <= c <= 0x10FFFF
    ensures DecodeRune(s) == Rune(c, 4)
  {}

  /** What decodes is the encoding of a character. */
  lemma DecodedIsEncoded(s: seq<Byte>)
    requires s != [] && DecodeRune(s) != INVALID
    ensures var rune := DecodeRune(s); ScalarValue(rune.code) && s[..rune.size] == Encode(rune.code)
  {
    if s[0] >= 0xF0 {
      FourEncoded(s);
    } else if s[0] >= 0xE0 {
      ThreeEncoded(s);
    } else if s[0] >= 0x80 {
      GroupsUnique(0, 0, s[0] - 0xC0, s[1] - 0x80);
    }
  }

  lemma ThreeEncoded(s: seq<Byte>)
    requires s != [] && 0xE0 <= s[0] <= 0xEF && DecodeThree(s) != INVALID
    ensures var rune := DecodeThree(s); ScalarValue(rune.code) && s[..rune.size] == Encode(rune.code)
  {
    GroupsUnique(0, s[0] - 0xE0, s[1] - 0x80, s[2] - 0x80);
  }

  lemma FourEncoded(s: seq<Byte>)
    requires s != [] && 0xF0 <= s[0] <= 0xF4 && DecodeFour(s) != INVALID
    ensures var rune := DecodeFour(s); ScalarValue(rune.code) && s[..rune.size] == Encode(rune.code)
  {
    GroupsUnique(s[0] - 0xF0, s[1] - 0x80, s[2] - 0x80, s[3] - 0x80);
  }

  /** A text starts with a character exactly when it decodes, and it is undecodable when it starts with none. */
  lemma DecodesIff(s: seq<Byte>, c: int)
    requires ScalarValue(c) && s != []
    ensures Encode(c) <= s <==> DecodeRune(s) == Rune(c, |Encode(c)|)
    ensures DecodeRune(s) == Rune(0xFFFD, 1) <==> forall k: int :: ScalarValue(k) ==> !(Encode(k) <= s)
  {
    hide DecodeRune, Encode;
    forall k: int | ScalarValue(k) && Encode(k) <= s ensures DecodeRune(s) == Rune(k, |Encode(k)|) && DecodeRune(s) != INVALID {
      assert s == Encode(k) + s[|Encode(k)|..];
      DecodesEncoded(k, s[|Encode(k)|..]);
      EncodedLength(k);
    }
    EncodedLength(c);
    if DecodeRune(s) != INVALID {
      DecodedIsEncoded(s);
    }
  }

  lemma EncodedLength(c: int)
    requires ScalarValue(c)
    ensures 1 <= |Encode(c)| <= 4 && (|Encode(c)| == 1 <==> c < 0x80)
  {}

  /** A decoded rune depends on its own bytes only. */
  lemma DecodeStable(s: seq<Byte>, t: seq<Byte>)
    requires s <= t && s != [] && DecodeRune(s) != INVALID
    ensures DecodeRune(t) == DecodeRune(s)
  {
    assert forall i :: 0 <= i < |s| ==> t[i] == s[i];
  }

  /** Whether every rune of the text is encoded. */
  predicate ValidUtf8(s: seq<Byte>)
    decreases |s|
  {
    s == [] || (DecodeRune(s) != INVALID && ValidUtf8(s[DecodeRune(s).size..]))
  }

  lemma {:induction false} ValidConcat(a: seq<Byte>, b: seq<Byte>)
    requires ValidUtf8(a) && ValidUtf8(b)
    ensures ValidUtf8(a + b)
    decreases |a|
  {
    if a == [] {
      assert a + b == b;
    } else {
      DecodeStable(a, a + b);
      var size := DecodeRune(a).size;
      assert (a + b)[size..] == a[size..] + b;
      ValidConcat(a[size..], b);
    }
  }

  lemma {:induction false} ValidSuffix(a: seq<Byte>, b: seq<Byte>)
    requires ValidUtf8(a) && ValidUtf8(a + b)
    ensures ValidUtf8(b)
    decreases |a|
  {
    if a == [] {
      assert a + b == b;
    } else {
      DecodeStable(a, a + b);
      var size := DecodeRune(a).size;
      assert (a + b)[size..] == a[size..] + b;
      ValidSuffix(a[size..], b);
    }
  }

  lemma SingleRune(s: seq<Byte>)
    requires s != [] && DecodeRune(s) != INVALID
    ensures ValidUtf8(s[..DecodeRune(s).size])
  {
    var size := DecodeRune(s).size;
    assert DecodeRune(s[..size]) == DecodeRune(s);
    assert s[..size][size..] == [];
  }

  /** The first position of a byte; negative if there is none. */
  method IndexByte(s: seq<Byte>, b: Byte) returns (index: int)
    ensures index < 0 ==> b !in s
    ensures index >= 0 ==> index < |s| && s[index] == b && b !in s[..index]
  {
    for i := 0 to |s|
      invariant b !in s[..i]
    {
      if s[i] == b {
        return i;
      }
    }
    return -1;
  }
}
