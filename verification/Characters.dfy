/** The bytes that the scanners tell apart, as characters. */
module Characters {
  import opened Utf8
  import opened TagTables
  import opened TagScanner

  /** The bytes of an ASCII text. */
  function Ascii(s: string): (r: seq<Byte>)
    requires forall i :: 0 <= i < |s| ==> s[i] < '\U{80}'
    ensures |r| == |s| && forall i :: 0 <= i < |s| ==> r[i] == s[i] as int
  {
    seq(|s|, i requires 0 <= i < |s| => s[i] as int)
  }

  predicate LetterOrDigit(b: Byte) {
    '0' <= b as char <= '9' || 'A' <= b as char <= 'Z' || 'a' <= b as char <= 'z'
  }

  lemma ClassesExact(b: Byte)
    ensures TagScanner.Digit(b) <==> '0' <= b as char <= '9'
    ensures HexDigit(b) <==> '0' <= b as char <= '9' || 'A' <= b as char <= 'F' || 'a' <= b as char <= 'f'
    ensures AlphaNumeric(b) <==> LetterOrDigit(b)
    ensures Punctuation(b) <==>
      '!' <= b as char <= '/' || ':' <= b as char <= '@' || '[' <= b as char <= '`' || '{' <= b as char <= '~'
  {}

  lemma SignsExact(b: Byte)
    ensures b == HASH <==> b as char == '#'
    ensures b == SLASH <==> b as char == '/'
    ensures b == BACKSLASH <==> b as char == '\\'
    ensures b == AMPERSAND <==> b as char == '&'
    ensures b == SEMICOLON <==> b as char == ';'
  {}

  /** Besides identifier characters a segment holds signs, and apostrophes, straight or curly, between letters. */
  lemma SegmentSignsExact(c: char)
    ensures SegmentSign(c as int) <==> c in ['&', '+', '-']
    ensures ApostropheJoiner(c as int) <==> c in ['\'', '\U{2019}']
  {}
}
