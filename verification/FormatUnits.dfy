/** The units of format strings by kind: how long a code point is, what digits and names are made of. */
module FormatUnits {
  import opened FormatSpec
  import Utf8

  // ---- Code points ------------------------------------------------------------------------------------

  /** The byte as a unit of a format string. */
  function UnitOf(b: Utf8.Byte): Unit
  {
    (b as int) as char
  }

  /** code_point_length: two bits of a constant for each five leading bits of the byte, and one. */
  function LengthBits(b: Utf8.Byte): bv64
  {
    ((0x3A55_0000_0000_0000 >> (2 * (b >> 3))) & 3) + 1
  }

  lemma UnitRange(b: Utf8.Byte, n: Utf8.Byte)
    ensures b < n <==> (b as int) < (n as int)
  {
  }

  /** The constant says how long a code point is by its first byte. */
  lemma LengthIsBits(b: Utf8.Byte)
    ensures LengthBits(b)
         == if 0xC0 <= b < 0xE0 then 2 else if 0xE0 <= b < 0xF0 then 3 else if 0xF0 <= b < 0xF8 then 4 else 1
  {
  }

  lemma CodePointLengthIs(b: Utf8.Byte)
    ensures CodePointLength(UnitOf(b)) as bv64 == LengthBits(b)
  {
    UnitRange(b, 0xC0);
    UnitRange(b, 0xE0);
    UnitRange(b, 0xF0);
    UnitRange(b, 0xF8);
    LengthIsBits(b);
    hide LengthBits;
  }

  /** A well-formed sequence is one code point, so a fill that is one code point is taken whole. */
  lemma WholeCodePoint(s: seq<Utf8.Byte>)
    requires Utf8.SequenceLength(s) > 0
    ensures CodePointLength(UnitOf(s[0])) == Utf8.SequenceLength(s)
  {
    UnitRange(s[0], 0xC0);
    UnitRange(s[0], 0xE0);
    UnitRange(s[0], 0xF0);
    UnitRange(s[0], 0xF8);
  }

  // ---- Digits and names ---------------------------------------------------------------------------------

  const DIGITS := "0123456789"
  const UPPER := "ABCDEFGHIJKLMNOPQRSTUVWXYZ"
  const LOWER := "abcdefghijklmnopqrstuvwxyz"

  /** A digit stands for its place in the row of digits. */
  lemma DigitTable(c: Unit)
    ensures IsDigit(c) <==> c in DIGITS
    ensures IsDigit(c) ==> DigitValue(c) < |DIGITS| && DIGITS[DigitValue(c)] == c
  {
  }

  /** A name starts with a letter or an underscore. */
  lemma NameTable(c: Unit)
    ensures IsNameStart(c) <==> c in UPPER || c in LOWER || c == '_'
  {
    UpperTable(c);
    LowerTable(c);
  }

  lemma UpperTable(c: Unit)
    ensures c in UPPER <==> 'A' <= c <= 'Z'
  {
    Row(UPPER, c);
  }

  lemma LowerTable(c: Unit)
    ensures c in LOWER <==> 'a' <= c <= 'z'
  {
    Row(LOWER, c);
  }

  /** A row of consecutive units holds all those between its ends. */
  lemma Row(row: Text, c: Unit)
    requires row != [] && forall i :: 0 <= i < |row| ==> row[i] as int == row[0] as int + i
    ensures c in row <==> row[0] <= c <= row[|row| - 1]
  {
    if row[0] <= c <= row[|row| - 1] {
      assert row[c as int - row[0] as int] == c;
    }
  }
}
