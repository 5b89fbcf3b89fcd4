/** Bytes as numbers and in letters, and what decoding a stream of characters yields. */
module Octets {
  import opened Powers

  type Byte = b: int | 0 <= b < 256

  const PAD: Byte := 61
  const INVALID := 0xFF

  /** Bytes decoded, and whether that ended in an exception. */
  datatype Decoded = Decoded(bytes: seq<Byte>, failed: bool)

  /** What reading a byte yields: the byte, the end of the stream or an exception. */
  datatype Read = Got(c: Byte) | Eof | Failure

  /** A character was read, the input is at its end, or it is malformed. */
  datatype Next = More | End | Bad

  /** The bytes before what is decoded from the rest. */
  function Before(data: seq<Byte>, rest: Decoded): Decoded
  {
    Decoded(data + rest.bytes, rest.failed)
  }

  lemma Associate(a: seq<Byte>, b: seq<Byte>, c: seq<Byte>)
    ensures a + (b + c) == (a + b) + c
  {
  }

  // ---- Bytes as numbers, and numbers in letters -----------------------------------------------------

  const UPPER := "ABCDEFGHIJKLMNOPQRSTUVWXYZ"
  const LOWER := "abcdefghijklmnopqrstuvwxyz"
  const DIGITS := "0123456789"

  // The letters and digits are numbered in the order of their codes.

  lemma UpperInOrder(i: nat)
    requires i < 26
    ensures UPPER[i] as int == 65 + i
  {
  }

  lemma LowerInOrder(i: nat)
    requires i < 26
    ensures LOWER[i] as int == 97 + i
  {
  }

  lemma DigitsInOrder(i: nat)
    requires i < 10
    ensures DIGITS[i] as int == 48 + i
  {
  }

  /** The code of a character, cast to a byte. */
  function Code(c: char): Byte
  {
    c as int % 256
  }

  /** The number whose digits to the base 256 are the bytes, the first one counting most. */
  function ByteNumber(data: seq<Byte>): nat
  {
    if data == [] then 0 else 256 * ByteNumber(data[..|data| - 1]) + data[|data| - 1]
  }

  /** The last n digits of x, written in the letters of an alphabet of as many letters as the base. */
  function Spelled(alphabet: string, x: nat, n: nat): (s: seq<Byte>)
    requires alphabet != []
    ensures |s| == n
    decreases n
  {
    if n == 0 then [] else Spelled(alphabet, x / |alphabet|, n - 1) + [Code(alphabet[x % |alphabet|])]
  }

  /** The number with this many zero bits behind it. */
  function Filled(x: nat, zeros: nat): nat
  {
    x * Pow(2, zeros)
  }

  lemma FilledIs(x: nat)
    ensures Filled(x, 0) == x && Filled(x, 1) == x * 2 && Filled(x, 2) == x * 4 && Filled(x, 3) == x * 8
    ensures Filled(x, 4) == x * 16
  {
    assert Pow(2, 1) == 2 && Pow(2, 2) == 4 && Pow(2, 3) == 8 && Pow(2, 4) == 16;
  }

  /** One more digit. */
  lemma SpelledStep(alphabet: string, x: nat, i: nat, n: nat)
    requires i < |alphabet|
    ensures Spelled(alphabet, x * |alphabet| + i, n + 1) == Spelled(alphabet, x, n) + [Code(alphabet[i])]
  {
    DivModIs(x * |alphabet| + i, |alphabet|, x, i);
  }

  lemma ByteNumberPush(data: seq<Byte>, b: Byte)
    ensures ByteNumber(data + [b]) == 256 * ByteNumber(data) + b
  {
    assert (data + [b])[..|data|] == data;
  }

  lemma OneOut(group: seq<Byte>, i: nat, more: Decoded)
    requires i < |group|
    ensures group[i..] + more.bytes == [group[i]] + (group[i + 1..] + more.bytes)
  {
    assert group[i..] == [group[i]] + group[i + 1..];
    Associate([group[i]], group[i + 1..], more.bytes);
  }

  lemma NothingBuffered(group: seq<Byte>, i: nat, more: Decoded)
    requires i == |group|
    ensures Before(group[i..], more) == more
  {
    assert group[i..] == [];
    assert [] + more.bytes == more.bytes;
  }
}
