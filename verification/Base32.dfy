/** Base32 stream encoding and decoding: section 6 of RFC 4648. */
module Base32 {
  import opened Octets

  // ---- The alphabet ---------------------------------------------------------------------------------

  /** The character for a value of five bits. */
  function Letter(idx: nat): (c: Byte)
    requires idx < 32
    ensures c != PAD
  {
    if idx < 26 then 65 + idx else 50 + (idx - 26)
  }

  /** The value of a character, 0 for the padding and INVALID for one outside the alphabet. */
  function ValueOf(c: Byte): (v: nat)
    ensures v < 32 || v == INVALID
  {
    if 65 <= c <= 90 then c - 65 else if 50 <= c <= 55 then c - 50 + 26 else if c == PAD then 0 else INVALID
  }

  lemma ValueOfLetter(idx: nat)
    requires idx < 32
    ensures ValueOf(Letter(idx)) == idx
  {
  }

  lemma LetterOfValue(c: Byte)
    requires c != PAD && ValueOf(c) != INVALID
    ensures Letter(ValueOf(c)) == c
  {
  }

  /** The reverse table, filled from the alphabet. */
  method InEncoding() returns (table: array<nat>)
    ensures fresh(table) && table.Length == 256 && forall c: Byte :: table[c] == ValueOf(c)
  {
    table := new nat[256](i => INVALID);
    for i := 0 to 32
      invariant forall c: Byte :: table[c] == if c != PAD && ValueOf(c) < i then ValueOf(c) else INVALID
    {
      ValueOfLetter(i);
      forall c: Byte | c != PAD && ValueOf(c) == i ensures c == Letter(i) {
        LetterOfValue(c);
      }
      table[Letter(i)] := i;
    }
    table[PAD] := 0;
  }

  /** The alphabet of table 3 in RFC 4648. */
  function Alphabet(): (a: string)
    ensures |a| == 32
  {
    UPPER + "234567"
  }

  lemma LetterTable(idx: nat)
    requires idx < 32
    ensures Letter(idx) == Code(Alphabet()[idx])
  {
    hide Letter, Code;
    RowAt(UPPER, "234567", idx);
    if idx < 26 {
      UpperInOrder(idx);
      LetterCode(idx, UPPER[idx]);
    } else {
      DigitsFromTwo(idx - 26);
      LetterCode(idx, "234567"[idx - 26]);
    }
  }

  lemma RowAt(a: string, b: string, i: nat)
    requires |a| == 26 && |b| == 6 && i < 32
    ensures (a + b)[i] == if i < 26 then a[i] else b[i - 26]
  {
  }

  lemma DigitsFromTwo(i: nat)
    requires i < 6
    ensures "234567"[i] as int == 50 + i
  {
  }

  lemma LetterCode(idx: nat, c: char)
    requires idx < 32 && c as int == if idx < 26 then 65 + idx else 50 + (idx - 26)
    ensures Letter(idx) == Code(c)
  {
  }

  // ---- What is written ------------------------------------------------------------------------------

  // The five-bit values of a group.

  function Index0(a: Byte): (i: nat)
    ensures i < 32
  {
    a / 8
  }

  function Index1(a: Byte, b: Byte): (i: nat)
    ensures i < 32
  {
    a % 8 * 4 + b / 64
  }

  function Index2(b: Byte): (i: nat)
    ensures i < 32
  {
    b % 64 / 2
  }

  function Index3(b: Byte, c: Byte): (i: nat)
    ensures i < 32
  {
    b % 2 * 16 + c / 16
  }

  function Index4(c: Byte, d: Byte): (i: nat)
    ensures i < 32
  {
    c % 16 * 2 + d / 128
  }

  function Index5(d: Byte): (i: nat)
    ensures i < 32
  {
    d % 128 / 4
  }

  function Index6(d: Byte, e: Byte): (i: nat)
    ensures i < 32
  {
    d % 4 * 8 + e / 32
  }

  function Index7(e: Byte): (i: nat)
    ensures i < 32
  {
    e % 32
  }

  /** The eight characters for five bytes. */
  function Octet(g: seq<Byte>): (q: seq<Byte>)
    requires |g| == 5
    ensures |q| == 8
  {
    [Letter(Index0(g[0])), Letter(Index1(g[0], g[1])), Letter(Index2(g[1])), Letter(Index3(g[1], g[2])),
     Letter(Index4(g[2], g[3])), Letter(Index5(g[3])), Letter(Index6(g[3], g[4])), Letter(Index7(g[4]))]
  }

  /** The output for whole groups. */
  function Groups(data: seq<Byte>): seq<Byte>
    requires |data| % 5 == 0
  {
    if data == [] then []
    else
      var n := |data| - 5;
      Groups(data[..n]) + Octet(data[n..])
  }

  function Zeros(rest: seq<Byte>): (g: seq<Byte>)
    requires |rest| <= 5
    ensures |g| == 5 && g[..|rest|] == rest && forall i :: |rest| <= i < 5 ==> g[i] == 0
  {
    rest + seq(5 - |rest|, i => 0)
  }

  /** How many characters n bytes need. */
  function Chars(n: nat): (k: nat)
    requires 1 <= n <= 5
    ensures 2 <= k <= 8
  {
    if n == 1 then 2 else if n == 2 then 4 else if n == 3 then 5 else if n == 4 then 7 else 8
  }

  function Padded(q: seq<Byte>): (r: seq<Byte>)
    requires |q| <= 8
    ensures |r| == 8 && r[..|q|] == q && forall i :: |q| <= i < 8 ==> r[i] == PAD
  {
    q + seq(8 - |q|, i => PAD)
  }

  /** The output for an incomplete group: its characters with zero bits filled in, and the padding. */
  function Tail(padding: bool, rest: seq<Byte>): seq<Byte>
    requires |rest| < 5
  {
    if rest == [] then []
    else
      var q := Octet(Zeros(rest))[..Chars(|rest|)];
      if padding then Padded(q) else q
  }

  function Whole(data: seq<Byte>): (n: nat)
    ensures n <= |data| && n % 5 == 0 && |data| - n < 5
  {
    |data| - |data| % 5
  }

  /** The complete output. */
  function Encode(padding: bool, data: seq<Byte>): seq<Byte>
  {
    Groups(data[..Whole(data)]) + Tail(padding, data[Whole(data)..])
  }

  lemma GroupAdded(data: seq<Byte>, group: seq<Byte>)
    requires |data| % 5 == 0 && |group| == 5
    ensures Groups(data + group) == Groups(data) + Octet(group)
  {
    var all := data + group;
    assert all[..|data|] == data && all[|data|..] == group;
  }

  lemma TailParts(padding: bool, rest: seq<Byte>)
    requires |rest| < 5
    ensures rest == [] ==> Tail(padding, rest) == []
    ensures rest != [] ==> var k := Chars(|rest|);
      Tail(padding, rest) == Octet(Zeros(rest))[..k] + if padding then seq(8 - k, i => PAD) else []
  {
  }

  /** The encoder as a stream buffer: a group of up to five bytes, written out when it is full. */
  class Base32Encoder {
    const padding: bool
    var group: seq<Byte>
    var out: seq<Byte>
    ghost var written: seq<Byte>

    ghost predicate Valid()
      reads this
    {
      |group| < 5 && |written| % 5 == 0 && out == Groups(written)
    }

    ghost function Input(): seq<Byte>
      reads this
    {
      written + group
    }

    constructor (padding: bool)
      ensures Valid() && this.padding == padding && Input() == []
    {
      this.padding := padding;
      group, out, written := [], [], [];
    }

    method WriteToDevice(c: Byte)
      requires Valid()
      modifies this
      ensures Valid() && Input() == old(Input()) + [c]
    {
      hide Octet;
      hide Groups;
      group := group + [c];
      if |group| == 5 {
        GroupAdded(written, group);
        PutGroup();
        written := written + group;
        group := [];
      }
    }

    /** One character. */
    method Put(idx: nat)
      requires idx < 32
      modifies this`out
      ensures out == old(out) + [Letter(idx)]
    {
      out := out + [Letter(idx)];
    }

    /** The eight characters of a full group. */
    method PutGroup()
      requires |group| == 5
      modifies this`out
      ensures out == old(out) + Octet(group)
    {
      hide Index0;
      hide Index1;
      hide Index2;
      hide Index3;
      hide Index4;
      hide Index5;
      hide Index6;
      hide Index7;
      hide Letter;
      Put(Index0(group[0]));
      Put(Index1(group[0], group[1]));
      Put(Index2(group[1]));
      Put(Index3(group[1], group[2]));
      Put(Index4(group[2], group[3]));
      Put(Index5(group[3]));
      Put(Index6(group[3], group[4]));
      Put(Index7(group[4]));
    }

    /** Writes out what is left of the last group. */
    method Close()
      requires Valid()
      modifies this
      ensures out == Encode(padding, old(Input())) && group == []
    {
      hide Tail;
      hide Groups;
      ghost var data := Input();
      assert data[..Whole(data)] == written && data[Whole(data)..] == group;
      PutTail();
      group := [];
    }

    method PutTail()
      requires |group| < 5
      modifies this`out
      ensures out == old(out) + Tail(padding, group)
    {
      TailParts(padding, group);
      hide Octet;
      hide Tail;
      if |group| == 1 {
        PutTail1();
        PutPadding(6);
      } else if |group| == 2 {
        PutTail2();
        PutPadding(4);
      } else if |group| == 3 {
        PutTail3();
        PutPadding(3);
      } else if |group| == 4 {
        PutTail4();
        PutPadding(1);
      }
    }

    method PutPadding(n: nat)
      modifies this`out
      ensures out == old(out) + if padding then seq(n, i => PAD) else []
    {
      if padding {
        for i := 0 to n
          invariant out == old(out) + seq(i, j => PAD)
        {
          out := out + [PAD];
        }
      }
    }

    method PutTail1()
      requires |group| == 1
      modifies this`out
      ensures out == old(out) + Octet(Zeros(group))[..2]
    {
      hide Index0;
      hide Index1;
      hide Index2;
      hide Index3;
      hide Index4;
      hide Index5;
      hide Index6;
      hide Index7;
      hide Letter;
      hide Zeros;
      Put(Index0(group[0]));
      Put(Index1(group[0], 0));
      assert Zeros(group)[..1] == group;
      assert forall i :: 0 <= i < 1 ==> Zeros(group)[i] == group[i];
    }

    method PutTail2()
      requires |group| == 2
      modifies this`out
      ensures out == old(out) + Octet(Zeros(group))[..4]
    {
      hide Index0;
      hide Index1;
      hide Index2;
      hide Index3;
      hide Index4;
      hide Index5;
      hide Index6;
      hide Index7;
      hide Letter;
      hide Zeros;
      Put(Index0(group[0]));
      Put(Index1(group[0], group[1]));
      Put(Index2(group[1]));
      Put(Index3(group[1], 0));
      assert Zeros(group)[..2] == group;
      assert forall i :: 0 <= i < 2 ==> Zeros(group)[i] == group[i];
    }

    method PutTail3()
      requires |group| == 3
      modifies this`out
      ensures out == old(out) + Octet(Zeros(group))[..5]
    {
      hide Index0;
      hide Index1;
      hide Index2;
      hide Index3;
      hide Index4;
      hide Index5;
      hide Index6;
      hide Index7;
      hide Letter;
      hide Zeros;
      Put(Index0(group[0]));
      Put(Index1(group[0], group[1]));
      Put(Index2(group[1]));
      Put(Index3(group[1], group[2]));
      Put(Index4(group[2], 0));
      assert Zeros(group)[..3] == group;
      assert forall i :: 0 <= i < 3 ==> Zeros(group)[i] == group[i];
    }

    method PutTail4()
      requires |group| == 4
      modifies this`out
      ensures out == old(out) + Octet(Zeros(group))[..7]
    {
      hide Index0;
      hide Index1;
      hide Index2;
      hide Index3;
      hide Index4;
      hide Index5;
      hide Index6;
      hide Index7;
      hide Letter;
      hide Zeros;
      Put(Index0(group[0]));
      Put(Index1(group[0], group[1]));
      Put(Index2(group[1]));
      Put(Index3(group[1], group[2]));
      Put(Index4(group[2], group[3]));
      Put(Index5(group[3]));
      Put(Index6(group[3], 0));
      assert Zeros(group)[..4] == group;
      assert forall i :: 0 <= i < 4 ==> Zeros(group)[i] == group[i];
    }
  }

  // ---- The output as a numeral ------------------------------------------------------------------------

  /** The five-bit values of a group. */
  function Indices(g: seq<Byte>): (v: seq<nat>)
    requires |g| == 5
    ensures |v| == 8 && forall i :: 0 <= i < 8 ==> v[i] < 32
  {
    [Index0(g[0]), Index1(g[0], g[1]), Index2(g[1]), Index3(g[1], g[2]), Index4(g[2], g[3]), Index5(g[3]),
     Index6(g[3], g[4]), Index7(g[4])]
  }

  function Letters(v: seq<nat>): (q: seq<Byte>)
    requires forall i :: 0 <= i < |v| ==> v[i] < 32
    ensures |q| == |v|
  {
    seq(|v|, i requires 0 <= i < |v| => Letter(v[i]))
  }

  /** The number with the digits v to the base 32 behind those of x. */
  function Digits32(x: nat, v: seq<nat>): nat
  {
    if v == [] then x else 32 * Digits32(x, v[..|v| - 1]) + v[|v| - 1]
  }

  lemma {:induction false} LettersSpelled(x: nat, n: nat, v: seq<nat>)
    requires forall i :: 0 <= i < |v| ==> v[i] < 32
    ensures Spelled(Alphabet(), Digits32(x, v), n + |v|) == Spelled(Alphabet(), x, n) + Letters(v)
  {
    hide Letter, Alphabet, Spelled;
    if v == [] {
      assert Spelled(Alphabet(), x, n) + [] == Spelled(Alphabet(), x, n);
    } else {
      var k := |v| - 1;
      LettersSpelled(x, n, v[..k]);
      LetterTable(v[k]);
      SpelledStep(Alphabet(), Digits32(x, v[..k]), v[k], n + k);
      assert Letters(v) == Letters(v[..k]) + [Letter(v[k])];
      Associate(Spelled(Alphabet(), x, n), Letters(v[..k]), [Letter(v[k])]);
    }
  }

  /** How many letters n bytes take: five bits a letter. */
  function LetterCount(n: nat): (m: nat)
    ensures 5 * m - 5 < 8 * n <= 5 * m
  {
    (8 * n + 4) / 5
  }

  /** The data's bits with zeros up to a whole letter, as a numeral to the base 32. */
  function Spelling(data: seq<Byte>): (s: seq<Byte>)
    ensures |s| == LetterCount(|data|)
  {
    var m := LetterCount(|data|);
    Spelled(Alphabet(), Filled(ByteNumber(data), 5 * m - 8 * |data|), m)
  }

  /** Padding to whole groups of eight characters. */
  function Padding(padding: bool, letters: nat): seq<Byte>
  {
    if padding then seq((8 - letters % 8) % 8, i => PAD) else []
  }

  lemma OctetLetters(g: seq<Byte>)
    requires |g| == 5
    ensures Octet(g) == Letters(Indices(g))
  {
    hide Letter, Index0, Index1, Index2, Index3, Index4, Index5, Index6, Index7;
  }

  // The number with the values of a group behind it, byte by byte.

  lemma ByteA(x: nat, a: Byte, b: Byte)
    ensures 32 * (32 * x + Index0(a)) + Index1(a, b) == 4 * (256 * x + a) + b / 64
  {
  }

  lemma ByteB(x: nat, b: Byte, c: Byte)
    ensures 32 * (32 * (4 * x + b / 64) + Index2(b)) + Index3(b, c) == 16 * (256 * x + b) + c / 16
  {
  }

  lemma ByteC(x: nat, c: Byte, d: Byte)
    ensures 32 * (16 * x + c / 16) + Index4(c, d) == 2 * (256 * x + c) + d / 128
  {
  }

  lemma ByteD(x: nat, d: Byte, e: Byte)
    ensures 32 * (32 * (2 * x + d / 128) + Index5(d)) + Index6(d, e) == 8 * (256 * x + d) + e / 32
  {
  }

  lemma ByteE(x: nat, e: Byte)
    ensures 32 * (8 * x + e / 32) + Index7(e) == 256 * x + e
  {
  }

  lemma DigitsStep(x: nat, v: seq<nat>, k: nat)
    requires k < |v|
    ensures Digits32(x, v[..k + 1]) == 32 * Digits32(x, v[..k]) + v[k]
  {
    assert v[..k + 1][..k] == v[..k];
  }

  /** The number after the first values of a group, where its bytes end. */
  lemma GroupDigits(x: nat, g: seq<Byte>)
    requires |g| == 5
    ensures var v, x1 := Indices(g), 256 * x + g[0];
      var x2 := 256 * x1 + g[1];
      var x3 := 256 * x2 + g[2];
      var x4 := 256 * x3 + g[3];
      && Digits32(x, v[..2]) == 4 * x1 + g[1] / 64 && Digits32(x, v[..4]) == 16 * x2 + g[2] / 16
      && Digits32(x, v[..5]) == 2 * x3 + g[3] / 128 && Digits32(x, v[..7]) == 8 * x4 + g[4] / 32
      && Digits32(x, v) == 256 * x4 + g[4]
  {
    var v := Indices(g);
    assert v[..8] == v && v[..0] == [];
    hide Digits32, Index0, Index1, Index2, Index3, Index4, Index5, Index6, Index7;
    NoDigits(x);
    DigitsStep(x, v, 0);
    DigitsStep(x, v, 1);
    DigitsStep(x, v, 2);
    DigitsStep(x, v, 3);
    DigitsStep(x, v, 4);
    DigitsStep(x, v, 5);
    DigitsStep(x, v, 6);
    DigitsStep(x, v, 7);
    var x1 := 256 * x + g[0];
    var x2 := 256 * x1 + g[1];
    var x3 := 256 * x2 + g[2];
    ByteA(x, g[0], g[1]);
    ByteB(x1, g[1], g[2]);
    ByteC(x2, g[2], g[3]);
    ByteD(x3, g[3], g[4]);
    ByteE(256 * x3 + g[3], g[4]);
  }

  lemma NoDigits(x: nat)
    ensures Digits32(x, []) == x
  {
  }

  /** The number of bytes behind others. */
  function Behind(x: nat, rest: seq<Byte>): nat
  {
    if rest == [] then x else 256 * Behind(x, rest[..|rest| - 1]) + rest[|rest| - 1]
  }

  lemma {:induction false} NumberBehind(d: seq<Byte>, rest: seq<Byte>)
    ensures ByteNumber(d + rest) == Behind(ByteNumber(d), rest)
  {
    if rest == [] {
      assert d + rest == d;
    } else {
      var k := |rest| - 1;
      NumberBehind(d, rest[..k]);
      ByteNumberPush(d + rest[..k], rest[k]);
      assert d + rest == (d + rest[..k]) + [rest[k]];
    }
  }

  lemma BehindStep(x: nat, rest: seq<Byte>, k: nat)
    requires k < |rest|
    ensures Behind(x, rest[..k + 1]) == 256 * Behind(x, rest[..k]) + rest[k]
  {
    assert rest[..k + 1][..k] == rest[..k];
  }

  /** How many letters an incomplete group takes and how many zero bits are filled in. */
  lemma Counts(n: nat, k: nat, r: nat)
    requires n == 5 * k && 1 <= r <= 5
    ensures LetterCount(n) == 8 * k && LetterCount(n + r) == 8 * k + Chars(r)
    ensures 5 * Chars(r) - 8 * r
         == if r == 1 then 2 else if r == 2 then 4 else if r == 3 then 1 else if r == 4 then 3 else 0
  {
  }

  /** The first values of a group hold its bytes, zeros filled in. */
  lemma TailDigits(x: nat, rest: seq<Byte>)
    requires 1 <= |rest| <= 5
    ensures var r := |rest|;
      Digits32(x, Indices(Zeros(rest))[..Chars(r)]) == Filled(Behind(x, rest), 5 * Chars(r) - 8 * r)
  {
    hide Digits32, Indices, Zeros, Behind, Filled;
    var r, g := |rest|, Zeros(rest);
    assert forall i :: 0 <= i < r ==> g[i] == g[..r][i] == rest[i];
    GroupDigits(x, g);
    FilledIs(Behind(x, rest));
    Counts(0, 0, r);
    BehindAll(x, rest);
    assert Indices(g)[..8] == Indices(g);
  }

  lemma BehindAll(x: nat, rest: seq<Byte>)
    requires 1 <= |rest| <= 5
    ensures var x1 := 256 * x + rest[0];
      && (|rest| == 1 ==> Behind(x, rest) == x1)
      && (|rest| == 2 ==> Behind(x, rest) == 256 * x1 + rest[1])
      && (|rest| == 3 ==> Behind(x, rest) == 256 * (256 * x1 + rest[1]) + rest[2])
      && (|rest| == 4 ==> Behind(x, rest) == 256 * (256 * (256 * x1 + rest[1]) + rest[2]) + rest[3])
      && (|rest| == 5 ==>
            Behind(x, rest) == 256 * (256 * (256 * (256 * x1 + rest[1]) + rest[2]) + rest[3]) + rest[4])
  {
    assert rest[..|rest|] == rest && rest[..0] == [];
    NoneBehind(x);
    hide Behind;
    BehindStep(x, rest, 0);
    if |rest| > 1 {
      BehindStep(x, rest, 1);
    }
    if |rest| > 2 {
      BehindStep(x, rest, 2);
    }
    if |rest| > 3 {
      BehindStep(x, rest, 3);
    }
    if |rest| > 4 {
      BehindStep(x, rest, 4);
    }
  }

  lemma NoneBehind(x: nat)
    ensures Behind(x, []) == x
  {
  }

  lemma WholeSpelling(d: seq<Byte>, k: nat)
    requires |d| == 5 * k
    ensures Spelling(d) == Spelled(Alphabet(), ByteNumber(d), 8 * k)
  {
    Counts(|d|, k, 1);
    FilledIs(ByteNumber(d));
    hide Filled, ByteNumber, Spelled, LetterCount, Alphabet;
  }

  /** The letters of one more group, complete or not, follow those of the groups before it. */
  lemma TailSpelled(d: seq<Byte>, rest: seq<Byte>, k: nat)
    requires |d| == 5 * k && 1 <= |rest| <= 5
    ensures Spelling(d + rest) == Spelling(d) + Octet(Zeros(rest))[..Chars(|rest|)]
    ensures |Spelling(d + rest)| == 8 * k + Chars(|rest|)
  {
    hide Octet, Zeros, Chars, Indices, Digits32, Filled, Behind, ByteNumber, Spelled, Alphabet, LetterCount, Letter;
    var r, x, v := |rest|, ByteNumber(d), Indices(Zeros(rest));
    Counts(|d|, k, r);
    WholeSpelling(d, k);
    NumberBehind(d, rest);
    TailDigits(x, rest);
    var c := Chars(r);
    LettersSpelled(x, 8 * k, v[..c]);
    OctetLetters(Zeros(rest));
    assert Letters(v)[..c] == Letters(v[..c]);
  }

  lemma PaddingIs(padding: bool, k: nat, c: nat)
    requires 1 <= c <= 8
    ensures Padding(padding, 8 * k) == [] && Padding(padding, 8 * k + c) == if padding then seq(8 - c, i => PAD) else []
  {
  }

  lemma {:induction false} GroupsSpell(d: seq<Byte>, k: nat)
    requires |d| == 5 * k
    ensures |d| % 5 == 0 && Groups(d) == Spelling(d) && |Spelling(d)| == 8 * k
    decreases k
  {
    hide Octet, Spelling, Groups, LetterCount, Chars;
    WholeSpelling(d, k);
    if k == 0 {
      NoGroups(d);
    } else {
      var n := 5 * (k - 1);
      GroupsSpell(d[..n], k - 1);
      TailSpelled(d[..n], d[n..], k - 1);
      FullGroup(d[n..]);
      GroupAdded(d[..n], d[n..]);
      assert d == d[..n] + d[n..];
    }
  }

  lemma NoGroups(d: seq<Byte>)
    requires d == []
    ensures Groups(d) == []
  {
  }

  lemma FullGroup(g: seq<Byte>)
    requires |g| == 5
    ensures Octet(Zeros(g))[..Chars(5)] == Octet(g)
  {
    hide Octet;
    assert Zeros(g) == g;
  }

  /** The complete output is the data's bits as a numeral in the alphabet, zeros filled in, and padding. */
  lemma EncodeSpells(padding: bool, data: seq<Byte>)
    ensures Encode(padding, data) == Spelling(data) + Padding(padding, |Spelling(data)|)
  {
    hide Whole, Groups, Tail, Spelling, LetterCount, Padding;
    var k := |data| / 5;
    WholeIs(data);
    assert data == data[..5 * k] + data[5 * k..];
    PartsSpell(padding, data[..5 * k], data[5 * k..], k);
  }

  lemma WholeIs(data: seq<Byte>)
    ensures Whole(data) == 5 * (|data| / 5)
  {
  }

  lemma PartsSpell(padding: bool, d: seq<Byte>, rest: seq<Byte>, k: nat)
    requires |d| == 5 * k && |d| % 5 == 0 && |rest| < 5
    ensures Groups(d) + Tail(padding, rest) == Spelling(d + rest) + Padding(padding, |Spelling(d + rest)|)
  {
    hide Groups, Tail, Spelling, LetterCount, Octet, Zeros, Padding, Chars;
    GroupsSpell(d, k);
    TailParts(padding, rest);
    PaddingIs(padding, k, 8);
    if rest == [] {
      assert d + rest == d;
    } else {
      var c := Chars(|rest|);
      TailSpelled(d, rest, k);
      PaddingIs(padding, k, c);
      Associate(Spelling(d), Octet(Zeros(rest))[..c], Padding(padding, 8 * k + c));
    }
  }

  // ---- What is read ---------------------------------------------------------------------------------

  predicate AllValid(q: seq<Byte>)
  {
    forall i :: 0 <= i < |q| ==> ValueOf(q[i]) != INVALID
  }

  // The bytes of a group of five-bit values.

  function Byte0(v0: nat, v1: nat): Byte
    requires v0 < 32 && v1 < 32
  {
    v0 * 8 % 256 + v1 / 4
  }

  function Byte1(v1: nat, v2: nat, v3: nat): Byte
    requires v1 < 32 && v2 < 32 && v3 < 32
  {
    v1 % 4 * 64 + v2 * 2 + v3 / 16
  }

  function Byte2(v3: nat, v4: nat): Byte
    requires v3 < 32 && v4 < 32
  {
    v3 % 16 * 16 + v4 / 2
  }

  function Byte3(v4: nat, v5: nat, v6: nat): Byte
    requires v4 < 32 && v5 < 32 && v6 < 32
  {
    v4 % 2 * 128 + v5 * 4 + v6 / 8
  }

  function Byte4(v6: nat, v7: nat): Byte
    requires v6 < 32 && v7 < 32
  {
    v6 % 8 * 32 + v7
  }

  /** The five bytes of a group of eight characters. */
  function FiveBytes(q: seq<Byte>): (g: seq<Byte>)
    requires |q| == 8 && AllValid(q)
    ensures |g| == 5
  {
    [Byte0(ValueOf(q[0]), ValueOf(q[1])), Byte1(ValueOf(q[1]), ValueOf(q[2]), ValueOf(q[3])),
     Byte2(ValueOf(q[3]), ValueOf(q[4])), Byte3(ValueOf(q[4]), ValueOf(q[5]), ValueOf(q[6])),
     Byte4(ValueOf(q[6]), ValueOf(q[7]))]
  }

  /** How many of them count, told by the padding. */
  function GroupLength(q: seq<Byte>): (n: nat)
    requires |q| == 8
    ensures 1 <= n <= 5
  {
    if q[2] == PAD then 1 else if q[4] == PAD then 2 else if q[5] == PAD then 3 else if q[7] == PAD then 4 else 5
  }

  function Bytes(q: seq<Byte>): (r: seq<Byte>)
    requires |q| == 8 && AllValid(q)
    ensures 1 <= |r| <= 5
  {
    FiveBytes(q)[..GroupLength(q)]
  }

  /** The characters of the next group: eight, or what there is. */
  function Chunk(s: seq<Byte>): (q: seq<Byte>)
    ensures |q| <= 8 && q <= s && (s != [] ==> q != [])
  {
    if |s| <= 8 then s else s[..8]
  }

  /** The lengths a last group may have. */
  predicate LengthOk(n: nat)
  {
    n == 2 || n == 4 || n == 5 || n == 7 || n == 8
  }

  lemma PaddedValid(q: seq<Byte>)
    requires |q| <= 8 && AllValid(q)
    ensures AllValid(Padded(q))
  {
    forall i | 0 <= i < 8 ensures ValueOf(Padded(q)[i]) != INVALID {
      if i < |q| {
        assert Padded(q)[..|q|][i] == q[i];
      }
    }
  }

  /** All bytes decoded from s. */
  function Decode(s: seq<Byte>): Decoded
    decreases |s|
  {
    var q := Chunk(s);
    if q == [] then Decoded([], false)
    else if !AllValid(q) || !LengthOk(|q|) then Decoded([], true)
    else
      PaddedValid(q);
      Before(Bytes(Padded(q)), Decode(s[|q|..]))
  }

  /** The decoder as a stream buffer over an input that it consumes. */
  class Base32Decoder {
    var input: seq<Byte>
    var group: seq<Byte>
    var groupIndex: nat

    ghost predicate Valid()
      reads this
    {
      groupIndex <= |group|
    }

    /** All that is still to come out. */
    ghost function Rest(): Decoded
      reads this
      requires Valid()
    {
      Before(group[groupIndex..], Decode(input))
    }

    constructor (input: seq<Byte>)
      ensures Valid() && Rest() == Decode(input)
    {
      this.input := input;
      group, groupIndex := [], 0;
    }

    /** The next byte: from the group at hand, or from the next one in the input. */
    method ReadFromDevice() returns (r: Read)
      requires Valid()
      modifies this
      ensures Valid()
      ensures r.Got? ==> old(Rest()) == Decoded([r.c] + Rest().bytes, Rest().failed)
      ensures r.Eof? ==> old(Rest()) == Decoded([], false)
      ensures r.Failure? ==> old(Rest()) == Decoded([], true)
    {
      hide FiveBytes;
      hide GroupLength;
      hide Decode;
      if groupIndex < |group| {
        r := Got(group[groupIndex]);
        OneOut(group, groupIndex, Decode(input));
        groupIndex := groupIndex + 1;
        return;
      }
      NothingBuffered(group, groupIndex, Decode(input));
      var q, next := ReadGroup();
      if next == Bad {
        return Failure;
      }
      if next == End {
        return Eof;
      }
      group := FiveBytes(q)[..GroupLength(q)];
      groupIndex := 1;
      OneOut(group, 0, Decode(input));
      assert group[0..] == group;
      return Got(group[0]);
    }

    /** One more character of the group that starts at s, of which q has been read. */
    method ReadNext(ghost s: seq<Byte>, q: seq<Byte>) returns (r: seq<Byte>, next: Next)
      requires |q| < 8 && q + input == s && AllValid(q)
      modifies this`input
      ensures next == More ==> |r| == |q| + 1 && r + input == s && AllValid(r)
      ensures next == End ==> r == q == s && input == []
      ensures next == Bad ==> Decode(s) == Decoded([], true)
    {
      hide ValueOf;
      if input == [] {
        assert q + [] == q;
        return q, End;
      }
      var c := input[0];
      assert s[|q|] == c && q + input == (q + [c]) + input[1..];
      input := input[1..];
      r := q + [c];
      if ValueOf(c) == INVALID {
        assert Chunk(s)[|q|] == c;
        return r, Bad;
      }
      return r, More;
    }

    /** The characters of a group, filled up with padding where the input ends within it. */
    method ReadGroup() returns (q: seq<Byte>, next: Next)
      modifies this`input
      ensures next == Bad ==> Decode(old(input)) == Decoded([], true)
      ensures next == End ==> Decode(old(input)) == Decoded([], false)
      ensures next == More ==> |q| == 8 && AllValid(q) && Decode(old(input)) == Before(Bytes(q), Decode(input))
    {
      hide Bytes;
      hide ValueOf;
      hide Padded;
      ghost var s := input;
      assert [] + s == s;
      q, next := ReadNext(s, []);
      if next != More {
        return;
      }
      q, next := ReadNext(s, q);
      if next != More {
        return q, Bad;
      }
      q, next := ReadNext(s, q);
      if next != More {
        q, next := EndGroup(s, q, next);
        return;
      }
      q, next := ReadNext(s, q);
      if next != More {
        return q, Bad;
      }
      q, next := ReadNext(s, q);
      if next != More {
        q, next := EndGroup(s, q, next);
        return;
      }
      q, next := ReadNext(s, q);
      if next != More {
        q, next := EndGroup(s, q, next);
        return;
      }
      q, next := ReadNext(s, q);
      if next != More {
        return q, Bad;
      }
      q, next := ReadNext(s, q);
      if next != More {
        q, next := EndGroup(s, q, next);
        return;
      }
      q, next := EndGroup(s, q, End);
    }

    /** The end of a group: after eight characters, or where the input may end, or at an invalid character. */
    method EndGroup(ghost s: seq<Byte>, q: seq<Byte>, last: Next) returns (r: seq<Byte>, next: Next)
      requires last != More && (last == Bad ==> Decode(s) == Decoded([], true))
      requires last == End ==> |q| <= 8 && LengthOk(|q|) && q + input == s && (|q| < 8 ==> input == []) && AllValid(q)
      ensures next == if last == Bad then Bad else More
      ensures next == Bad ==> Decode(s) == Decoded([], true)
      ensures next == More ==> |r| == 8 && AllValid(r) && Decode(s) == Before(Bytes(r), Decode(input))
    {
      hide Bytes;
      hide ValueOf;
      if last == Bad {
        return q, Bad;
      }
      assert q == s[..|q|] && input == s[|q|..];
      PaddedValid(q);
      assert Chunk(s) == q;
      return Padded(q), More;
    }
  }

  // ---- The round trip -------------------------------------------------------------------------------

  lemma LowPart(high: nat, low: nat, n: nat)
    requires low < n && (n == 2 || n == 4 || n == 8 || n == 16)
    ensures (high * n + low) % n == low && (high * n + low) / n == high
  {
  }

  // The bytes come back from their five-bit values.

  lemma Back0(a: Byte, b: Byte)
    ensures Byte0(Index0(a), Index1(a, b)) == a
  {
    LowPart(a % 8, b / 64, 4);
  }

  lemma Back1(a: Byte, b: Byte, c: Byte)
    ensures Byte1(Index1(a, b), Index2(b), Index3(b, c)) == b
  {
    LowPart(a % 8, b / 64, 4);
    LowPart(b % 2, c / 16, 16);
  }

  lemma Back2(b: Byte, c: Byte, d: Byte)
    ensures Byte2(Index3(b, c), Index4(c, d)) == c
  {
    LowPart(b % 2, c / 16, 16);
    LowPart(c % 16, d / 128, 2);
  }

  lemma Back3(c: Byte, d: Byte, e: Byte)
    ensures Byte3(Index4(c, d), Index5(d), Index6(d, e)) == d
  {
    LowPart(c % 16, d / 128, 2);
    LowPart(d % 4, e / 32, 8);
  }

  lemma Back4(d: Byte, e: Byte)
    ensures Byte4(Index6(d, e), Index7(e)) == e
  {
    LowPart(d % 4, e / 32, 8);
  }

  /** The characters of a group stand for its bytes. */
  lemma OctetBytes(g: seq<Byte>)
    requires |g| == 5
    ensures AllValid(Octet(g)) && FiveBytes(Octet(g)) == g
    ensures forall i :: 0 <= i < 8 ==> Octet(g)[i] != PAD
  {
    hide Index0;
    hide Index1;
    hide Index2;
    hide Index3;
    hide Index4;
    hide Index5;
    hide Index6;
    hide Index7;
    hide Letter;
    hide Byte0;
    hide Byte1;
    hide Byte2;
    hide Byte3;
    hide Byte4;
    ValueOfLetter(Index0(g[0]));
    ValueOfLetter(Index1(g[0], g[1]));
    ValueOfLetter(Index2(g[1]));
    ValueOfLetter(Index3(g[1], g[2]));
    ValueOfLetter(Index4(g[2], g[3]));
    ValueOfLetter(Index5(g[3]));
    ValueOfLetter(Index6(g[3], g[4]));
    ValueOfLetter(Index7(g[4]));
    Back0(g[0], g[1]);
    Back1(g[0], g[1], g[2]);
    Back2(g[1], g[2], g[3]);
    Back3(g[2], g[3], g[4]);
    Back4(g[3], g[4]);
  }

  // The number that a group of values stands for, byte by byte.

  lemma ValueA(x: nat, v0: nat, v1: nat)
    requires v0 < 32 && v1 < 32
    ensures 32 * (32 * x + v0) + v1 == 4 * (256 * x + Byte0(v0, v1)) + v1 % 4
  {
  }

  lemma ValueB(x: nat, v1: nat, v2: nat, v3: nat)
    requires v1 < 32 && v2 < 32 && v3 < 32
    ensures 32 * (32 * (4 * x + v1 % 4) + v2) + v3 == 16 * (256 * x + Byte1(v1, v2, v3)) + v3 % 16
  {
  }

  lemma ValueC(x: nat, v3: nat, v4: nat)
    requires v3 < 32 && v4 < 32
    ensures 32 * (16 * x + v3 % 16) + v4 == 2 * (256 * x + Byte2(v3, v4)) + v4 % 2
  {
  }

  lemma ValueD(x: nat, v4: nat, v5: nat, v6: nat)
    requires v4 < 32 && v5 < 32 && v6 < 32
    ensures 32 * (32 * (2 * x + v4 % 2) + v5) + v6 == 8 * (256 * x + Byte3(v4, v5, v6)) + v6 % 8
  {
  }

  lemma ValueE(x: nat, v6: nat, v7: nat)
    requires v6 < 32 && v7 < 32
    ensures 32 * (8 * x + v6 % 8) + v7 == 256 * x + Byte4(v6, v7)
  {
  }

  function Values(q: seq<Byte>): (v: seq<nat>)
    requires AllValid(q)
    ensures |v| == |q| && forall i :: 0 <= i < |q| ==> v[i] == ValueOf(q[i]) < 32
  {
    seq(|q|, i requires 0 <= i < |q| => ValueOf(q[i]))
  }

  /**
   * Decoding a group yields the first bytes of the number its characters stand for, padding counting as
   * zero bits, and as many of them as the padding says.
   */
  lemma GroupValue(q: seq<Byte>)
    requires |q| == 8 && AllValid(q)
    ensures ByteNumber(FiveBytes(q)) == Digits32(0, Values(q))
    ensures Bytes(q)
         == FiveBytes(q)[..if q[2] == PAD then 1 else if q[4] == PAD then 2 else if q[5] == PAD then 3
                           else if q[7] == PAD then 4 else 5]
  {
    hide Digits32, FiveBytes, Values, Behind, ByteNumber;
    var g := FiveBytes(q);
    ValueDigits(q);
    assert [] + g == g;
    NumberBehind([], g);
    NoNumber();
    BehindAll(0, g);
  }

  lemma ValueDigits(q: seq<Byte>)
    requires |q| == 8 && AllValid(q)
    ensures var g: seq<nat> := FiveBytes(q);
      Digits32(0, Values(q)) == 256 * (256 * (256 * (256 * g[0] + g[1]) + g[2]) + g[3]) + g[4]
  {
    hide Digits32, Byte0, Byte1, Byte2, Byte3, Byte4, FiveBytes, Values;
    var v := Values(q);
    EightDigits(v);
    BytesOfValues(q);
    ValueSum(v[0], v[1], v[2], v[3], v[4], v[5], v[6], v[7]);
  }

  lemma BytesOfValues(q: seq<Byte>)
    requires |q| == 8 && AllValid(q)
    ensures var v, g := Values(q), FiveBytes(q);
      && g[0] == Byte0(v[0], v[1]) && g[1] == Byte1(v[1], v[2], v[3]) && g[2] == Byte2(v[3], v[4])
      && g[3] == Byte3(v[4], v[5], v[6]) && g[4] == Byte4(v[6], v[7])
  {
    hide Byte0, Byte1, Byte2, Byte3, Byte4, ValueOf;
  }

  lemma EightDigits(v: seq<nat>)
    requires |v| == 8
    ensures Digits32(0, v)
         == 32 * (32 * (32 * (32 * (32 * (32 * (32 * v[0] + v[1]) + v[2]) + v[3]) + v[4]) + v[5]) + v[6]) + v[7]
  {
    hide Digits32;
    assert v[..8] == v && v[..0] == [];
    NoDigits(0);
    DigitsStep(0, v, 0);
    DigitsStep(0, v, 1);
    DigitsStep(0, v, 2);
    DigitsStep(0, v, 3);
    DigitsStep(0, v, 4);
    DigitsStep(0, v, 5);
    DigitsStep(0, v, 6);
    DigitsStep(0, v, 7);
  }

  lemma ValueSum(v0: nat, v1: nat, v2: nat, v3: nat, v4: nat, v5: nat, v6: nat, v7: nat)
    requires v0 < 32 && v1 < 32 && v2 < 32 && v3 < 32 && v4 < 32 && v5 < 32 && v6 < 32 && v7 < 32
    ensures 32 * (32 * (32 * (32 * (32 * (32 * (32 * v0 + v1) + v2) + v3) + v4) + v5) + v6) + v7
         == 256 * (256 * (256 * (256 * Byte0(v0, v1) + Byte1(v1, v2, v3)) + Byte2(v3, v4)) + Byte3(v4, v5, v6))
            + Byte4(v6, v7)
  {
    hide Byte0, Byte1, Byte2, Byte3, Byte4;
    var x1: nat := Byte0(v0, v1);
    var x2: nat := 256 * x1 + Byte1(v1, v2, v3);
    var x3: nat := 256 * x2 + Byte2(v3, v4);
    ValueA(0, v0, v1);
    ValueB(x1, v1, v2, v3);
    ValueC(x2, v3, v4);
    ValueD(x3, v4, v5, v6);
    ValueE(256 * x3 + Byte3(v4, v5, v6), v6, v7);
  }

  lemma NoNumber()
    ensures ByteNumber([]) == 0
  {
  }

  /** The first n bytes depend on the first characters only. */
  lemma FirstBytes(q: seq<Byte>, o: seq<Byte>, n: nat)
    requires |q| == |o| == 8 && AllValid(q) && AllValid(o) && 1 <= n < 5
    requires forall i :: 0 <= i < Chars(n) ==> q[i] == o[i]
    ensures FiveBytes(q)[..n] == FiveBytes(o)[..n]
  {
    hide Byte0;
    hide Byte1;
    hide Byte2;
    hide Byte3;
    hide Byte4;
    hide ValueOf;
    assert q[0] == o[0] && q[1] == o[1];
    assert n >= 2 ==> q[2] == o[2] && q[3] == o[3];
    assert n >= 3 ==> q[4] == o[4];
    assert n >= 4 ==> q[5] == o[5] && q[6] == o[6];
  }

  /** The padding tells how many bytes there are. */
  lemma PaddingLength(q: seq<Byte>, n: nat)
    requires |q| == 8 && 1 <= n < 5
    requires forall i :: 0 <= i < 8 ==> (q[i] == PAD <==> i >= Chars(n))
    ensures GroupLength(q) == n
  {
  }

  /** The first characters of a group with padding stand for its first bytes. */
  lemma TailBytes(g: seq<Byte>, n: nat)
    requires |g| == 5 && 1 <= n < 5
    ensures var q := Padded(Octet(g)[..Chars(n)]);
      AllValid(q) && Bytes(q) == g[..n]
  {
    var o := Octet(g);
    OctetBytes(g);
    hide Octet;
    hide ValueOf;
    hide FiveBytes;
    hide GroupLength;
    var q := Padded(o[..Chars(n)]);
    PaddedValid(o[..Chars(n)]);
    assert forall i :: 0 <= i < Chars(n) ==> q[i] == q[..Chars(n)][i] == o[i];
    PaddingLength(q, n);
    FirstBytes(q, o, n);
  }

  lemma GroupDecoded(g: seq<Byte>, rest: seq<Byte>)
    requires |g| == 5
    ensures Decode(Octet(g) + rest) == Before(g, Decode(rest))
  {
    OctetBytes(g);
    hide Octet;
    hide FiveBytes;
    var s := Octet(g) + rest;
    assert Chunk(s) == Octet(g) && s[8..] == rest;
    assert Padded(Octet(g)) == Octet(g);
    assert FiveBytes(Octet(g))[..5] == g;
  }

  lemma {:induction false} GroupsDecoded(data: seq<Byte>, rest: seq<Byte>)
    requires |data| % 5 == 0
    ensures Decode(Groups(data) + rest) == Before(data, Decode(rest))
    decreases |data|
  {
    hide Decode;
    hide Octet;
    if data == [] {
      assert [] + rest == rest;
      assert [] + Decode(rest).bytes == Decode(rest).bytes;
    } else {
      var n := |data| - 5;
      Associate(Groups(data[..n]), Octet(data[n..]), rest);
      GroupsDecoded(data[..n], Octet(data[n..]) + rest);
      GroupDecoded(data[n..], rest);
      assert data == data[..n] + data[n..];
      Associate(data[..n], data[n..], Decode(rest).bytes);
    }
  }

  /** The end of the input, with or without its padding. */
  lemma EndDecoded(s: seq<Byte>, data: seq<Byte>)
    requires |s| <= 8 && LengthOk(|s|) && AllValid(s) && AllValid(Padded(s)) && Bytes(Padded(s)) == data
    ensures Decode(s) == Decoded(data, false)
  {
    hide Bytes;
    assert Chunk(s) == s && s[|s|..] == [];
    assert Decode([]) == Decoded([], false);
    assert data + [] == data;
  }

  /** A character outside the alphabet is an error, and so is an end after one, three or six characters. */
  lemma Malformed(s: seq<Byte>)
    requires |s| == 1 || |s| == 3 || |s| == 6 || (exists i :: 0 <= i < |s| && i < 8 && ValueOf(s[i]) == INVALID)
    ensures Decode(s) == Decoded([], true)
  {
    hide ValueOf;
    var q := Chunk(s);
    if i :| 0 <= i < |s| && i < 8 && ValueOf(s[i]) == INVALID {
      assert q[i] == s[i];
    }
  }

  lemma TailDecoded(padding: bool, rest: seq<Byte>)
    requires |rest| < 5
    ensures Decode(Tail(padding, rest)) == Decoded(rest, false)
  {
    if rest == [] {
      assert Decode([]) == Decoded([], false);
    } else {
      var g := Zeros(rest);
      TailBytes(g, |rest|);
      OctetBytes(g);
      hide Bytes;
      hide Decode;
      var o := Octet(g);
      hide Octet;
      var q := o[..Chars(|rest|)];
      assert Padded(Padded(q)) == Padded(q);
      EndDecoded(if padding then Padded(q) else q, rest);
    }
  }

  /** Decoding the complete output gives back the data, padded or not. */
  lemma RoundTrip(padding: bool, data: seq<Byte>)
    ensures Decode(Encode(padding, data)) == Decoded(data, false)
  {
    hide Decode;
    hide Tail;
    var n := Whole(data);
    var rest := data[n..];
    GroupsDecoded(data[..n], Tail(padding, rest));
    TailDecoded(padding, rest);
    assert data == data[..n] + rest;
  }
}
