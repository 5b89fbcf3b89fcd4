/** Base64 stream encoding and decoding: sections 4 and 5 of RFC 4648. */
module Base64 {
  import opened Common
  import opened Octets
  import opened Powers

  const CR: Byte := 13
  const LF: Byte := 10

  /** Encoder or decoder options: the URL alphabet, and no padding. */
  datatype Options = Options(url: bool, noPadding: bool)

  // ---- Alphabets ------------------------------------------------------------------------------------

  /** The character for a value of six bits. */
  function Letter(url: bool, idx: nat): (c: Byte)
    requires idx < 64
    ensures c != PAD && !IsSpace(c)
  {
    if idx < 26 then 65 + idx
    else if idx < 52 then 97 + (idx - 26)
    else if idx < 62 then 48 + (idx - 52)
    else if idx == 62 then (if url then 45 else 43)
    else if url then 95 else 47
  }

  predicate IsSpace(c: Byte)
  {
    c == 32 || c == CR || c == 9 || c == LF
  }

  /** The value of a character, 0 for the padding and INVALID for one outside the alphabet. */
  function ValueOf(url: bool, c: Byte): (v: nat)
    ensures v < 64 || v == INVALID
  {
    if 65 <= c <= 90 then c - 65
    else if 97 <= c <= 122 then c - 97 + 26
    else if 48 <= c <= 57 then c - 48 + 52
    else if c == (if url then 45 else 43) then 62
    else if c == (if url then 95 else 47) then 63
    else if c == PAD then 0
    else INVALID
  }

  lemma ValueOfLetter(url: bool, idx: nat)
    requires idx < 64
    ensures ValueOf(url, Letter(url, idx)) == idx
  {
  }

  lemma LetterOfValue(url: bool, c: Byte)
    requires c != PAD && ValueOf(url, c) != INVALID
    ensures Letter(url, ValueOf(url, c)) == c
  {
  }

  /** The reverse table, filled from the alphabet. */
  method InEncoding(url: bool) returns (table: array<nat>)
    ensures fresh(table) && table.Length == 256 && forall c: Byte :: table[c] == ValueOf(url, c)
  {
    table := new nat[256](i => INVALID);
    for i := 0 to 64
      invariant forall c: Byte :: table[c] == if c != PAD && ValueOf(url, c) < i then ValueOf(url, c) else INVALID
    {
      ValueOfLetter(url, i);
      forall c: Byte | c != PAD && ValueOf(url, c) == i ensures c == Letter(url, i) {
        LetterOfValue(url, c);
      }
      table[Letter(url, i)] := i;
    }
    table[PAD] := 0;
  }

  /** The alphabets of tables 1 and 2 in RFC 4648. */
  function Alphabet(url: bool): (a: string)
    ensures |a| == 64
  {
    UPPER + LOWER + DIGITS + if url then "-_" else "+/"
  }

  lemma LetterTable(url: bool, idx: nat)
    requires idx < 64
    ensures Letter(url, idx) == Code(Alphabet(url)[idx])
  {
    hide Code, Letter;
    RowsAt(UPPER, LOWER, DIGITS, if url then "-_" else "+/", idx);
    if idx < 26 {
      UpperInOrder(idx);
      RowLetter(url, idx, UPPER[idx]);
    } else if idx < 52 {
      LowerInOrder(idx - 26);
      RowLetter(url, idx, LOWER[idx - 26]);
    } else if idx < 62 {
      DigitsInOrder(idx - 52);
      RowLetter(url, idx, DIGITS[idx - 52]);
    } else {
      LastTwo(url, idx);
    }
  }

  lemma RowLetter(url: bool, idx: nat, c: char)
    requires idx < 62
    requires c as int == if idx < 26 then 65 + idx else if idx < 52 then 97 + (idx - 26) else 48 + (idx - 52)
    ensures Letter(url, idx) == Code(c)
  {
  }

  lemma LastTwo(url: bool, idx: nat)
    requires 62 <= idx < 64
    ensures Letter(url, idx) == Code((if url then "-_" else "+/")[idx - 62])
  {
  }

  lemma RowsAt(a: string, b: string, c: string, d: string, i: nat)
    requires |a| == |b| == 26 && |c| == 10 && |d| == 2 && i < 64
    ensures (a + b + c + d)[i]
         == if i < 26 then a[i] else if i < 52 then b[i - 26] else if i < 62 then c[i - 52] else d[i - 62]
  {
  }

  lemma SpaceTable(c: Byte)
    ensures IsSpace(c) <==> c in [Code(' '), Code('\t'), Code('\r'), Code('\n')]
  {
  }

  // ---- What is written ------------------------------------------------------------------------------

  // The six-bit values of a group.

  function Index0(a: Byte): (i: nat)
    ensures i < 64
  {
    a / 4
  }

  function Index1(a: Byte, b: Byte): (i: nat)
    ensures i < 64
  {
    a % 4 * 16 + b / 16
  }

  function Index2(b: Byte, c: Byte): (i: nat)
    ensures i < 64
  {
    b % 16 * 4 + c / 64
  }

  function Index3(c: Byte): (i: nat)
    ensures i < 64
  {
    c % 64
  }

  /** The four characters for three bytes. */
  function Quad(url: bool, a: Byte, b: Byte, c: Byte): (q: seq<Byte>)
    ensures |q| == 4
  {
    [Letter(url, Index0(a)), Letter(url, Index1(a, b)), Letter(url, Index2(b, c)), Letter(url, Index3(c))]
  }

  /** The output for whole groups, with the position in the line after it. */
  datatype Written = Written(out: seq<Byte>, pos: nat)

  function BreakLine(w: Written, lineLength: int): Written
  {
    if lineLength > 0 && w.pos >= lineLength then Written(w.out + [CR] + [LF], 0) else w
  }

  function Groups(url: bool, lineLength: int, data: seq<Byte>): Written
    requires |data| % 3 == 0
  {
    if data == [] then Written([], 0)
    else
      var n := |data| - 3;
      var w := Groups(url, lineLength, data[..n]);
      BreakLine(Written(w.out + Quad(url, data[n], data[n + 1], data[n + 2]), w.pos + 4), lineLength)
  }

  /** The output for an incomplete group. */
  function Tail(options: Options, rest: seq<Byte>): seq<Byte>
    requires |rest| < 3
  {
    if |rest| == 1 then Tail1(options.url, rest[0]) + (if options.noPadding then [] else [PAD, PAD])
    else if |rest| == 2 then Tail2(options.url, rest[0], rest[1]) + (if options.noPadding then [] else [PAD])
    else []
  }

  function Tail1(url: bool, a: Byte): seq<Byte>
  {
    [Letter(url, Index0(a)), Letter(url, Index1(a, 0))]
  }

  function Tail2(url: bool, a: Byte, b: Byte): seq<Byte>
  {
    [Letter(url, Index0(a)), Letter(url, Index1(a, b)), Letter(url, Index2(b, 0))]
  }

  function Whole(data: seq<Byte>): (n: nat)
    ensures n <= |data| && n % 3 == 0 && |data| - n < 3
  {
    |data| - |data| % 3
  }

  /** The complete output. */
  function Encode(options: Options, lineLength: int, data: seq<Byte>): seq<Byte>
  {
    Groups(options.url, lineLength, data[..Whole(data)]).out + Tail(options, data[Whole(data)..])
  }

  /** The encoder as a stream buffer: a group of up to three bytes, written out when it is full. */
  class Base64Encoder {
    const options: Options
    var lineLength: int
    var group: seq<Byte>
    var pos: nat
    var out: seq<Byte>
    ghost var written: seq<Byte>

    ghost predicate Valid()
      reads this
    {
      && |group| < 3 && |written| % 3 == 0
      && Groups(options.url, lineLength, written) == Written(out, pos)
    }

    constructor (options: Options)
      ensures Valid() && this.options == options && Input() == [] && lineLength == if options.url then 0 else 72
    {
      this.options := options;
      lineLength := if options.url then 0 else 72;
      group, pos, out, written := [], 0, [], [];
    }

    ghost function Input(): seq<Byte>
      reads this
    {
      written + group
    }

    method SetLineLength(n: int)
      requires Valid() && Input() == []
      modifies this
      ensures Valid() && Input() == [] && lineLength == n
    {
      lineLength := n;
    }

    method WriteToDevice(c: Byte)
      requires Valid()
      modifies this
      ensures Valid() && Input() == old(Input()) + [c] && lineLength == old(lineLength)
    {
      hide Quad;
      hide Groups;
      group := group + [c];
      if |group| == 3 {
        ThreeMore(|written|);
        GroupAdded(options.url, lineLength, written, group);
        PutGroup();
        pos := pos + 4;
        if lineLength > 0 && pos >= lineLength {
          out := out + [CR];
          out := out + [LF];
          pos := 0;
        }
        written := written + group;
        group := [];
      }
    }

    /** The four characters of a full group. */
    method PutGroup()
      requires |group| == 3
      modifies this`out
      ensures out == old(out) + Quad(options.url, group[0], group[1], group[2])
    {
      hide Letter;
      hide Index0;
      hide Index1;
      hide Index2;
      hide Index3;
      out := out + [Letter(options.url, Index0(group[0]))];
      out := out + [Letter(options.url, Index1(group[0], group[1]))];
      out := out + [Letter(options.url, Index2(group[1], group[2]))];
      out := out + [Letter(options.url, Index3(group[2]))];
    }

    /** Writes out what is left of the last group. */
    method Close()
      requires Valid()
      modifies this
      ensures out == Encode(options, lineLength, old(Input())) && group == []
    {
      hide Letter;
      hide Index0;
      hide Index1;
      hide Index2;
      hide Index3;
      ghost var data := Input();
      assert data[..Whole(data)] == written && data[Whole(data)..] == group;
      if |group| == 1 {
        out := out + [Letter(options.url, Index0(group[0]))];
        out := out + [Letter(options.url, Index1(group[0], 0))];
        if !options.noPadding {
          out := out + [PAD];
          out := out + [PAD];
        }
      } else if |group| == 2 {
        out := out + [Letter(options.url, Index0(group[0]))];
        out := out + [Letter(options.url, Index1(group[0], group[1]))];
        out := out + [Letter(options.url, Index2(group[1], 0))];
        if !options.noPadding {
          out := out + [PAD];
        }
      }
      assert out == old(out) + Tail(options, group);
      group := [];
    }
  }

  lemma GroupAdded(url: bool, lineLength: int, data: seq<Byte>, group: seq<Byte>)
    requires |data| % 3 == 0 && |group| == 3 && (|data| + 3) % 3 == 0
    ensures var w := Groups(url, lineLength, data);
      Groups(url, lineLength, data + group)
        == BreakLine(Written(w.out + Quad(url, group[0], group[1], group[2]), w.pos + 4), lineLength)
  {
    hide Groups, Quad, BreakLine;
    var all, n := data + group, |data|;
    assert |all| == n + 3 && all[..n] == data;
    assert all[n] == group[0] && all[n + 1] == group[1] && all[n + 2] == group[2];
    GroupsStep(url, lineLength, all, n);
  }

  lemma ThreeMore(n: nat)
    requires n % 3 == 0
    ensures (n + 3) % 3 == 0
  {
  }

  lemma GroupsStep(url: bool, lineLength: int, all: seq<Byte>, n: nat)
    requires |all| == n + 3 && n % 3 == 0 && (n + 3) % 3 == 0
    ensures var w := Groups(url, lineLength, all[..n]);
      Groups(url, lineLength, all)
        == BreakLine(Written(w.out + Quad(url, all[n], all[n + 1], all[n + 2]), w.pos + 4), lineLength)
  {
    hide Quad, BreakLine;
  }

  // ---- The output as a numeral ------------------------------------------------------------------------

  /** How many letters n bytes take: six bits a letter. */
  function LetterCount(n: nat): (m: nat)
    ensures 6 * m - 6 < 8 * n <= 6 * m
  {
    (4 * n + 2) / 3
  }

  /** The data's bits with zeros up to a whole letter, as a numeral to the base 64. */
  function Spelling(url: bool, data: seq<Byte>): (s: seq<Byte>)
    ensures |s| == LetterCount(|data|)
  {
    var m := LetterCount(|data|);
    Spelled(Alphabet(url), Filled(ByteNumber(data), 6 * m - 8 * |data|), m)
  }

  /** A line holds whole groups, and at least the line length. */
  function LineWidth(lineLength: int): (n: nat)
    ensures n % 4 == 0 && (if lineLength <= 0 then n == 0 else lineLength <= n < lineLength + 4)
  {
    if lineLength <= 0 then 0 else (lineLength + 3) / 4 * 4
  }

  /** Letters with a line break after each full line. */
  function InLines(q: seq<Byte>, width: nat): seq<Byte>
  {
    if width == 0 || |q| < width then q else q[..width] + [CR, LF] + InLines(q[width..], width)
  }

  /** Padding to whole groups of four characters. */
  function Padding(o: Options, letters: nat): seq<Byte>
  {
    if o.noPadding then [] else seq((4 - letters % 4) % 4, i => PAD)
  }

  /** The six-bit values are the digits of the group's number, and of its bytes with zeros filled in. */
  lemma IndexDigits(a: Byte, b: Byte, c: Byte)
    ensures 64 * (64 * (64 * Index0(a) + Index1(a, b)) + Index2(b, c)) + Index3(c) == 0x1_0000 * a + 0x100 * b + c
    ensures 64 * (64 * Index0(a) + Index1(a, b)) + Index2(b, 0) == 4 * (0x100 * a + b)
    ensures 64 * Index0(a) + Index1(a, 0) == 16 * a
  {
  }

  lemma QuadSpelled(url: bool, x: nat, n: nat, a: Byte, b: Byte, c: Byte)
    ensures Spelled(Alphabet(url), 0x100_0000 * x + 0x1_0000 * a + 0x100 * b + c, n + 4)
         == Spelled(Alphabet(url), x, n) + Quad(url, a, b, c)
  {
    hide Letter, Alphabet, Spelled, Index0, Index1, Index2, Index3;
    IndexDigits(a, b, c);
    var i, j, k, l := Index0(a), Index1(a, b), Index2(b, c), Index3(c);
    Step(url, x, i, n);
    Step(url, 64 * x + i, j, n + 1);
    Step(url, 64 * (64 * x + i) + j, k, n + 2);
    Step(url, 64 * (64 * (64 * x + i) + j) + k, l, n + 3);
    FourLetters(Spelled(Alphabet(url), x, n), Letter(url, i), Letter(url, j), Letter(url, k), Letter(url, l));
  }

  lemma FourLetters(s: seq<Byte>, i: Byte, j: Byte, k: Byte, l: Byte)
    ensures s + [i] + [j] == s + [i, j]
    ensures s + [i] + [j] + [k] == s + [i, j, k]
    ensures s + [i] + [j] + [k] + [l] == s + [i, j, k, l]
  {
  }

  lemma Step(url: bool, x: nat, i: nat, n: nat)
    requires i < 64
    ensures Spelled(Alphabet(url), 64 * x + i, n + 1) == Spelled(Alphabet(url), x, n) + [Letter(url, i)]
  {
    hide Letter, Alphabet, Spelled;
    LetterTable(url, i);
    SpelledStep(Alphabet(url), x, i, n);
  }

  lemma Tail1Spelled(url: bool, x: nat, n: nat, a: Byte)
    ensures Spelled(Alphabet(url), (256 * x + a) * 16, n + 2) == Spelled(Alphabet(url), x, n) + Tail1(url, a)
  {
    hide Letter, Alphabet, Spelled, Index0, Index1, Index2, Index3;
    IndexDigits(a, 0, 0);
    var i, j := Index0(a), Index1(a, 0);
    Step(url, x, i, n);
    Step(url, 64 * x + i, j, n + 1);
    FourLetters(Spelled(Alphabet(url), x, n), Letter(url, i), Letter(url, j), 0, 0);
  }

  lemma Tail2Spelled(url: bool, x: nat, n: nat, a: Byte, b: Byte)
    ensures Spelled(Alphabet(url), (256 * (256 * x + a) + b) * 4, n + 3)
         == Spelled(Alphabet(url), x, n) + Tail2(url, a, b)
  {
    hide Letter, Alphabet, Spelled, Index0, Index1, Index2, Index3;
    IndexDigits(a, b, 0);
    var i, j, k := Index0(a), Index1(a, b), Index2(b, 0);
    Step(url, x, i, n);
    Step(url, 64 * x + i, j, n + 1);
    Step(url, 64 * (64 * x + i) + j, k, n + 2);
    FourLetters(Spelled(Alphabet(url), x, n), Letter(url, i), Letter(url, j), Letter(url, k), 0);
  }

  lemma ThreeBytes(data: seq<Byte>, a: Byte, b: Byte, c: Byte)
    ensures ByteNumber(data + [a, b, c]) == 0x100_0000 * ByteNumber(data) + 0x1_0000 * a + 0x100 * b + c
  {
    ByteNumberPush(data, a);
    ByteNumberPush(data + [a], b);
    ByteNumberPush(data + [a] + [b], c);
    assert data + [a, b, c] == data + [a] + [b] + [c];
  }

  /** How many letters groups take, and how many bits are filled in. */
  lemma Counts(n: nat, k: nat)
    requires n == 3 * k
    ensures LetterCount(n) == 4 * k && LetterCount(n + 1) == 4 * k + 2 && LetterCount(n + 2) == 4 * k + 3
  {
  }

  /** Whole groups leave no bits over. */
  lemma WholeSpelling(url: bool, data: seq<Byte>, k: nat)
    requires |data| == 3 * k
    ensures Spelling(url, data) == Spelled(Alphabet(url), ByteNumber(data), 4 * k)
  {
    Counts(|data|, k);
    FilledIs(ByteNumber(data));
    hide Filled, ByteNumber, Spelled, LetterCount, Alphabet;
  }

  lemma SpellingStep(url: bool, data: seq<Byte>, a: Byte, b: Byte, c: Byte, k: nat)
    requires |data| == 3 * k
    ensures Spelling(url, data + [a, b, c]) == Spelling(url, data) + Quad(url, a, b, c)
  {
    hide Spelling, Quad, ByteNumber, Alphabet;
    WholeSpelling(url, data, k);
    WholeSpelling(url, data + [a, b, c], k + 1);
    ThreeBytes(data, a, b, c);
    QuadSpelled(url, ByteNumber(data), 4 * k, a, b, c);
  }

  /** The position in the line after n letters. */
  function Position(n: nat, width: nat): nat
  {
    if width == 0 then n else n % width
  }

  /** A group more: the line it ends is broken. */
  lemma {:induction false} LineStep(q: seq<Byte>, g: seq<Byte>, width: nat, k: nat, l: nat)
    requires width == 4 * l > 0 && |q| == 4 * k && |g| == 4
    ensures InLines(q + g, width)
         == InLines(q, width) + g + if Position(|q|, width) + 4 == width then [CR, LF] else []
    decreases |q|
  {
    hide InLines, Position;
    LineIs(q, width);
    LineIs(q + g, width);
    if |q| < width {
      FirstPosition(|q|, width);
      if |q| + 4 == width {
        assert (q + g)[..width] == q + g && (q + g)[width..] == [];
        LineIs([], width);
      }
    } else {
      var t, e := q[width..], if Position(|q|, width) + 4 == width then [CR, LF] else [];
      assert (q + g)[..width] == q[..width] && (q + g)[width..] == t + g;
      LessLine(|q|, width);
      LineStep(t, g, width, k - l, l);
      FirstLine(q[..width], InLines(t, width), g, e);
    }
  }

  lemma LineIs(q: seq<Byte>, width: nat)
    requires width > 0
    ensures |q| < width ==> InLines(q, width) == q
    ensures |q| >= width ==> InLines(q, width) == q[..width] + [CR, LF] + InLines(q[width..], width)
  {
  }

  lemma FirstLine(line: seq<Byte>, more: seq<Byte>, g: seq<Byte>, e: seq<Byte>)
    ensures line + [CR, LF] + (more + g + e) == (line + [CR, LF] + more) + g + e
  {
  }

  lemma FirstPosition(n: nat, w: nat)
    requires n < w
    ensures Position(n, w) == n
  {
  }

  lemma LessLine(n: nat, w: nat)
    requires 0 < w <= n
    ensures Position(n - w, w) == Position(n, w)
  {
    OneLineMore(n, w, (n - w) / w, (n - w) % w);
  }

  lemma OneLineMore(n: nat, w: nat, q: nat, r: nat)
    requires n - w == q * w + r && r < w
    ensures n % w == r
  {
    assert (q + 1) * w == q * w + w;
    DivModIs(n, w, q + 1, r);
  }

  lemma GroupsLast(url: bool, lineLength: int, data: seq<Byte>, a: Byte, b: Byte, c: Byte)
    requires |data| % 3 == 0
    ensures (|data| + 3) % 3 == 0
    ensures var w := Groups(url, lineLength, data);
      Groups(url, lineLength, data + [a, b, c])
        == BreakLine(Written(w.out + Quad(url, a, b, c), w.pos + 4), lineLength)
  {
    hide Groups, Quad, BreakLine;
    ThreeMore(|data|);
    GroupAdded(url, lineLength, data, [a, b, c]);
  }

  /** The output for whole groups is their spelling in lines, and the position is that within the last line. */
  lemma {:induction false} GroupsInLines(url: bool, lineLength: int, data: seq<Byte>, k: nat)
    requires |data| == 3 * k
    ensures InLinesSoFar(url, lineLength, data, 4 * k)
    decreases k
  {
    hide InLinesSoFar;
    if k == 0 {
      NoGroups(url, lineLength);
    } else {
      var n := |data| - 3;
      assert data == data[..n] + [data[n], data[n + 1], data[n + 2]];
      GroupsInLines(url, lineLength, data[..n], k - 1);
      GroupInLines(url, lineLength, data[..n], data[n], data[n + 1], data[n + 2], k - 1);
    }
  }

  predicate InLinesSoFar(url: bool, lineLength: int, data: seq<Byte>, letters: nat)
  {
    var q, width := Spelling(url, data), LineWidth(lineLength);
    && |q| == letters && |data| % 3 == 0
    && Groups(url, lineLength, data) == Written(InLines(q, width), Position(letters, width))
  }

  lemma GroupInLines(url: bool, lineLength: int, d: seq<Byte>, a: Byte, b: Byte, c: Byte, k: nat)
    requires |d| == 3 * k && InLinesSoFar(url, lineLength, d, 4 * k)
    ensures InLinesSoFar(url, lineLength, d + [a, b, c], 4 * k + 4)
  {
    hide Groups, Quad, Spelling, InLines, LineWidth, LetterCount, Position, BreakLine;
    GroupsLast(url, lineLength, d, a, b, c);
    SpellingStep(url, d, a, b, c, k);
    LineEnd(Spelling(url, d), Quad(url, a, b, c), lineLength, k);
  }

  lemma NoGroups(url: bool, lineLength: int)
    ensures InLinesSoFar(url, lineLength, [], 0)
  {
    Counts(0, 0);
    FilledIs(0);
    hide LineWidth, LetterCount, ByteNumber, Filled, Alphabet;
  }

  /** Breaking a line after a group, as the encoder does it. */
  lemma LineEnd(q: seq<Byte>, g: seq<Byte>, lineLength: int, k: nat)
    requires |q| == 4 * k && |g| == 4
    ensures var width := LineWidth(lineLength);
      BreakLine(Written(InLines(q, width) + g, Position(|q|, width) + 4), lineLength)
        == Written(InLines(q + g, width), Position(|q| + 4, width))
  {
    hide InLines, LineWidth, Position;
    var width := LineWidth(lineLength);
    NoLines(q, g, lineLength, |q|);
    if width > 0 {
      var l := WholeLine(lineLength);
      NextPosition(|q|, k, width, l);
      FullLine(Position(|q|, width) + 4, width, lineLength);
      LineStep(q, g, width, k, l);
      var s := InLines(q, width) + g;
      assert s + [CR] + [LF] == s + [CR, LF] && s + [] == s;
    }
  }

  lemma NoLines(q: seq<Byte>, g: seq<Byte>, lineLength: int, n: nat)
    ensures LineWidth(lineLength) == 0 <==> lineLength <= 0
    ensures InLines(q, 0) == q && InLines(q + g, 0) == q + g && Position(n, 0) == n && Position(n + 4, 0) == n + 4
  {
  }

  lemma WholeLine(lineLength: int) returns (l: nat)
    ensures LineWidth(lineLength) == 4 * l
  {
    l := LineWidth(lineLength) / 4;
  }

  lemma FullLine(pos: nat, width: nat, lineLength: int)
    requires width == LineWidth(lineLength) && width > 0 && pos % 4 == 0 && pos <= width
    ensures pos >= lineLength <==> pos == width
  {
  }

  lemma NextPosition(n: nat, k: nat, w: nat, l: nat)
    requires w > 0 && w == 4 * l && n == 4 * k
    ensures (Position(n, w) + 4) % 4 == 0 && Position(n, w) + 4 <= w
    ensures Position(n + 4, w) == if Position(n, w) + 4 == w then 0 else Position(n, w) + 4
  {
    var q, r := k / l, k % l;
    LinePosition(n, w, q, l, r);
    if r + 1 == l {
      LinePosition(n + 4, w, q + 1, l, 0);
    } else {
      LinePosition(n + 4, w, q, l, r + 1);
    }
    hide Position;
  }

  lemma LinePosition(n: nat, w: nat, q: nat, l: nat, r: nat)
    requires w == 4 * l && r < l && n == 4 * (q * l + r)
    ensures Position(n, w) == 4 * r
  {
    assert q * (4 * l) == 4 * (q * l);
    DivModIs(n, w, q, 4 * r);
  }

  /** The spelling with the bits filled in. */
  lemma TailSpelling(url: bool, data: seq<Byte>, k: nat)
    ensures |data| == 3 * k + 1 ==> Spelling(url, data) == Spelled(Alphabet(url), ByteNumber(data) * 16, 4 * k + 2)
    ensures |data| == 3 * k + 2 ==> Spelling(url, data) == Spelled(Alphabet(url), ByteNumber(data) * 4, 4 * k + 3)
  {
    Counts(3 * k, k);
    FilledIs(ByteNumber(data));
    hide Filled, ByteNumber, Spelled, LetterCount, Alphabet;
  }

  lemma OneLast(url: bool, d: seq<Byte>, a: Byte, k: nat)
    requires |d| == 3 * k
    ensures Spelling(url, d + [a]) == Spelling(url, d) + Tail1(url, a) && |Spelling(url, d + [a])| == 4 * k + 2
  {
    hide Spelling, Spelled, Alphabet, ByteNumber, Tail1, LetterCount;
    WholeSpelling(url, d, k);
    TailSpelling(url, d + [a], k);
    ByteNumberPush(d, a);
    Tail1Spelled(url, ByteNumber(d), 4 * k, a);
  }

  lemma TwoLast(url: bool, d: seq<Byte>, a: Byte, b: Byte, k: nat)
    requires |d| == 3 * k
    ensures Spelling(url, d + [a, b]) == Spelling(url, d) + Tail2(url, a, b) && |Spelling(url, d + [a, b])| == 4 * k + 3
  {
    hide Spelling, Spelled, Alphabet, ByteNumber, Tail2, LetterCount;
    WholeSpelling(url, d, k);
    TailSpelling(url, d + [a, b], k);
    ByteNumberPush(d, a);
    ByteNumberPush(d + [a], b);
    assert d + [a, b] == d + [a] + [b];
    Tail2Spelled(url, ByteNumber(d), 4 * k, a, b);
  }

  function TailLetters(url: bool, rest: seq<Byte>): seq<Byte>
    requires |rest| < 3
  {
    if |rest| == 1 then Tail1(url, rest[0]) else if |rest| == 2 then Tail2(url, rest[0], rest[1]) else []
  }

  lemma TailSpelled(url: bool, d: seq<Byte>, rest: seq<Byte>, k: nat)
    requires |d| == 3 * k && |rest| < 3
    ensures Spelling(url, d + rest) == Spelling(url, d) + TailLetters(url, rest) && |Spelling(url, d)| == 4 * k
  {
    hide Spelling, Tail1, Tail2, LetterCount, Alphabet, Spelled, ByteNumber;
    WholeSpelling(url, d, k);
    if |rest| == 1 {
      assert rest == [rest[0]];
      OneLast(url, d, rest[0], k);
    } else if |rest| == 2 {
      assert rest == [rest[0], rest[1]];
      TwoLast(url, d, rest[0], rest[1], k);
    } else {
      assert d + rest == d && Spelling(url, d) + [] == Spelling(url, d);
    }
  }

  lemma TailPadded(o: Options, rest: seq<Byte>, k: nat)
    requires |rest| < 3
    ensures var t := TailLetters(o.url, rest);
      Tail(o, rest) == t + Padding(o, 4 * k + |t|)
  {
    hide Padding, Letter;
    PaddingIs(o, k);
  }

  lemma LastLetters(o: Options, d: seq<Byte>, rest: seq<Byte>, k: nat)
    requires |d| == 3 * k && |rest| < 3
    ensures |Spelling(o.url, d)| == 4 * k
    ensures Spelling(o.url, d) <= Spelling(o.url, d + rest)
    ensures var q := Spelling(o.url, d + rest);
      q + Padding(o, |q|) == Spelling(o.url, d) + Tail(o, rest)
  {
    hide Spelling, Padding, Tail, TailLetters, LetterCount;
    TailSpelled(o.url, d, rest, k);
    TailPadded(o, rest, k);
    var t := TailLetters(o.url, rest);
    Associate(Spelling(o.url, d), t, Padding(o, 4 * k + |t|));
  }

  lemma PaddingIs(o: Options, k: nat)
    ensures Padding(o, 4 * k) == []
    ensures Padding(o, 4 * k + 2) == if o.noPadding then [] else [PAD, PAD]
    ensures Padding(o, 4 * k + 3) == if o.noPadding then [] else [PAD]
  {
  }

  /**
   * The complete output is the data's bits as a numeral in the alphabet, zeros filled in: lines are
   * broken after whole groups, and padding completes the last group.
   */
  lemma EncodeSpells(o: Options, lineLength: int, data: seq<Byte>)
    ensures var q, n := Spelling(o.url, data), |data| / 3 * 4;
      n <= |q| && Encode(o, lineLength, data)
        == InLines(q[..n], LineWidth(lineLength)) + q[n..] + Padding(o, |q|)
  {
    hide Groups, Spelling, InLines, LineWidth, Tail, Padding, LetterCount, Whole;
    var k := |data| / 3;
    WholeIs(data);
    var d, rest := data[..3 * k], data[3 * k..];
    assert data == d + rest;
    PartsSpell(o, lineLength, d, rest, k);
  }

  lemma WholeIs(data: seq<Byte>)
    ensures Whole(data) == 3 * (|data| / 3)
  {
  }

  lemma PartsSpell(o: Options, lineLength: int, d: seq<Byte>, rest: seq<Byte>, k: nat)
    requires |d| == 3 * k && |d| % 3 == 0 && |rest| < 3
    ensures var q, n := Spelling(o.url, d + rest), 4 * k;
      n <= |q| && Groups(o.url, lineLength, d).out + Tail(o, rest)
        == InLines(q[..n], LineWidth(lineLength)) + q[n..] + Padding(o, |q|)
  {
    hide Groups, Spelling, InLines, LineWidth, Tail, Padding, LetterCount;
    GroupsInLines(o.url, lineLength, d, k);
    LastLetters(o, d, rest, k);
    var p, q := Spelling(o.url, d), Spelling(o.url, d + rest);
    Resplit(p, q, Tail(o, rest), Padding(o, |q|));
    Associate(InLines(q[..4 * k], LineWidth(lineLength)), q[4 * k..], Padding(o, |q|));
  }

  lemma Resplit(p: seq<Byte>, q: seq<Byte>, tail: seq<Byte>, pad: seq<Byte>)
    requires q + pad == p + tail && p <= q
    ensures q[..|p|] == p && tail == q[|p|..] + pad
  {
    assert (q + pad)[|p|..] == q[|p|..] + pad;
    assert (p + tail)[|p|..] == tail;
  }

  // ---- What is read ---------------------------------------------------------------------------------

  /** What is left of the input after white space, which only the standard alphabet skips. */
  function Skip(url: bool, s: seq<Byte>): (r: seq<Byte>)
    ensures |r| <= |s| && (!url && r != [] ==> !IsSpace(r[0]))
  {
    if !url && s != [] && IsSpace(s[0]) then Skip(url, s[1..]) else s
  }

  /** The next n characters, with padding for those missing at the end. */
  function Take(url: bool, s: seq<Byte>, n: nat): (r: (seq<Byte>, seq<Byte>))
    ensures |r.0| <= n && |r.1| <= |s| && (r.0 != [] ==> |r.1| < |s|)
    decreases n
  {
    var t := Skip(url, s);
    if n == 0 then ([], s)
    else if t == [] then ([], [])
    else
      var (more, rest) := Take(url, t[1..], n - 1);
      ([t[0]] + more, rest)
  }

  predicate AllValid(url: bool, q: seq<Byte>)
  {
    forall i :: 0 <= i < |q| ==> ValueOf(url, q[i]) != INVALID
  }

  function Padded(q: seq<Byte>): (r: seq<Byte>)
    requires |q| <= 4
    ensures |r| == 4 && r[..|q|] == q
  {
    if |q| == 4 then q else if |q| == 3 then q + [PAD] else if |q| == 2 then q + [PAD, PAD]
    else if |q| == 1 then q + [PAD, PAD, PAD] else [PAD, PAD, PAD, PAD]
  }

  // The bytes of a group of six-bit values.

  function First(v0: nat, v1: nat): Byte
    requires v0 < 64 && v1 < 64
  {
    v0 * 4 % 256 + v1 / 16
  }

  function Second(v1: nat, v2: nat): Byte
    requires v1 < 64 && v2 < 64
  {
    v1 % 16 * 16 + v2 / 4
  }

  function Third(v2: nat, v3: nat): Byte
    requires v2 < 64 && v3 < 64
  {
    v2 * 64 % 256 + v3
  }

  /** The number that four six-bit values stand for. */
  function GroupNumber(v0: nat, v1: nat, v2: nat, v3: nat): nat
  {
    0x4_0000 * v0 + 0x1000 * v1 + 0x40 * v2 + v3
  }

  /** The bytes of a group of four characters. */
  function Bytes(url: bool, q: seq<Byte>): (r: seq<Byte>)
    requires |q| == 4 && AllValid(url, q)
    ensures 1 <= |r| <= 3
  {
    var v0, v1, v2, v3 := ValueOf(url, q[0]), ValueOf(url, q[1]), ValueOf(url, q[2]), ValueOf(url, q[3]);
    var g := [First(v0, v1), Second(v1, v2), Third(v2, v3)];
    if q[2] == PAD then g[..1] else if q[3] == PAD then g[..2] else g
  }

  /** All bytes decoded from s. */
  function Decode(options: Options, s: seq<Byte>): Decoded
    decreases |s|
  {
    var (q, rest) := Take(options.url, s, 4);
    if q == [] then Decoded([], false)
    else if !AllValid(options.url, q) then Decoded([], true)
    else if |q| == 1 then Decoded([], false)
    else if |q| < 4 && !options.noPadding then Decoded([], true)
    else
      var more := Decode(options, rest);
      PaddedValid(options.url, q);
      Decoded(Bytes(options.url, Padded(q)) + more.bytes, more.failed)
  }

  lemma PaddedValid(url: bool, q: seq<Byte>)
    requires |q| <= 4 && AllValid(url, q)
    ensures AllValid(url, Padded(q))
  {
  }

  /** The decoder as a stream buffer over an input that it consumes. */
  class Base64Decoder {
    const options: Options
    var input: seq<Byte>
    var group: seq<Byte>
    var groupIndex: nat

    ghost predicate Valid()
      reads this
    {
      groupIndex <= |group|
    }

    /** All that is still to come out. */
    ghost function Rest(): Decoded
      reads this
      requires Valid()
    {
      var more := Decode(options, input);
      Decoded(group[groupIndex..] + more.bytes, more.failed)
    }

    constructor (options: Options, input: seq<Byte>)
      ensures Valid() && this.options == options && Rest() == Decode(options, input)
    {
      this.options, this.input := options, input;
      group, groupIndex := [], 0;
    }

    method ReadOne() returns (c: Option<Byte>)
      modifies this`input
      ensures var t := Skip(options.url, old(input));
        if t == [] then c == None && input == [] else c == Some(t[0]) && input == t[1..]
    {
      ghost var s := input;
      if input == [] {
        return None;
      }
      c := Some(input[0]);
      input := input[1..];
      if !options.url {
        while c.Some? && IsSpace(c.value)
          invariant var t := Skip(options.url, s);
            if c.None? then t == [] && input == [] else t == Skip(options.url, [c.value] + input)
          decreases |input|, c.Some?
        {
          if input == [] {
            c := None;
          } else {
            c := Some(input[0]);
            input := input[1..];
          }
        }
      }
    }

    /** The next byte: from the group at hand, or from the next one in the input. */
    method ReadFromDevice() returns (r: Read)
      requires Valid()
      modifies this
      ensures Valid()
      ensures r.Got? ==> old(Rest()) == Decoded([r.c] + Rest().bytes, Rest().failed)
      ensures r.Eof? ==> old(Rest()) == Decoded([], false)
      ensures r.Failure? ==> old(Rest()) == Decoded([], true)
    {
      hide Bytes;
      hide Decode;
      if groupIndex < |group| {
        r := Got(group[groupIndex]);
        OneOut(group, groupIndex, Decode(options, input));
        groupIndex := groupIndex + 1;
        return;
      }
      ghost var s := input;
      assert old(Rest()) == Decode(options, s) by {
        NothingBuffered(group, groupIndex, Decode(options, s));
      }
      var q, next := ReadGroup();
      if next == Bad {
        return Failure;
      }
      if next == End {
        return Eof;
      }
      FillGroup(q);
      OneOut(group, 0, Decode(options, input));
      assert group[0..] == group;
      return Got(group[0]);
    }

    method FillGroup(q: seq<Byte>)
      requires |q| == 4 && AllValid(options.url, q)
      modifies this`group, this`groupIndex
      ensures group == Bytes(options.url, q) && groupIndex == 1
    {
      hide ValueOf;
      hide First;
      hide Second;
      hide Third;
      var v0, v1 := ValueOf(options.url, q[0]), ValueOf(options.url, q[1]);
      var v2, v3 := ValueOf(options.url, q[2]), ValueOf(options.url, q[3]);
      group := [First(v0, v1), Second(v1, v2), Third(v2, v3)];
      groupIndex := 1;
      if q[2] == PAD {
        group := group[..1];
      } else if q[3] == PAD {
        group := group[..2];
      }
    }

    /** The characters q of the group at the start of s have been read and are valid. */
    ghost predicate Progress(s: seq<Byte>, q: seq<Byte>)
      reads this
    {
      && |q| <= 4 && AllValid(options.url, q)
      && var more := Take(options.url, input, 4 - |q|);
         Take(options.url, s, 4) == (q + more.0, more.1)
    }

    /** One more character of the group, unless the input is at its end or holds an invalid one. */
    method ReadNext(ghost s: seq<Byte>, q: seq<Byte>) returns (r: seq<Byte>, next: Next)
      requires Progress(s, q) && |q| < 4
      modifies this`input
      ensures next == More ==> Progress(s, r) && |r| == |q| + 1
      ensures next == End ==> r == q && input == [] && Take(options.url, s, 4) == (q, [])
      ensures next == Bad ==> Decode(options, s) == Decoded([], true)
    {
      hide ValueOf;
      hide Take;
      hide Skip;
      OneMore(options.url, s, q, input);
      var c := ReadOne();
      if c.None? {
        return q, End;
      }
      r := q + [c.value];
      if ValueOf(options.url, c.value) == INVALID {
        FirstInvalid(options, s, r, |q|);
        return r, Bad;
      }
      return r, More;
    }

    /** The characters of a group, filled up with padding where the options allow them to be missing. */
    method ReadGroup() returns (q: seq<Byte>, next: Next)
      modifies this`input
      ensures next == Bad ==> Decode(options, old(input)) == Decoded([], true)
      ensures next == End ==> Decode(options, old(input)) == Decoded([], false)
      ensures next == More ==> |q| == 4 && AllValid(options.url, q)
      ensures next == More ==> var more := Decode(options, input);
        Decode(options, old(input)) == Decoded(Bytes(options.url, q) + more.bytes, more.failed)
    {
      hide Bytes;
      hide Take;
      hide ValueOf;
      ghost var s := input;
      assert Progress(s, []) by {
        assert [] + Take(options.url, s, 4).0 == Take(options.url, s, 4).0;
      }
      q, next := ReadNext(s, []);
      if next != More {
        return;
      }
      q, next := ReadNext(s, q);
      if next != More {
        return;
      }
      q, next := ReadNext(s, q);
      if next == Bad {
        return;
      }
      if next == End {
        // The fourth read finds nothing either.
        q, next := MissingChars(s, q);
        return;
      }
      q, next := ReadNext(s, q);
      if next == Bad {
        return;
      }
      if next == End {
        q, next := MissingChars(s, q);
        return;
      }
      assert q == Padded(q) && Take(options.url, s, 4).0 == q && Take(options.url, s, 4).1 == input by {
        TakeStep(options.url, input, 0);
        assert q + [] == q;
      }
    }

    /** Two or three characters before the end of the input. */
    method MissingChars(ghost s: seq<Byte>, q: seq<Byte>) returns (r: seq<Byte>, next: Next)
      requires (|q| == 2 || |q| == 3) && Take(options.url, s, 4) == (q, []) && input == [] && AllValid(options.url, q)
      ensures if options.noPadding then next == More && r == Padded(q) && AllValid(options.url, r) else next == Bad
      ensures next == Bad ==> Decode(options, s) == Decoded([], true)
      ensures next == More ==> var more := Decode(options, []);
        Decode(options, s) == Decoded(Bytes(options.url, r) + more.bytes, more.failed)
    {
      hide Bytes;
      hide ValueOf;
      if !options.noPadding {
        return q, Bad;
      }
      PaddedValid(options.url, q);
      return Padded(q), More;
    }
  }

  /** Taking one more character after q. */
  lemma OneMore(url: bool, s: seq<Byte>, q: seq<Byte>, input: seq<Byte>)
    requires |q| < 4
    requires var more := Take(url, input, 4 - |q|);
      Take(url, s, 4) == (q + more.0, more.1)
    ensures var t := Skip(url, input);
      if t == [] then Take(url, s, 4) == (q, [])
      else
        var more := Take(url, t[1..], 4 - (|q| + 1));
        Take(url, s, 4) == (q + [t[0]] + more.0, more.1)
  {
    hide Take;
    hide Skip;
    var t := Skip(url, input);
    TakeStep(url, input, 4 - |q|);
    if t == [] {
      assert q + [] == q;
    } else {
      Associate(q, [t[0]], Take(url, t[1..], 4 - (|q| + 1)).0);
    }
  }

  lemma TakeStep(url: bool, s: seq<Byte>, n: nat)
    ensures n > 0 ==> var t := Skip(url, s);
      Take(url, s, n)
        == if t == [] then ([], []) else ([t[0]] + Take(url, t[1..], n - 1).0, Take(url, t[1..], n - 1).1)
    ensures Take(url, s, 0) == ([], s)
  {
  }

  /** A character outside the alphabet fails whatever comes after it. */
  lemma FirstInvalid(options: Options, s: seq<Byte>, q: seq<Byte>, i: nat)
    requires i < |q| && q <= Take(options.url, s, 4).0 && ValueOf(options.url, q[i]) == INVALID
    ensures Decode(options, s) == Decoded([], true)
  {
    assert Take(options.url, s, 4).0[i] == q[i];
  }

  // ---- The round trip -------------------------------------------------------------------------------

  lemma LowPart(high: nat, low: nat, n: nat)
    requires low < n && (n == 16 || n == 4)
    ensures (high * n + low) % n == low && (high * n + low) / n == high
  {
  }

  // The bytes come back from their six-bit values.

  lemma FirstBack(a: Byte, b: Byte)
    ensures First(Index0(a), Index1(a, b)) == a
  {
    LowPart(a % 4, b / 16, 16);
  }

  lemma SecondBack(a: Byte, b: Byte, c: Byte)
    ensures Second(Index1(a, b), Index2(b, c)) == b
  {
    LowPart(a % 4, b / 16, 16);
    LowPart(b % 16, c / 64, 4);
  }

  lemma ThirdBack(b: Byte, c: Byte)
    ensures Third(Index2(b, c), Index3(c)) == c
  {
    TopBits(b % 16, c / 64);
  }

  /** Only the two lowest of these bits stay within the byte. */
  lemma TopBits(high: nat, low: nat)
    requires low < 4
    ensures (high * 4 + low) * 64 % 256 == low * 64
  {
    assert (high * 4 + low) * 64 == 256 * high + low * 64;
  }

  lemma QuadValid(url: bool, a: Byte, b: Byte, c: Byte)
    ensures AllValid(url, Quad(url, a, b, c)) && Bytes(url, Quad(url, a, b, c)) == [a, b, c]
  {
    hide Letter;
    hide First;
    hide Second;
    hide Third;
    hide Index0;
    hide Index1;
    hide Index2;
    hide Index3;
    ValueOfLetter(url, Index0(a));
    ValueOfLetter(url, Index1(a, b));
    ValueOfLetter(url, Index2(b, c));
    ValueOfLetter(url, Index3(c));
    FirstBack(a, b);
    SecondBack(a, b, c);
    ThirdBack(b, c);
  }

  /** Two characters with padding stand for one byte. */
  lemma Tail1Valid(url: bool, a: Byte)
    ensures var q := Tail1(url, a) + [PAD, PAD];
      AllValid(url, q) && Bytes(url, q) == [a]
  {
    hide Letter;
    hide First;
    hide Second;
    hide Third;
    hide Index0;
    hide Index1;
    hide Index2;
    hide Index3;
    ValueOfLetter(url, Index0(a));
    ValueOfLetter(url, Index1(a, 0));
    FirstBack(a, 0);
    assert Tail1(url, a) + [PAD, PAD] == [Letter(url, Index0(a)), Letter(url, Index1(a, 0)), PAD, PAD];
  }

  /** Three characters with padding stand for two bytes. */
  lemma Tail2Valid(url: bool, a: Byte, b: Byte)
    ensures var q := Tail2(url, a, b) + [PAD];
      AllValid(url, q) && Bytes(url, q) == [a, b]
  {
    hide Letter;
    hide First;
    hide Second;
    hide Third;
    hide Index0;
    hide Index1;
    hide Index2;
    hide Index3;
    ValueOfLetter(url, Index0(a));
    ValueOfLetter(url, Index1(a, b));
    ValueOfLetter(url, Index2(b, 0));
    FirstBack(a, b);
    SecondBack(a, b, 0);
    assert Tail2(url, a, b) + [PAD]
        == [Letter(url, Index0(a)), Letter(url, Index1(a, b)), Letter(url, Index2(b, 0)), PAD];
  }

  /**
   * Decoding a group yields the highest bytes of the number its characters stand for, padding counting
   * as zero bits: one, two or all three of them, as the padding says. Any bits left over are dropped.
   */
  lemma GroupDigits(url: bool, q: seq<Byte>)
    requires |q| == 4 && AllValid(url, q)
    ensures var x := GroupNumber(ValueOf(url, q[0]), ValueOf(url, q[1]), ValueOf(url, q[2]), ValueOf(url, q[3]));
      var r := Bytes(url, q);
      if q[2] == PAD then |r| == 1 && ByteNumber(r) == x / 0x1_0000
      else if q[3] == PAD then |r| == 2 && ByteNumber(r) == x / 0x100
      else |r| == 3 && ByteNumber(r) == x
  {
    hide ValueOf, First, Second, Third, GroupNumber;
    var v0, v1, v2, v3 := ValueOf(url, q[0]), ValueOf(url, q[1]), ValueOf(url, q[2]), ValueOf(url, q[3]);
    HighestBytes(v0, v1, v2, v3);
    ByteNumberPush([], First(v0, v1));
    ByteNumberPush([First(v0, v1)], Second(v1, v2));
    ByteNumberPush([First(v0, v1), Second(v1, v2)], Third(v2, v3));
    assert [] + [First(v0, v1)] == [First(v0, v1)];
    assert [First(v0, v1)] + [Second(v1, v2)] == [First(v0, v1), Second(v1, v2)];
    assert [First(v0, v1), Second(v1, v2)] + [Third(v2, v3)] == [First(v0, v1), Second(v1, v2), Third(v2, v3)];
  }

  lemma HighestBytes(v0: nat, v1: nat, v2: nat, v3: nat)
    requires v0 < 64 && v1 < 64 && v2 < 64 && v3 < 64
    ensures var x := GroupNumber(v0, v1, v2, v3);
      && First(v0, v1) == x / 0x1_0000 && 256 * First(v0, v1) + Second(v1, v2) == x / 0x100
      && 256 * (256 * First(v0, v1) + Second(v1, v2)) + Third(v2, v3) == x
  {
    hide First, Second, Third, GroupNumber;
    BytesOfNumber(v0, v1, v2, v3);
    TopBytes(First(v0, v1), Second(v1, v2), Third(v2, v3));
  }

  lemma BytesOfNumber(v0: nat, v1: nat, v2: nat, v3: nat)
    requires v0 < 64 && v1 < 64 && v2 < 64 && v3 < 64
    ensures 256 * (256 * First(v0, v1) + Second(v1, v2)) + Third(v2, v3) == GroupNumber(v0, v1, v2, v3)
  {
    FirstIs(v0, v1);
    ThirdIs(v2, v3);
    hide First, Third;
  }

  lemma FirstIs(v0: nat, v1: nat)
    requires v0 < 64 && v1 < 64
    ensures First(v0, v1) == 4 * v0 + v1 / 16
  {
  }

  lemma ThirdIs(v2: nat, v3: nat)
    requires v2 < 64 && v3 < 64
    ensures Third(v2, v3) == 64 * (v2 % 4) + v3
  {
    TopBits(v2 / 4, v2 % 4);
  }

  lemma TopBytes(a: nat, b: nat, c: nat)
    requires b < 256 && c < 256
    ensures (256 * (256 * a + b) + c) / 0x100 == 256 * a + b
    ensures (256 * (256 * a + b) + c) / 0x1_0000 == a
  {
  }

  // ---- White space, and what is left at the end -------------------------------------------------------

  function WithoutSpaces(s: seq<Byte>): seq<Byte>
  {
    if s == [] then []
    else (if s[0] in [Code(' '), Code('\t'), Code('\r'), Code('\n')] then [] else [s[0]]) + WithoutSpaces(s[1..])
  }

  lemma SpacesStep(s: seq<Byte>)
    requires s != []
    ensures WithoutSpaces(s) == if IsSpace(s[0]) then WithoutSpaces(s[1..]) else [s[0]] + WithoutSpaces(s[1..])
  {
    SpaceTable(s[0]);
    hide IsSpace, Code;
    assert [] + WithoutSpaces(s[1..]) == WithoutSpaces(s[1..]);
  }

  lemma {:induction false} SpacesSkipped(s: seq<Byte>)
    ensures var t := Skip(false, s);
      WithoutSpaces(s) == if t == [] then [] else [t[0]] + WithoutSpaces(t[1..])
  {
    if s != [] {
      hide IsSpace, WithoutSpaces;
      SpacesStep(s);
      if IsSpace(s[0]) {
        SpacesSkipped(s[1..]);
      }
    }
  }

  lemma {:induction false} SpacesTaken(s: seq<Byte>, n: nat)
    ensures Take(false, WithoutSpaces(s), n) == (Take(false, s, n).0, WithoutSpaces(Take(false, s, n).1))
    decreases n
  {
    hide Skip, WithoutSpaces;
    SpacesSkipped(s);
    SpacesSkipped(WithoutSpaces(s));
    NoneLeft(s);
    if n > 0 && Skip(false, s) != [] {
      SpacesTaken(Skip(false, s)[1..], n - 1);
    }
  }

  /** Without white space nothing is skipped. */
  lemma NoneLeft(s: seq<Byte>)
    ensures Skip(false, WithoutSpaces(s)) == WithoutSpaces(s) && WithoutSpaces([]) == []
  {
    hide Skip, WithoutSpaces;
    SpacesSkipped(s);
    SkipNothing(WithoutSpaces(s), Skip(false, s));
    Empty();
  }

  lemma Empty()
    ensures WithoutSpaces([]) == []
  {
  }

  lemma SkipNothing(q: seq<Byte>, t: seq<Byte>)
    requires t != [] ==> !IsSpace(t[0])
    requires q != [] ==> t != [] && q[0] == t[0]
    ensures Skip(false, q) == q
  {
    hide IsSpace;
  }

  /** In the standard alphabet blanks, tabs and line breaks do not matter, wherever they are. */
  lemma {:induction false} SpacesIgnored(o: Options, s: seq<Byte>)
    requires !o.url
    ensures Decode(o, WithoutSpaces(s)) == Decode(o, s)
    decreases |s|
  {
    hide Take, WithoutSpaces, Bytes, AllValid;
    SpacesTaken(s, 4);
    var rest := Take(false, s, 4).1;
    if Take(false, s, 4).0 != [] {
      SpacesIgnored(o, rest);
    }
  }

  /** A single character left at the end is dropped without complaint. */
  lemma SingleDropped(o: Options, c: Byte)
    requires ValueOf(o.url, c) != INVALID && !IsSpace(c)
    ensures Decode(o, [c]) == Decoded([], false)
  {
    hide ValueOf, IsSpace, Bytes;
    TakeShort(o.url, [c], 4);
  }

  predicate NoSpaces(q: seq<Byte>)
  {
    forall i :: 0 <= i < |q| ==> !IsSpace(q[i])
  }

  /** Characters other than white space are taken as they stand. */
  lemma {:induction false} TakeClean(url: bool, q: seq<Byte>, rest: seq<Byte>)
    requires NoSpaces(q)
    ensures Take(url, q + rest, |q|) == (q, rest)
  {
    if q == [] {
      assert [] + rest == rest;
    } else {
      assert (q + rest)[1..] == q[1..] + rest && (q + rest)[0] == q[0];
      TakeClean(url, q[1..], rest);
      assert [q[0]] + q[1..] == q;
    }
  }

  /** And at the end of the input there is nothing more to take. */
  lemma {:induction false} TakeShort(url: bool, q: seq<Byte>, n: nat)
    requires NoSpaces(q) && |q| <= n
    ensures Take(url, q, n) == (q, [])
  {
    if q != [] {
      TakeShort(url, q[1..], n - 1);
      assert [q[0]] + q[1..] == q;
    }
  }

  /** A group of four decodes to its bytes, and decoding goes on behind it. */
  lemma GroupDecoded(o: Options, q: seq<Byte>, rest: seq<Byte>)
    requires |q| == 4 && NoSpaces(q) && AllValid(o.url, q)
    ensures Decode(o, q + rest) == Decoded(Bytes(o.url, q) + Decode(o, rest).bytes, Decode(o, rest).failed)
  {
    hide Take;
    hide Bytes;
    TakeClean(o.url, q, rest);
  }

  lemma BreakDecoded(o: Options, rest: seq<Byte>)
    ensures o.url ==> Decode(o, [CR, LF] + rest) == Decoded([], true)
    ensures !o.url ==> Decode(o, [CR, LF] + rest) == Decode(o, rest)
  {
    var s := [CR, LF] + rest;
    TakeStep(o.url, s, 4);
    if o.url {
      assert Take(o.url, s, 4).0[0] == CR;
    } else {
      assert s[1..][1..] == rest;
      assert Skip(o.url, s) == Skip(o.url, s[1..]) == Skip(o.url, rest);
      TakeStep(o.url, rest, 4);
      SameTake(o, s, rest);
    }
  }

  lemma SameTake(o: Options, s: seq<Byte>, t: seq<Byte>)
    requires Take(o.url, s, 4) == Take(o.url, t, 4)
    ensures Decode(o, s) == Decode(o, t)
  {
  }

  /** A line break is written within n groups. */
  predicate Breaks(lineLength: int, n: nat)
  {
    lineLength > 0 && 4 * n >= lineLength
  }

  lemma {:induction false} PositionInLine(url: bool, lineLength: int, data: seq<Byte>)
    requires |data| % 3 == 0 && !Breaks(lineLength, |data| / 3)
    ensures Groups(url, lineLength, data).pos == 4 * (|data| / 3)
    decreases |data|
  {
    if data != [] {
      PositionInLine(url, lineLength, data[..|data| - 3]);
    }
  }

  /** One group and the line break after it, if there is one. */
  lemma GroupStep(o: Options, a: Byte, b: Byte, c: Byte, ends: bool, rest: seq<Byte>)
    ensures Decode(o, Quad(o.url, a, b, c) + if ends then [CR, LF] + rest else rest)
         == if o.url && ends then Decoded([a, b, c], true) else Before([a, b, c], Decode(o, rest))
  {
    hide Decode;
    hide Quad;
    QuadValid(o.url, a, b, c);
    assert NoSpaces(Quad(o.url, a, b, c)) by {
      QuadClean(o.url, a, b, c);
    }
    GroupDecoded(o, Quad(o.url, a, b, c), if ends then [CR, LF] + rest else rest);
    BreakDecoded(o, rest);
    assert [a, b, c] + [] == [a, b, c];
  }

  lemma QuadClean(url: bool, a: Byte, b: Byte, c: Byte)
    ensures NoSpaces(Quad(url, a, b, c))
  {
    hide Letter;
  }

  /** How the output for whole groups continues after the earlier ones. */
  lemma LastGroup(url: bool, lineLength: int, data: seq<Byte>, rest: seq<Byte>)
    requires |data| % 3 == 0 && data != []
    ensures var n := |data| - 3;
      var w := Groups(url, lineLength, data[..n]);
      var after := if lineLength > 0 && w.pos + 4 >= lineLength then [CR, LF] + rest else rest;
      Groups(url, lineLength, data).out + rest == w.out + (Quad(url, data[n], data[n + 1], data[n + 2]) + after)
  {
    var n := |data| - 3;
    var w := Groups(url, lineLength, data[..n]);
    var q := Quad(url, data[n], data[n + 1], data[n + 2]);
    hide Quad;
    Associate(w.out, q, rest);
    Associate(w.out, q, [CR, LF] + rest);
    assert w.out + q + [CR] + [LF] == (w.out + q) + [CR, LF];
    Associate(w.out + q, [CR, LF], rest);
  }

  /** Whole groups decode to their data, unless the alphabet does not skip a line break among them. */
  lemma {:induction false} GroupsDecoded(o: Options, lineLength: int, data: seq<Byte>, rest: seq<Byte>)
    requires |data| % 3 == 0
    ensures var d := Decode(o, Groups(o.url, lineLength, data).out + rest);
      if o.url && Breaks(lineLength, |data| / 3) then d.failed else d == Before(data, Decode(o, rest))
    decreases |data|
  {
    hide Decode;
    hide Quad;
    if data == [] {
      assert [] + rest == rest;
      assert [] + Decode(o, rest).bytes == Decode(o, rest).bytes;
    } else {
      var n := |data| - 3;
      LastGroup(o.url, lineLength, data, rest);
      if !Breaks(lineLength, n / 3) {
        PositionInLine(o.url, lineLength, data[..n]);
      }
      var w := Groups(o.url, lineLength, data[..n]);
      hide Groups;
      var q := Quad(o.url, data[n], data[n + 1], data[n + 2]);
      var ends := lineLength > 0 && w.pos + 4 >= lineLength;
      var after := if ends then [CR, LF] + rest else rest;
      GroupsDecoded(o, lineLength, data[..n], q + after);
      GroupStep(o, data[n], data[n + 1], data[n + 2], ends, rest);
      assert data == data[..n] + [data[n], data[n + 1], data[n + 2]];
      Associate(data[..n], [data[n], data[n + 1], data[n + 2]], Decode(o, rest).bytes);
      assert |data| / 3 == n / 3 + 1;
    }
  }

  /** The decoder's options allow for what the encoder left out. */
  predicate PaddingMatches(enc: Options, dec: Options, n: nat)
  {
    dec.noPadding || !enc.noPadding || n == 0
  }

  /** The end of the input: two or three characters, with or without their padding. */
  lemma EndDecoded(o: Options, q: seq<Byte>, data: seq<Byte>, padded: bool)
    requires 2 <= |q| < 4 && NoSpaces(q) && AllValid(o.url, Padded(q)) && Bytes(o.url, Padded(q)) == data
    ensures Decode(o, if padded then Padded(q) else q)
         == if o.noPadding || padded then Decoded(data, false) else Decoded([], true)
  {
    var s := if padded then Padded(q) else q;
    assert NoSpaces(Padded(q));
    assert AllValid(o.url, q) by {
      assert forall i :: 0 <= i < |q| ==> q[i] == Padded(q)[i];
    }
    TakeShort(o.url, s, 4);
    assert Padded(s) == Padded(q);
    hide Bytes;
    hide Take;
    assert Decode(o, []) == Decoded([], false);
    assert data + [] == data;
  }

  lemma Tail1Clean(url: bool, a: Byte)
    ensures |Tail1(url, a)| == 2 && NoSpaces(Tail1(url, a))
  {
    hide Letter;
  }

  lemma Tail2Clean(url: bool, a: Byte, b: Byte)
    ensures |Tail2(url, a, b)| == 3 && NoSpaces(Tail2(url, a, b))
  {
    hide Letter;
  }

  lemma NothingDecoded(o: Options)
    ensures Decode(o, []) == Decoded([], false)
  {
  }

  lemma TailDecoded(enc: Options, dec: Options, rest: seq<Byte>)
    requires |rest| < 3 && enc.url == dec.url
    ensures Decode(dec, Tail(enc, rest))
         == if PaddingMatches(enc, dec, |rest|) then Decoded(rest, false) else Decoded([], true)
  {
    hide Decode;
    hide Bytes;
    hide ValueOf;
    if |rest| == 1 {
      Tail1Valid(enc.url, rest[0]);
      Tail1Clean(enc.url, rest[0]);
      assert rest == [rest[0]];
      EndDecoded(dec, Tail1(enc.url, rest[0]), rest, !enc.noPadding);
      assert Tail1(enc.url, rest[0]) + [] == Tail1(enc.url, rest[0]);
    } else if |rest| == 2 {
      Tail2Valid(enc.url, rest[0], rest[1]);
      Tail2Clean(enc.url, rest[0], rest[1]);
      assert rest == [rest[0], rest[1]];
      EndDecoded(dec, Tail2(enc.url, rest[0], rest[1]), rest, !enc.noPadding);
      assert Tail2(enc.url, rest[0], rest[1]) + [] == Tail2(enc.url, rest[0], rest[1]);
    } else {
      NothingDecoded(dec);
    }
  }

  /**
   * Decoding the complete output gives back the data, exactly when the decoder knows of left out
   * padding and no line break is written in the alphabet that does not skip it.
   */
  lemma RoundTrip(enc: Options, dec: Options, lineLength: int, data: seq<Byte>)
    requires enc.url == dec.url
    ensures Decode(dec, Encode(enc, lineLength, data)) == Decoded(data, false)
       <==> PaddingMatches(enc, dec, |data| % 3) && !(enc.url && Breaks(lineLength, |data| / 3))
  {
    hide Decode;
    hide Tail;
    var n := Whole(data);
    var rest := data[n..];
    GroupsDecoded(dec, lineLength, data[..n], Tail(enc, rest));
    TailDecoded(enc, dec, rest);
    hide Groups;
    assert data == data[..n] + rest;
    assert n / 3 == |data| / 3 && |rest| == |data| % 3;
  }
}
