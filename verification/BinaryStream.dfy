/** Binary streams: integers in either byte order, 7-bit encoded integers and strings. */
module BinaryStream {
  import opened Common
  import opened Octets
  import opened Powers

  const W32 := 0x1_0000_0000
  const W64 := 0x1_0000_0000_0000_0000

  // ---- Byte order -----------------------------------------------------------------------------------

  /** The n low bytes of a number, lowest first. */
  function Little(v: nat, n: nat): (s: seq<Byte>)
    ensures |s| == n
  {
    if n == 0 then [] else [v % 256] + Little(v / 256, n - 1)
  }

  function FromLittle(s: seq<Byte>): nat
  {
    if s == [] then 0 else s[0] + 256 * FromLittle(s[1..])
  }

  function Reverse(s: seq<Byte>): (r: seq<Byte>)
    ensures |r| == |s|
  {
    if s == [] then [] else Reverse(s[1..]) + [s[0]]
  }

  function Flip16(v: nat): nat
  {
    v / 0x100 % 0x100 + v % 0x100 * 0x100
  }

  function Flip32(v: nat): nat
  {
    v / 0x100_0000 % 0x100 + v / 0x1_0000 % 0x100 * 0x100 + v / 0x100 % 0x100 * 0x1_0000 + v % 0x100 * 0x100_0000
  }

  function Flip64(v: nat): nat
  {
    Flip32(v / W32) + Flip32(v % W32) * W32
  }

  /** ByteOrder::flipBytes on two, four or eight bytes. */
  function FlipBytes(v: nat, n: nat): nat
  {
    if n == 2 then Flip16(v) else if n == 4 then Flip32(v) else if n == 8 then Flip64(v) else v
  }

  predicate FixedSize(n: nat)
  {
    n == 2 || n == 4 || n == 8
  }

  /** A number in memory. */
  function Memory(bigHost: bool, v: nat, n: nat): (s: seq<Byte>)
    ensures |s| == n
  {
    if bigHost then Reverse(Little(v, n)) else Little(v, n)
  }

  function FromMemory(bigHost: bool, s: seq<Byte>): nat
  {
    if bigHost then FromLittle(Reverse(s)) else FromLittle(s)
  }

  lemma {:induction false} LittleBack(v: nat, n: nat)
    requires v < Pow(256, n)
    ensures FromLittle(Little(v, n)) == v
    decreases n
  {
    if n > 0 {
      LittleBack(v / 256, n - 1);
      assert Little(v, n)[1..] == Little(v / 256, n - 1);
    }
  }

  lemma {:induction false} LittleOf(s: seq<Byte>)
    ensures Little(FromLittle(s), |s|) == s
  {
    if s != [] {
      LittleOf(s[1..]);
      LittleFirst(s[0], FromLittle(s[1..]), |s| - 1);
      assert s == [s[0]] + s[1..];
    }
  }

  lemma LittleFirst(b: Byte, t: nat, n: nat)
    ensures Little(b + 256 * t, n + 1) == [b] + Little(t, n)
  {
    assert (b + 256 * t) % 256 == b && (b + 256 * t) / 256 == t;
  }

  lemma {:induction false} ReverseAppend(s: seq<Byte>, c: Byte)
    ensures Reverse(s + [c]) == [c] + Reverse(s)
  {
    if s == [] {
      assert s + [c] == [c];
    } else {
      ReverseAppend(s[1..], c);
      assert (s + [c])[1..] == s[1..] + [c];
    }
  }

  lemma {:induction false} ReverseTwice(s: seq<Byte>)
    ensures Reverse(Reverse(s)) == s
  {
    if s != [] {
      ReverseTwice(s[1..]);
      ReverseAppend(Reverse(s[1..]), s[0]);
      assert s == [s[0]] + s[1..];
    }
  }

  // The bytes of flipped numbers.

  lemma Little2(v: nat)
    ensures Little(v, 2) == [v % 256, v / 0x100 % 256]
  {
    assert Little(v / 0x100, 1) == [v / 0x100 % 256] + Little(v / 0x100 / 256, 0);
  }

  lemma Little4(v: nat)
    ensures Little(v, 4) == [v % 256, v / 0x100 % 256, v / 0x1_0000 % 256, v / 0x100_0000 % 256]
  {
    Little2(v / 0x1_0000);
    assert Little(v / 0x100, 3) == [v / 0x100 % 256] + Little(v / 0x100 / 256, 2);
    assert v / 0x100 / 256 == v / 0x1_0000 && v / 0x1_0000 / 0x100 == v / 0x100_0000;
  }

  lemma Reverse2(a: Byte, b: Byte)
    ensures Reverse([a, b]) == [b, a]
  {
    assert [a, b][1..] == [b] && [b][1..] == [];
  }

  lemma Reverse4(a: Byte, b: Byte, c: Byte, d: Byte)
    ensures Reverse([a, b, c, d]) == [d, c, b, a]
  {
    assert [a, b, c, d][1..] == [b, c, d] && [b, c, d][1..] == [c, d];
    Reverse2(c, d);
  }

  lemma Flip16Little(v: nat)
    ensures Little(Flip16(v), 2) == Reverse(Little(v, 2))
  {
    Little2(v);
    Little2(Flip16(v));
    Reverse2(v % 256, v / 0x100 % 256);
  }

  lemma Flip32Little(v: nat)
    ensures Little(Flip32(v), 4) == Reverse(Little(v, 4)) && Flip32(v) < W32
  {
    var a, b, c, d := v % 256, v / 0x100 % 256, v / 0x1_0000 % 256, v / 0x100_0000 % 256;
    Little4(v);
    Reverse4(a, b, c, d);
    FourBytes(d, c, b, a);
    LittleOf([d, c, b, a]);
  }

  lemma FourBytes(a: Byte, b: Byte, c: Byte, d: Byte)
    ensures FromLittle([a, b, c, d]) == a + b * 0x100 + c * 0x1_0000 + d * 0x100_0000
  {
    assert [a, b, c, d][1..] == [b, c, d] && [b, c, d][1..] == [c, d] && [c, d][1..] == [d] && [d][1..] == [];
    assert FromLittle([d]) == d + 256 * FromLittle([]);
    assert FromLittle([c, d]) == c + 256 * FromLittle([d]);
    assert FromLittle([b, c, d]) == b + 256 * FromLittle([c, d]);
  }

  lemma {:induction false} FromLittleAppend(s: seq<Byte>, t: seq<Byte>)
    ensures FromLittle(s + t) == FromLittle(s) + Pow(256, |s|) * FromLittle(t)
  {
    if s == [] {
      assert s + t == t;
    } else {
      FromLittleAppend(s[1..], t);
      assert (s + t)[1..] == s[1..] + t;
      Scale256(Pow(256, |s| - 1), FromLittle(t));
    }
  }

  lemma Scale256(p: nat, x: nat)
    ensures 256 * (p * x) == (256 * p) * x
  {
  }

  lemma {:induction false} ReverseJoin(s: seq<Byte>, t: seq<Byte>)
    ensures Reverse(s + t) == Reverse(t) + Reverse(s)
  {
    if s == [] {
      assert s + t == t;
      assert Reverse(t) + [] == Reverse(t);
    } else {
      ReverseJoin(s[1..], t);
      assert (s + t)[1..] == s[1..] + t && (s + t)[0] == s[0];
      Associate(Reverse(t), Reverse(s[1..]), [s[0]]);
    }
  }

  lemma FourBytesRange()
    ensures Pow(256, 2) == 0x1_0000 && Pow(256, 4) == W32 && Pow(256, 8) == W64
  {
    assert Pow(256, 1) == 256 * Pow(256, 0);
    assert Pow(256, 2) == 256 * Pow(256, 1);
    PowAdd(256, 2, 2);
    PowAdd(256, 4, 4);
  }

  /** Eight bytes are two halves. */
  lemma Halves(lo: nat, hi: nat)
    requires lo < W32 && hi < W32
    ensures Little(lo + hi * W32, 8) == Little(lo, 4) + Little(hi, 4)
  {
    hide Little, FromLittle, Pow;
    FourBytesRange();
    LittleBack(lo, 4);
    LittleBack(hi, 4);
    FromLittleAppend(Little(lo, 4), Little(hi, 4));
    LittleOf(Little(lo, 4) + Little(hi, 4));
  }

  lemma Flip64Little(v: nat)
    requires v < W64
    ensures Little(Flip64(v), 8) == Reverse(Little(v, 8))
  {
    hide Flip32;
    hide Little;
    var lo, hi := v % W32, v / W32;
    assert v == lo + hi * W32;
    Flip32Little(lo);
    Flip32Little(hi);
    Halves(lo, hi);
    Halves(Flip32(hi), Flip32(lo));
    ReverseJoin(Little(lo, 4), Little(hi, 4));
  }

  /** Flipping a number reverses its bytes. */
  lemma FlipReverses(v: nat, n: nat)
    requires FixedSize(n) && (n == 8 ==> v < W64)
    ensures Little(FlipBytes(v, n), n) == Reverse(Little(v, n))
  {
    if n == 2 {
      Flip16Little(v);
    } else if n == 4 {
      Flip32Little(v);
    } else {
      Flip64Little(v);
    }
  }

  // ---- The format -----------------------------------------------------------------------------------

  /** A fixed-size number in the stream: big end first or not. */
  function Fixed(big: bool, v: nat, n: nat): (s: seq<Byte>)
    ensures |s| == n
  {
    if big then Reverse(Little(v, n)) else Little(v, n)
  }

  function FromFixed(big: bool, s: seq<Byte>): nat
  {
    if big then FromLittle(Reverse(s)) else FromLittle(s)
  }

  /** Seven bits to a byte, the lowest first; all but the last byte with the top bit set. */
  function Packed(v: nat): (s: seq<Byte>)
    ensures s != []
  {
    if v < 128 then [v] else [v % 128 + 128] + Packed(v / 128)
  }

  /** What reading a packed number yields: the number, the rest of the input, and whether the stream is good. */
  datatype Unpacked = Unpacked(value: nat, rest: seq<Byte>, good: bool)

  /** The bits x << shift that fit into a word of w. */
  function Shifted(x: nat, shift: nat, w: nat): nat
    requires w > 0
  {
    x * Pow(2, shift) % w
  }

  /** Addition in words of w. */
  function Add(a: nat, b: nat, w: nat): (r: nat)
    requires w > 0
    ensures r < w
  {
    (a + b) % w
  }

  /** Reading a packed number into a word of w (2^32 or 2^64) from the given bit on. */
  function Unpack(s: seq<Byte>, shift: nat, w: nat): Unpacked
    requires w > 0
  {
    if s == [] then Unpacked(0, [], false)
    else
      var x := Shifted(s[0] % 128, shift, w);
      if s[0] < 128 then Unpacked(x, s[1..], true)
      else
        var more := Unpack(s[1..], shift + 7, w);
        Unpacked(Add(x, more.value, w), more.rest, more.good)
  }

  /** What is written to and read from a stream. */
  datatype Item =
    | FixedItem(value: nat, size: nat)
    | PackedItem(value: nat, word: nat)
    | StringItem(text: seq<Byte>)

  predicate ItemOk(i: Item)
  {
    match i
    case FixedItem(v, n) => FixedSize(n) && v < Pow(256, n)
    case PackedItem(v, w) => (w == W32 || w == W64) && v < w
    case StringItem(_) => true
  }

  /** The bytes of an item in the given byte order; a string's length is cut to 32 bits. */
  function Emit(big: bool, i: Item): seq<Byte>
  {
    match i
    case FixedItem(v, n) => Fixed(big, v, n)
    case PackedItem(v, _) => Packed(v)
    case StringItem(text) => Packed(|text| % W32) + text[..|text| % W32]
  }

  function EmitAll(big: bool, items: seq<Item>): seq<Byte>
  {
    if items == [] then [] else Emit(big, items[0]) + EmitAll(big, items[1..])
  }

  // ---- Writing --------------------------------------------------------------------------------------

  /** A writer on a host of either byte order. */
  class BinaryWriter {
    const bigHost: bool
    const flipBytes: bool
    var out: seq<Byte>

    /** The byte order in the stream. */
    predicate Big()
    {
      bigHost != flipBytes
    }

    constructor (bigHost: bool, bigStream: bool)
      ensures this.bigHost == bigHost && Big() == bigStream && out == []
    {
      this.bigHost := bigHost;
      flipBytes := if bigHost then !bigStream else bigStream;
      out := [];
    }

    method WriteFixed(v: nat, n: nat)
      requires FixedSize(n) && v < Pow(256, n)
      modifies this
      ensures out == old(out) + Emit(Big(), FixedItem(v, n))
    {
      FourBytesRange();
      FlipReverses(v, n);
      ReverseTwice(Little(v, n));
      if flipBytes {
        var f := FlipBytes(v, n);
        out := out + Memory(bigHost, f, n);
      } else {
        out := out + Memory(bigHost, v, n);
      }
    }

    method Write7BitEncoded(v: nat)
      modifies this
      ensures out == old(out) + Packed(v)
    {
      var value := v;
      while true
        invariant out + Packed(value) == old(out) + Packed(v)
        decreases value
      {
        ghost var before, value0 := out, value;
        var c := value % 128;
        value := value / 128;
        if value != 0 {
          c := c + 0x80;
        }
        out := out + [c];
        if value == 0 {
          break;
        }
        Associate(before, [c], Packed(value));
      }
    }

    method WriteString(text: seq<Byte>)
      modifies this
      ensures out == old(out) + Emit(Big(), StringItem(text))
    {
      var length := |text| % W32;
      ghost var before := out;
      Write7BitEncoded(length);
      Associate(before, Packed(length), text[..length]);
      out := out + text[..length];
    }

    /** The byte order mark. */
    method WriteBOM()
      modifies this
      ensures out == old(out) + Fixed(Big(), 0xFEFF, 2)
    {
      FourBytesRange();
      FlipReverses(0xFEFF, 2);
      ReverseTwice(Little(0xFEFF, 2));
      var value := 0xFEFF;
      if flipBytes {
        value := FlipBytes(value, 2);
      }
      out := out + Memory(bigHost, value, 2);
    }
  }

  // ---- Reading --------------------------------------------------------------------------------------

  /** The bytes a read of n gets from a stream. */
  function Available(good: bool, input: seq<Byte>, n: nat): (got: seq<Byte>)
    ensures |got| <= n && |got| <= |input|
  {
    if !good then [] else if |input| < n then input else input[..n]
  }

  class BinaryReader {
    const bigHost: bool
    var flipBytes: bool
    var input: seq<Byte>
    var good: bool

    predicate Big()
      reads this
    {
      bigHost != flipBytes
    }

    constructor (bigHost: bool, flipBytes: bool, input: seq<Byte>)
      ensures this.bigHost == bigHost && this.flipBytes == flipBytes && this.input == input && good
    {
      this.bigHost, this.flipBytes, this.input, good := bigHost, flipBytes, input, true;
    }

    /** istream::read: up to n bytes, none if the stream has failed before. */
    method ReadBytes(n: nat) returns (got: seq<Byte>)
      modifies this`input, this`good
      ensures got == Available(old(good), old(input), n) && input == old(input)[|got|..]
      ensures good <==> old(good) && |old(input)| >= n
    {
      if !good {
        return [];
      }
      if |input| < n {
        got := input;
        input, good := [], false;
      } else {
        got := input[..n];
        input := input[n..];
      }
    }

    /** Reads over a number that was there before; what the input does not cover keeps its bytes. */
    method ReadFixed(n: nat, was: nat) returns (v: nat)
      requires FixedSize(n)
      modifies this`input, this`good
      ensures var got := Available(old(good), old(input), n);
        && v == FromFixed(Big(), got + Memory(bigHost, was, n)[|got|..])
        && input == old(input)[|got|..] && (good <==> old(good) && |old(input)| >= n)
    {
      var got := ReadBytes(n);
      ghost var s := got + Memory(bigHost, was, n)[|got|..];
      v := FromMemory(bigHost, got + Memory(bigHost, was, n)[|got|..]);
      if flipBytes {
        FlipRead(bigHost, s, n);
        v := FlipBytes(v, n);
      }
    }

    /** Reads bytes until one without the top bit, adding up words of w. */
    method Read7BitEncoded(w: nat) returns (value: nat)
      requires w == W32 || w == W64
      modifies this`input, this`good
      ensures if old(good) then Unpack(old(input), 0, w) == Unpacked(value, input, good)
              else value == 0 && input == old(input) && !good
    {
      value := 0;
      if !good {
        return;
      }
      var s := 0;
      ghost var all := Unpack(input, 0, w);
      hide Unpack;
      hide Shifted;
      hide Add;
      UnpackRange(input, 0, w);
      while true
        invariant good && 0 <= value < w
        invariant var more := Unpack(input, s, w);
          all == Unpacked(Add(value, more.value, w), more.rest, more.good)
        decreases |input|
      {
        UnpackStep(input, s, w);
        var c := 0;
        if input == [] {
          good := false;
        } else {
          c := input[0];
          input := input[1..];
        }
        var x := Shifted(c % 128, s, w);
        AddWords(value, x, Unpack(input, s + 7, w).value, w);
        value := Add(value, x, w);
        s := s + 7;
        if c < 0x80 {
          break;
        }
      }
    }

    method ReadString() returns (text: seq<Byte>)
      modifies this`input, this`good
      ensures var u := Unpack(old(input), 0, W32);
        if !old(good) || !u.good then text == [] && !good && input == (if old(good) then u.rest else old(input))
        else if u.value <= |u.rest| then good && text == u.rest[..u.value] && input == u.rest[u.value..]
        else !good && text == u.rest && input == []
    {
      var size := Read7BitEncoded(W32);
      text := [];
      if !good {
        return;
      }
      ghost var rest, length := input, size;
      while size > 0
        invariant good && size >= 0 && size + |text| == length
        invariant |text| <= |rest| && text == rest[..|text|] && input == rest[|text|..]
        decreases size
      {
        size := size - 1;
        if input == [] {
          assert |text| == |rest| && text == rest;
          assert length > |rest|;
          good := false;
          return;
        }
        var c := input[0];
        assert rest[..|text| + 1] == rest[..|text|] + [c];
        input := input[1..];
        text := text + [c];
      }
      assert text == rest[..length];
    }

    /** Takes the byte order from the mark, or from what was in its place if the input is short. */
    method ReadBOM(was: nat)
      modifies this
      ensures var got := Available(old(good), old(input), 2);
        && input == old(input)[|got|..] && (good <==> old(good) && |old(input)| >= 2)
        && flipBytes == (FromMemory(bigHost, got + Memory(bigHost, was, 2)[|got|..]) != 0xFEFF)
    {
      var got := ReadBytes(2);
      var bom := FromMemory(bigHost, got + Memory(bigHost, was, 2)[|got|..]);
      flipBytes := bom != 0xFEFF;
    }
  }

  lemma UnpackRange(s: seq<Byte>, shift: nat, w: nat)
    requires w == W32 || w == W64
    ensures Unpack(s, shift, w).value < w && Add(0, Unpack(s, shift, w).value, w) == Unpack(s, shift, w).value
  {
  }

  lemma UnpackStep(s: seq<Byte>, shift: nat, w: nat)
    requires w == W32 || w == W64
    ensures s == [] ==> Unpack(s, shift, w) == Unpacked(0, [], false) && Shifted(0, shift, w) == 0
    ensures s != [] && s[0] < 128 ==> Unpack(s, shift, w) == Unpacked(Shifted(s[0] % 128, shift, w), s[1..], true)
    ensures s != [] && s[0] >= 128 ==> var more := Unpack(s[1..], shift + 7, w);
      Unpack(s, shift, w) == Unpacked(Add(Shifted(s[0] % 128, shift, w), more.value, w), more.rest, more.good)
  {
  }

  lemma AddWords(a: nat, x: nat, y: nat, w: nat)
    requires w > 0
    ensures Add(Add(a, x, w), y, w) == Add(a, Add(x, y, w), w)
    ensures Add(Add(a, x, w), 0, w) == Add(a, x, w)
  {
    AddSum(a, x, y, w);
    AddSum(x, y, a, w);
    AddSum(a, x, 0, w);
    AddSwap(a, Add(x, y, w), w);
    hide Add;
  }

  lemma AddSwap(a: nat, b: nat, w: nat)
    requires w > 0
    ensures Add(a, b, w) == Add(b, a, w)
  {
  }

  lemma AddSum(a: nat, b: nat, c: nat, w: nat)
    requires w > 0
    ensures Add(Add(a, b, w), c, w) == Add(a + b, c, w) == Add(a + b + c, 0, w)
    ensures Add(a, b, w) == Add(a + b, 0, w)
  {
    AddZero(a, b, w);
    AddZero(a + b, c, w);
    ReducedFirst(a + b, c, w);
    assert Add(Add(a, b, w), c, w) == ((a + b) % w + c) % w;
  }

  lemma AddZero(a: nat, b: nat, w: nat)
    requires w > 0
    ensures Add(a, b, w) == Add(a + b, 0, w)
  {
  }

  /** Reducing a summand first changes nothing. */
  lemma ReducedFirst(s: nat, y: nat, w: nat)
    requires w > 0
    ensures (s % w + y) % w == (s + y) % w
  {
    var u := s % w + y;
    var q, r := u / w, u % w;
    assert s == s / w * w + s % w;
    assert s / w * w + q * w == (s / w + q) * w;
    DivModIs(s + y, w, s / w + q, r);
  }

  /** Flipping what was read as a number reads the bytes the other way round. */
  lemma FlipRead(bigHost: bool, s: seq<Byte>, n: nat)
    requires |s| == n && FixedSize(n)
    ensures FlipBytes(FromMemory(bigHost, s), n) == FromMemory(!bigHost, s)
  {
    var t := if bigHost then Reverse(s) else s;
    var v := FromLittle(t);
    LittleOf(t);
    FromLittleBound(t);
    FourBytesRange();
    FlipReverses(v, n);
    FlipBound(v, n);
    LittleBack(FlipBytes(v, n), n);
    ReverseTwice(s);
  }

  lemma {:induction false} FromLittleBound(s: seq<Byte>)
    ensures FromLittle(s) < Pow(256, |s|)
  {
    if s != [] {
      FromLittleBound(s[1..]);
    }
  }

  lemma FlipBound(v: nat, n: nat)
    requires FixedSize(n) && v < Pow(256, n)
    ensures FlipBytes(v, n) < Pow(256, n)
  {
    FourBytesRange();
    if n == 8 {
      Flip32Little(v / W32);
      Flip32Little(v % W32);
    } else if n == 4 {
      Flip32Little(v);
    }
  }

  // ---- What the bytes mean --------------------------------------------------------------------------

  lemma {:induction false} ReversedNumber(s: seq<Byte>)
    ensures ByteNumber(Reverse(s)) == FromLittle(s)
  {
    if s == [] {
      assert ByteNumber([]) == 0;
    } else {
      ReversedNumber(s[1..]);
      ReversedStep(s);
    }
  }

  lemma ReversedStep(s: seq<Byte>)
    requires s != []
    ensures ByteNumber(Reverse(s)) == 256 * ByteNumber(Reverse(s[1..])) + s[0]
  {
    hide ByteNumber;
    ByteNumberPush(Reverse(s[1..]), s[0]);
  }

  lemma {:induction false} ReverseAt(s: seq<Byte>, i: nat)
    requires i < |s|
    ensures Reverse(s)[i] == s[|s| - 1 - i]
  {
    if i < |s| - 1 {
      ReverseAt(s[1..], i);
    }
  }

  /** With the big end first the bytes are the number's digits to the base 256; the other order mirrors them. */
  lemma FixedMeans(v: nat, n: nat)
    requires v < Pow(256, n)
    ensures ByteNumber(Fixed(true, v, n)) == v
    ensures forall i :: 0 <= i < n ==> Fixed(false, v, n)[i] == Fixed(true, v, n)[n - 1 - i]
  {
    LittleBack(v, n);
    ReversedNumber(Little(v, n));
    forall i | 0 <= i < n
      ensures Fixed(false, v, n)[i] == Fixed(true, v, n)[n - 1 - i]
    {
      ReverseAt(Little(v, n), n - 1 - i);
    }
  }

  /** And so they are read. */
  lemma FromFixedMeans(s: seq<Byte>, mirrored: seq<Byte>)
    requires |mirrored| == |s| && forall i :: 0 <= i < |s| ==> mirrored[i] == s[|s| - 1 - i]
    ensures FromFixed(true, s) == ByteNumber(s) && FromFixed(false, mirrored) == ByteNumber(s)
  {
    forall i | 0 <= i < |s|
      ensures Reverse(s)[i] == mirrored[i]
    {
      ReverseAt(s, i);
    }
    assert Reverse(s) == mirrored;
    ReversedNumber(mirrored);
    ReverseTwice(s);
  }

  /** The byte order mark as it stands in the stream. */
  lemma MarkBytes()
    ensures Fixed(true, 0xFEFF, 2) == [0xFE, 0xFF] && Fixed(false, 0xFEFF, 2) == [0xFF, 0xFE]
  {
    Little2(0xFEFF);
    Reverse2(0xFF, 0xFE);
  }

  /** The number whose digits to the base 128 are the low seven bits of the bytes, the first counting least. */
  function SevenBitNumber(s: seq<Byte>): nat
  {
    if s == [] then 0 else s[0] % 128 + 128 * SevenBitNumber(s[1..])
  }

  /** Every byte but the last says that another one follows. */
  predicate Chained(s: seq<Byte>)
  {
    s != [] && s[|s| - 1] < 128 && forall i :: 0 <= i < |s| - 1 ==> s[i] >= 128
  }

  /** A packed number is its digits to the base 128, chained, without leading zeros. */
  lemma {:induction false} PackedMeans(v: nat)
    ensures var s := Packed(v);
      Chained(s) && SevenBitNumber(s) == v && (|s| > 1 ==> s[|s| - 1] != 0)
    decreases v
  {
    hide SevenBitNumber, Chained, Packed;
    if v < 128 {
      OneByte(v);
    } else {
      PackedMeans(v / 128);
      Continued(v % 128);
      ChainFirst(v % 128 + 128, Packed(v / 128));
      PackedStep(v, Packed(v / 128));
    }
  }

  lemma OneByte(v: nat)
    requires v < 128
    ensures Packed(v) == [v] && Chained([v]) && SevenBitNumber([v]) == v
  {
    assert SevenBitNumber([v]) == v % 128 + 128 * SevenBitNumber([]);
  }

  lemma PackedStep(v: nat, t: seq<Byte>)
    requires v >= 128 && t == Packed(v / 128)
    ensures Packed(v) == [v % 128 + 128] + t
    ensures SevenBitNumber(Packed(v)) == (v % 128 + 128) % 128 + 128 * SevenBitNumber(t)
    ensures |t| == 1 ==> t[0] != 0
  {
    assert ([v % 128 + 128] + t)[1..] == t;
    hide SevenBitNumber;
  }

  /** How many bytes up to and with the first one that ends a packed number, all if there is none. */
  function ChainLength(s: seq<Byte>): (n: nat)
    ensures n <= |s| && (forall i :: 0 <= i < n - 1 ==> s[i] >= 128)
    ensures Chained(s[..n]) || (n == |s| && forall i :: 0 <= i < n ==> s[i] >= 128)
  {
    if s == [] then 0 else if s[0] < 128 then 1
    else
      var n := 1 + ChainLength(s[1..]);
      assert s[..n] == [s[0]] + s[1..][..n - 1];
      n
  }

  /** Reading takes the bytes of a packed number, well-formed or not, to their number modulo the word. */
  lemma {:induction false} UnpackMeans(s: seq<Byte>, shift: nat, w: nat)
    requires w == W32 || w == W64
    ensures var n, u := ChainLength(s), Unpack(s, shift, w);
      && u.value == SevenBitNumber(s[..n]) * Pow(2, shift) % w && u.rest == s[n..]
      && (u.good <==> Chained(s[..n]))
  {
    hide Pow, Unpack, SevenBitNumber, Chained, ChainLength, Shifted, Add;
    UnpackStep(s, shift, w);
    if s == [] {
      NoChain();
      assert s[..0] == [];
    } else {
      if s[0] < 128 {
        ShortChain(s);
        SevenStep(s, 1);
        NoChain();
        assert s[1..][..0] == [];
        ShiftedIs(s[0] % 128, shift, w);
      } else {
        LongChain(s, ChainLength(s));
        SevenStep(s, ChainLength(s));
        UnpackMeans(s[1..], shift + 7, w);
        ShiftedSum(s[0] % 128, SevenBitNumber(s[1..][..ChainLength(s) - 1]), shift, w);
      }
    }
  }

  lemma ShiftedIs(x: nat, shift: nat, w: nat)
    requires w > 0
    ensures Shifted(x, shift, w) == (x + 128 * 0) * Pow(2, shift) % w
  {
  }

  lemma NoChain()
    ensures ChainLength([]) == 0 && !Chained([]) && SevenBitNumber([]) == 0
  {
  }

  lemma ShortChain(s: seq<Byte>)
    requires s != [] && s[0] < 128
    ensures ChainLength(s) == 1 && Chained(s[..1])
  {
  }

  lemma LongChain(s: seq<Byte>, n: nat)
    requires s != [] && s[0] >= 128 && n == ChainLength(s)
    ensures n == 1 + ChainLength(s[1..]) && s[n..] == s[1..][n - 1..]
    ensures Chained(s[..n]) <==> Chained(s[1..][..n - 1])
  {
    LengthStep(s);
    hide Chained, ChainLength;
    ChainFirst(s[0], s[1..][..n - 1]);
    assert s[..n] == [s[0]] + s[1..][..n - 1];
  }

  lemma LengthStep(s: seq<Byte>)
    requires s != [] && s[0] >= 128
    ensures ChainLength(s) == 1 + ChainLength(s[1..])
  {
    hide Chained;
  }

  lemma ChainFirst(b: Byte, t: seq<Byte>)
    requires b >= 128
    ensures Chained([b] + t) <==> Chained(t)
  {
    var s := [b] + t;
    if Chained(s) {
      forall i | 0 <= i < |t| - 1
        ensures t[i] >= 128
      {
        assert s[i + 1] == t[i];
      }
    }
  }

  lemma SevenStep(s: seq<Byte>, n: nat)
    requires 0 < n <= |s|
    ensures SevenBitNumber(s[..n]) == s[0] % 128 + 128 * SevenBitNumber(s[1..][..n - 1])
  {
    assert s[..n][1..] == s[1..][..n - 1];
  }

  lemma ShiftedSum(x: nat, y: nat, shift: nat, w: nat)
    requires w > 0
    ensures Add(Shifted(x, shift, w), y * Pow(2, shift + 7) % w, w) == (x + 128 * y) * Pow(2, shift) % w
  {
    SevenBits(shift);
    var p := Pow(2, shift);
    hide Pow;
    assert (x + 128 * y) * p == x * p + y * (128 * p);
    ReducedFirst(x * p, y * (128 * p) % w, w);
    ReducedFirst(y * (128 * p), x * p, w);
  }

  // ---- The round trip -------------------------------------------------------------------------------

  datatype ItemKind = FixedKind(size: nat) | PackedKind(word: nat) | StringKind

  function KindOf(i: Item): ItemKind
  {
    match i
    case FixedItem(_, n) => FixedKind(n)
    case PackedItem(_, w) => PackedKind(w)
    case StringItem(_) => StringKind
  }

  predicate KindOk(k: ItemKind)
  {
    match k
    case FixedKind(n) => FixedSize(n)
    case PackedKind(w) => w == W32 || w == W64
    case StringKind => true
  }

  /** What the reader makes of the input for one item, and the input after it; none if it runs out. */
  function Parse(big: bool, k: ItemKind, s: seq<Byte>): Option<(Item, seq<Byte>)>
    requires KindOk(k)
  {
    match k
    case FixedKind(n) => if |s| < n then None else Some((FixedItem(FromFixed(big, s[..n]), n), s[n..]))
    case PackedKind(w) =>
      var u := Unpack(s, 0, w);
      if u.good then Some((PackedItem(u.value, w), u.rest)) else None
    case StringKind =>
      var u := Unpack(s, 0, W32);
      if u.good && u.value <= |u.rest| then Some((StringItem(u.rest[..u.value]), u.rest[u.value..])) else None
  }

  /** A packed number shifted into place. */
  lemma {:induction false} PackedBack(v: nat, rest: seq<Byte>, shift: nat, w: nat)
    requires (w == W32 || w == W64) && v * Pow(2, shift) < w
    ensures Unpack(Packed(v) + rest, shift, w) == Unpacked(v * Pow(2, shift), rest, true)
    decreases v
  {
    var p, s := Pow(2, shift), Packed(v) + rest;
    PowPositive(2, shift);
    hide Pow, Packed, Unpack;
    PackedParts(v, rest);
    UnpackStep(s, shift, w);
    SmallMod(v * p, w);
    if v >= 128 {
      var h, l := v / 128, v % 128;
      SevenBits(shift);
      Split(h, l, v, p);
      PackedBack(h, rest, shift + 7, w);
      SmallMod(l * p, w);
    }
  }

  /** The first byte of a packed number, and what follows. */
  lemma PackedParts(v: nat, rest: seq<Byte>)
    ensures var s := Packed(v) + rest;
      && s != [] && s[0] % 128 == v % 128 && (s[0] < 128 <==> v < 128)
      && s[1..] == if v < 128 then rest else Packed(v / 128) + rest
  {
    Continued(v % 128);
    if v < 128 {
      SmallMod(v, 128);
      FirstByte(v, [], rest);
    } else {
      FirstByte(v % 128 + 128, Packed(v / 128), rest);
    }
  }

  lemma Continued(low: nat)
    requires low < 128
    ensures (low + 128) % 128 == low
  {
  }

  lemma FirstByte(b: Byte, t: seq<Byte>, rest: seq<Byte>)
    ensures ([b] + t + rest)[0] == b && ([b] + t + rest)[1..] == t + rest
  {
  }

  lemma SmallMod(x: nat, w: nat)
    requires x < w
    ensures x % w == x
  {
  }

  lemma SevenBits(shift: nat)
    ensures Pow(2, shift + 7) == 128 * Pow(2, shift)
  {
    PowAdd(2, 7, shift);
    assert Pow(2, 7) == 2 * Pow(2, 6) && Pow(2, 6) == 2 * Pow(2, 5) && Pow(2, 5) == 2 * Pow(2, 4);
    assert Pow(2, 4) == 2 * Pow(2, 3) && Pow(2, 3) == 8;
  }

  lemma Split(h: nat, l: nat, v: nat, p: nat)
    requires v == h * 128 + l && p > 0
    ensures h * (128 * p) + l * p == v * p && h * (128 * p) <= v * p && l * p <= v * p
  {
    assert h * (128 * p) == (h * 128) * p;
  }

  /** A fixed-size number read back in the order it was written. */
  lemma FixedBack(big: bool, v: nat, n: nat)
    requires FixedSize(n) && v < Pow(256, n)
    ensures FromFixed(big, Fixed(big, v, n)) == v
  {
    LittleBack(v, n);
    ReverseTwice(Little(v, n));
  }

  /** What comes back: a string only as far as its length fits into 32 bits. */
  function Received(i: Item): Item
  {
    match i
    case StringItem(text) => StringItem(text[..|text| % W32])
    case _ => i
  }

  lemma ItemBack(big: bool, i: Item, rest: seq<Byte>)
    requires ItemOk(i)
    ensures KindOk(KindOf(i)) && Parse(big, KindOf(i), Emit(big, i) + rest) == Some((Received(i), rest))
  {
    var s := Emit(big, i) + rest;
    assert Pow(2, 0) == 1;
    match i
    case FixedItem(v, n) =>
      FixedBack(big, v, n);
      assert s[..n] == Fixed(big, v, n) && s[n..] == rest;
    case PackedItem(v, w) =>
      PackedBack(v, rest, 0, w);
    case StringItem(text) =>
      var n := |text| % W32;
      Associate(Packed(n), text[..n], rest);
      PackedBack(n, text[..n] + rest, 0, W32);
      assert (text[..n] + rest)[..n] == text[..n] && (text[..n] + rest)[n..] == rest;
  }

  function ParseAll(big: bool, kinds: seq<ItemKind>, s: seq<Byte>): Option<(seq<Item>, seq<Byte>)>
    requires forall k :: k in kinds ==> KindOk(k)
  {
    if kinds == [] then Some(([], s))
    else
      var first := Parse(big, kinds[0], s);
      if first.None? then None
      else
        var more := ParseAll(big, kinds[1..], first.value.1);
        if more.None? then None else Some(([first.value.0] + more.value.0, more.value.1))
  }

  function Kinds(items: seq<Item>): (kinds: seq<ItemKind>)
    ensures |kinds| == |items| && forall i :: 0 <= i < |items| ==> kinds[i] == KindOf(items[i])
  {
    seq(|items|, i requires 0 <= i < |items| => KindOf(items[i]))
  }

  function ReceivedAll(items: seq<Item>): (r: seq<Item>)
    ensures |r| == |items| && forall i :: 0 <= i < |items| ==> r[i] == Received(items[i])
  {
    seq(|items|, i requires 0 <= i < |items| => Received(items[i]))
  }

  /** Reading with the same types gives back what was written and consumes exactly that. */
  lemma {:induction false} AllBack(big: bool, items: seq<Item>, rest: seq<Byte>)
    requires forall i :: i in items ==> ItemOk(i)
    ensures (forall k :: k in Kinds(items) ==> KindOk(k))
    ensures ParseAll(big, Kinds(items), EmitAll(big, items) + rest) == Some((ReceivedAll(items), rest))
  {
    if items == [] {
      assert [] + rest == rest;
    } else {
      ItemBack(big, items[0], EmitAll(big, items[1..]) + rest);
      AllBack(big, items[1..], rest);
      assert Kinds(items)[1..] == Kinds(items[1..]);
      assert ReceivedAll(items) == [Received(items[0])] + ReceivedAll(items[1..]);
      Associate(Emit(big, items[0]), EmitAll(big, items[1..]), rest);
    }
  }

  predicate StringsFit(items: seq<Item>)
  {
    forall i :: 0 <= i < |items| && items[i].StringItem? ==> |items[i].text| < W32
  }

  lemma ReceivedSame(i: Item)
    ensures Received(i) == i <==> (i.StringItem? ==> |i.text| < W32)
  {
    if i.StringItem? && |i.text| < W32 {
      assert i.text[..|i.text|] == i.text;
    }
  }

  lemma AllSame(items: seq<Item>)
    ensures ReceivedAll(items) == items <==> StringsFit(items)
  {
    hide Received;
    var r := ReceivedAll(items);
    forall i | 0 <= i < |items| ensures r[i] == items[i] <==> (items[i].StringItem? ==> |items[i].text| < W32) {
      ReceivedSame(items[i]);
    }
  }

  /** The items come back unchanged exactly if every string is shorter than 2^32. */
  lemma RoundTrip(big: bool, items: seq<Item>, rest: seq<Byte>)
    requires forall i :: i in items ==> ItemOk(i)
    ensures (forall k :: k in Kinds(items) ==> KindOk(k))
    ensures ParseAll(big, Kinds(items), EmitAll(big, items) + rest) == Some((items, rest)) <==> StringsFit(items)
  {
    hide ParseAll;
    hide EmitAll;
    hide StringsFit;
    AllBack(big, items, rest);
    AllSame(items);
  }

  /** After the byte order mark a reader of any host and setting reads the writer's byte order. */
  lemma MarkSetsOrder(writerBig: bool, bigHost: bool)
    ensures var flip := FromMemory(bigHost, Fixed(writerBig, 0xFEFF, 2)) != 0xFEFF;
      (bigHost != flip) == writerBig
  {
    FourBytesRange();
    Little2(0xFEFF);
    Reverse2(0xFF, 0xFE);
    Reverse2(0xFE, 0xFF);
    LittleBack(0xFEFF, 2);
    assert Fixed(false, 0xFEFF, 2) == [0xFF, 0xFE];
    assert FromLittle([0xFE, 0xFF]) == 0xFFFE by {
      assert [0xFE, 0xFF][1..] == [0xFF] && FromLittle([0xFF]) == 0xFF + 256 * FromLittle([]);
    }
  }
}
