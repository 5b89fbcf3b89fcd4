/** Conversion between UTF-8 and UTF-16 or UTF-32. */
module Utf16 {
  import opened Utf8

  /** The low byte of c, as a cast to char leaves it. */
  function Cast(c: Unit): Byte
  {
    (c & 0xFF) as Byte
  }

  // The bytes of a sequence: a lead byte, and tail bytes of six bits each.

  function Lead2(c: Unit): Byte
  {
    Cast(0xC0 | (c >> 6))
  }

  function Lead3(c: Unit): Byte
  {
    Cast(0xE0 | (c >> 12))
  }

  function Lead4(c: Unit): Byte
  {
    Cast(0xF0 | (c >> 18))
  }

  function Tail12(c: Unit): Byte
  {
    Cast(0x80 | ((c & 0x3FFFF) >> 12))
  }

  function Tail6(c: Unit): Byte
  {
    Cast(0x80 | ((c & 0xFFF) >> 6))
  }

  function Tail0(c: Unit): Byte
  {
    Cast(0x80 | (c & 0x3F))
  }

  /** The sequence for a code point: section 3 of RFC 3629. */
  function ToBytes(c: Unit): (s: seq<Byte>)
    ensures 1 <= |s| <= 4
  {
    if c < 0x80 then [Cast(c)]
    else if c < 0x800 then [Lead2(c), Tail0(c)]
    else if c < 0x10000 then [Lead3(c), Tail6(c), Tail0(c)]
    else [Lead4(c), Tail12(c), Tail6(c), Tail0(c)]
  }

  predicate IsSurrogate(c: Unit)
  {
    0xD800 <= c <= 0xDFFF
  }

  predicate IsPair(hi: Unit, lo: Unit)
  {
    0xD800 <= hi <= 0xDBFF && 0xDC00 <= lo <= 0xDFFF
  }

  /** The code point of a surrogate pair: section 2.2 of RFC 2781. */
  function PairValue(hi: Unit, lo: Unit): Unit
  {
    0x10000 + (((hi & 0x3FF) << 10) | (lo & 0x3FF))
  }

  function HighUnit(c: Unit): Unit
  {
    0xD800 + ((c - 0x10000) >> 10)
  }

  function LowUnit(c: Unit): Unit
  {
    0xDC00 + ((c - 0x10000) & 0x3FF)
  }

  /** The units for a code point: section 2.1 of RFC 2781. */
  function ToUnits(c: Unit): (w: seq<Unit>)
    ensures 1 <= |w| <= 2
  {
    if c < 0x10000 then [c] else [HighUnit(c), LowUnit(c)]
  }

  function Bytes(cs: seq<Unit>): seq<Byte>
  {
    if cs == [] then [] else ToBytes(cs[0]) + Bytes(cs[1..])
  }

  function Units(cs: seq<Unit>): seq<Unit>
  {
    if cs == [] then [] else ToUnits(cs[0]) + Units(cs[1..])
  }

  predicate AllScalars(cs: seq<Unit>)
  {
    forall i :: 0 <= i < |cs| ==> IsScalar(cs[i])
  }

  /** Code points read from an input, and whether all of it could be read. */
  datatype Reading = Reading(cs: seq<Unit>, complete: bool)

  function Then(c: Unit, rest: Reading): Reading
  {
    Reading([c] + rest.cs, rest.complete)
  }

  /** The code points of a UTF-8 string, up to the first ill-formed sequence. */
  function Read8(s: seq<Byte>): Reading
  {
    if s == [] then Reading([], true)
    else if SequenceLength(s) == 0 then Reading([], false)
    else Then(Scalar(s), Read8(s[SequenceLength(s)..]))
  }

  /** Whether a unit that cannot be read ends the conversion or is read as U+FFFD. */
  datatype Policy = Abort | Replace

  const REPLACEMENT: Unit := 0xFFFD

  /** The code points of a UTF-16 string. */
  function Read16(w: seq<Unit>, policy: Policy): Reading
  {
    if w == [] then Reading([], true)
    else if !IsSurrogate(w[0]) then Then(w[0], Read16(w[1..], policy))
    else if |w| > 1 && IsPair(w[0], w[1]) then Then(PairValue(w[0], w[1]), Read16(w[2..], policy))
    else if policy == Abort then Reading([], false)
    else Then(REPLACEMENT, Read16(w[1..], policy))
  }

  /** The code points of a UTF-32 string; the policy has no say in it. */
  function Read32(w: seq<Unit>): Reading
  {
    if w == [] then Reading([], true)
    else if !IsScalar(w[0]) then Reading([], false)
    else Then(w[0], Read32(w[1..]))
  }

  predicate Narrow(w: seq<Unit>)
  {
    forall i :: 0 <= i < |w| ==> w[i] <= 0xFFFF
  }

  // ---- Bits ---------------------------------------------------------------------------------------

  lemma Bytes1(c: Unit)
    requires c < 0x80
    ensures Starts1(Cast(c))
    ensures Cast(c) as Unit == c
  {
  }

  lemma Bytes2(c: Unit)
    requires 0x80 <= c < 0x800
    ensures !Starts1(Lead2(c))
    ensures Starts2(Lead2(c), Tail0(c))
    ensures Bits2(Lead2(c), Tail0(c)) == c
  {
  }

  lemma Bytes3(c: Unit)
    requires 0x800 <= c < 0x10000 && IsScalar(c)
    ensures Starts3(Lead3(c), Tail6(c))
    ensures IsTail(Tail0(c))
    ensures Bits3(Lead3(c), Tail6(c), Tail0(c)) == c
  {
  }

  lemma Bytes4(c: Unit)
    requires 0x10000 <= c <= 0x10FFFF
    ensures Starts4(Lead4(c), Tail12(c))
    ensures IsTail(Tail6(c))
    ensures IsTail(Tail0(c))
    ensures Bits4(Lead4(c), Tail12(c), Tail6(c), Tail0(c)) == c
  {
  }

  /** A lead byte tells the length of its sequence. */
  lemma LeadsDiffer(b0: Byte, b1: Byte)
    ensures Starts3(b0, b1) || Starts4(b0, b1) ==> !Starts1(b0) && !Starts2(b0, b1)
    ensures Starts4(b0, b1) ==> !Starts3(b0, b1)
    ensures Starts2(b0, b1) ==> !Starts1(b0)
  {
  }

  lemma PairRange(hi: Unit, lo: Unit)
    requires IsPair(hi, lo)
    ensures 0x10000 <= PairValue(hi, lo) <= 0x10FFFF
  {
  }

  lemma PairHigh(hi: Unit, lo: Unit)
    requires IsPair(hi, lo)
    ensures HighUnit(PairValue(hi, lo)) == hi
  {
  }

  lemma PairLow(hi: Unit, lo: Unit)
    requires IsPair(hi, lo)
    ensures LowUnit(PairValue(hi, lo)) == lo
  {
  }

  /** The pair's value as the converter computes it, in wrapping 32-bit arithmetic. */
  lemma PairSum(hi: Unit, lo: Unit)
    requires IsPair(hi, lo)
    ensures PairValue(hi, lo) == (hi << 10) + lo - 0x35FDC00
  {
  }

  lemma UnitsPair(c: Unit)
    requires 0x10000 <= c <= 0x10FFFF
    ensures IsPair(HighUnit(c), LowUnit(c))
  {
  }

  lemma UnitsValue(c: Unit)
    requires 0x10000 <= c <= 0x10FFFF
    ensures PairValue(HighUnit(c), LowUnit(c)) == c
  {
  }

  /** Testing mask bits finds the pairs. */
  lemma PairTest(hi: Unit, lo: Unit)
    requires IsSurrogate(hi) && lo <= 0xFFFF
    ensures IsPair(hi, lo) <==> hi & 0xFC00 == 0xD800 && lo & 0xFC00 == 0xDC00
  {
  }

  lemma Value1(b0: Byte)
    requires Starts1(b0)
    ensures (b0 as Unit) < 0x80
    ensures Cast(b0 as Unit) == b0
  {
  }

  lemma Value2(b0: Byte, b1: Byte)
    requires Starts2(b0, b1)
    ensures 0x80 <= Bits2(b0, b1) < 0x800
    ensures Lead2(Bits2(b0, b1)) == b0
    ensures Tail0(Bits2(b0, b1)) == b1
  {
  }

  lemma Value3(b0: Byte, b1: Byte, b2: Byte)
    requires Starts3(b0, b1) && IsTail(b2)
    ensures 0x800 <= Bits3(b0, b1, b2) < 0x10000
    ensures IsScalar(Bits3(b0, b1, b2))
    ensures Lead3(Bits3(b0, b1, b2)) == b0
    ensures Tail6(Bits3(b0, b1, b2)) == b1
    ensures Tail0(Bits3(b0, b1, b2)) == b2
  {
  }

  lemma Value4(b0: Byte, b1: Byte, b2: Byte, b3: Byte)
    requires Starts4(b0, b1) && IsTail(b2) && IsTail(b3)
    ensures 0x10000 <= Bits4(b0, b1, b2, b3) <= 0x10FFFF
    ensures Lead4(Bits4(b0, b1, b2, b3)) == b0
    ensures Tail12(Bits4(b0, b1, b2, b3)) == b1
    ensures Tail6(Bits4(b0, b1, b2, b3)) == b2
    ensures Tail0(Bits4(b0, b1, b2, b3)) == b3
  {
  }

  // ---- Sequences ------------------------------------------------------------------------------------

  /** Written bytes are read back, whatever follows. */
  lemma BytesRead(c: Unit, rest: seq<Byte>)
    requires IsScalar(c)
    ensures var s := ToBytes(c) + rest;
      SequenceLength(s) == |ToBytes(c)| && Scalar(s) == c && s[|ToBytes(c)|..] == rest
  {
    hide Bits2;
    hide Bits3;
    hide Bits4;
    hide Cast;
    hide Starts1;
    hide Starts2;
    hide Starts3;
    hide Starts4;
    hide IsTail;
    hide Lead2;
    hide Lead3;
    hide Lead4;
    hide Tail12;
    hide Tail6;
    hide Tail0;
    var s := ToBytes(c) + rest;
    if c < 0x80 {
      Bytes1(c);
    } else if c < 0x800 {
      Bytes2(c);
    } else if c < 0x10000 {
      Bytes3(c);
      LeadsDiffer(Lead3(c), Tail6(c));
    } else {
      Bytes4(c);
      LeadsDiffer(Lead4(c), Tail12(c));
    }
  }

  /** A well-formed sequence is what its code point is written as. */
  lemma BytesOf(s: seq<Byte>)
    requires SequenceLength(s) > 0
    ensures IsScalar(Scalar(s)) && ToBytes(Scalar(s)) == s[..SequenceLength(s)]
  {
    hide Bits2;
    hide Bits3;
    hide Bits4;
    hide Cast;
    hide Starts1;
    hide Starts2;
    hide Starts3;
    hide Starts4;
    hide IsTail;
    hide Lead2;
    hide Lead3;
    hide Lead4;
    hide Tail12;
    hide Tail6;
    hide Tail0;
    match SequenceLength(s)
    case 1 => Value1(s[0]);
    case 2 => Value2(s[0], s[1]);
    case 3 => Value3(s[0], s[1], s[2]);
    case 4 => Value4(s[0], s[1], s[2], s[3]);
  }

  // The bits of a sequence are its bytes, without the lead and tail marks, as digits to the base 64.

  lemma Digits2(b0: Byte, b1: Byte)
    requires 0xC0 <= b0 < 0xE0 && IsTail(b1)
    ensures Bits2(b0, b1) == (b0 as Unit - 0xC0) * 64 + (b1 as Unit - 0x80)
  {
  }

  lemma Digits3(b0: Byte, b1: Byte, b2: Byte)
    requires 0xE0 <= b0 < 0xF0 && IsTail(b1) && IsTail(b2)
    ensures Bits3(b0, b1, b2) == ((b0 as Unit - 0xE0) * 64 + (b1 as Unit - 0x80)) * 64 + (b2 as Unit - 0x80)
  {
  }

  lemma Digits4(b0: Byte, b1: Byte, b2: Byte, b3: Byte)
    requires 0xF0 <= b0 < 0xF8 && IsTail(b1) && IsTail(b2) && IsTail(b3)
    ensures Bits4(b0, b1, b2, b3)
         == (((b0 as Unit - 0xF0) * 64 + (b1 as Unit - 0x80)) * 64 + (b2 as Unit - 0x80)) * 64 + (b3 as Unit - 0x80)
  {
  }

  // ---- What iteration reports -------------------------------------------------------------------------

  /** The sequence of some code point stands at the start of s. */
  ghost predicate StartsSequence(s: seq<Byte>)
  {
    exists c: Unit :: IsScalar(c) && ToBytes(c) <= s
  }

  lemma StartsExactly(s: seq<Byte>)
    ensures StartsSequence(s) <==> SequenceLength(s) > 0
  {
    hide SequenceLength, Scalar, ToBytes, IsScalar;
    if SequenceLength(s) > 0 {
      BytesOf(s);
    }
    if c: Unit :| IsScalar(c) && ToBytes(c) <= s {
      PrefixRead(s, c);
    }
  }

  lemma PrefixRead(s: seq<Byte>, c: Unit)
    requires IsScalar(c) && ToBytes(c) <= s
    ensures SequenceLength(s) == |ToBytes(c)| && Scalar(s) == c
  {
    hide SequenceLength, Scalar, ToBytes, IsScalar;
    var n := |ToBytes(c)|;
    assert s == ToBytes(c) + s[n..];
    BytesRead(c, s[n..]);
  }

  /** A visit of the start of s: a code point with its sequence, or one byte where no sequence starts. */
  ghost predicate Reports(v: Visit, s: seq<Byte>)
  {
    if v.cp == INVALID then |v.view| == 1 && v.view <= s && !StartsSequence(s)
    else IsScalar(v.cp) && v.view == ToBytes(v.cp) && v.view <= s
  }

  /** Visits of all of s, from its start to its end. */
  ghost predicate ReportsAll(visits: seq<Visit>, s: seq<Byte>)
    decreases |visits|
  {
    if visits == [] then s == []
    else Reports(visits[0], s) && ReportsAll(visits[1..], s[|visits[0].view|..])
  }

  lemma FirstReported(v: Visit, s: seq<Byte>)
    requires s != []
    ensures Reports(v, s) <==> v == FirstVisit(s)
  {
    hide SequenceLength, Scalar, ToBytes, StartsSequence;
    StartsExactly(s);
    if SequenceLength(s) > 0 {
      BytesOf(s);
    }
    if Reports(v, s) && v.cp != INVALID {
      PrefixRead(s, v.cp);
    }
  }

  /** The visits of a string are the only ones that report all of it. */
  lemma {:induction false} VisitsExactly(s: seq<Byte>, visits: seq<Visit>)
    ensures ReportsAll(visits, s) <==> visits == Visits(s)
    decreases |visits|
  {
    hide Reports, FirstVisit;
    if visits != [] && s != [] {
      FirstReported(visits[0], s);
      VisitsExactly(s[|FirstVisit(s).view|..], visits[1..]);
      assert visits == [visits[0]] + visits[1..];
    } else if visits != [] {
      NothingReported(visits[0]);
    }
  }

  lemma NothingReported(v: Visit)
    ensures !Reports(v, [])
  {
  }

  lemma {:induction false} ReadBytes(cs: seq<Unit>)
    requires AllScalars(cs)
    ensures Read8(Bytes(cs)) == Reading(cs, true)
  {
    if cs != [] {
      BytesRead(cs[0], Bytes(cs[1..]));
      ReadBytes(cs[1..]);
    }
  }

  lemma {:induction false} BytesOfRead(s: seq<Byte>)
    ensures AllScalars(Read8(s).cs) && Bytes(Read8(s).cs) <= s
    ensures Read8(s).complete ==> Bytes(Read8(s).cs) == s
    ensures !Read8(s).complete ==>
      Bytes(Read8(s).cs) != s && !StartsSequence(s[|Bytes(Read8(s).cs)|..])
  {
    hide SequenceLength, Scalar, ToBytes, IsScalar, StartsSequence;
    var n := SequenceLength(s);
    StartsExactly(s);
    if n > 0 {
      BytesOf(s);
      BytesOfRead(s[n..]);
      assert s == s[..n] + s[n..];
      var m := |Bytes(Read8(s[n..]).cs)|;
      assert s[n..][m..] == s[n + m..];
    } else {
      assert s[0..] == s;
    }
  }

  lemma {:induction false} ReadUnits(cs: seq<Unit>, policy: Policy)
    requires AllScalars(cs)
    ensures Read16(Units(cs), policy) == Reading(cs, true)
  {
    if cs != [] {
      ReadUnits(cs[1..], policy);
      hide ToUnits, Read16;
      ReadScalar(cs[0], Units(cs[1..]), policy);
    }
  }

  lemma ReadScalar(c: Unit, rest: seq<Unit>, policy: Policy)
    requires IsScalar(c)
    ensures Read16(ToUnits(c) + rest, policy) == Then(c, Read16(rest, policy))
  {
    hide HighUnit, LowUnit, PairValue;
    var w := ToUnits(c) + rest;
    if c < 0x10000 {
      assert w[1..] == rest;
    } else {
      UnitsPair(c);
      UnitsValue(c);
      assert w[2..] == rest;
    }
  }

  lemma {:induction false} UnitsOfRead(w: seq<Unit>)
    requires Narrow(w) && Read16(w, Abort).complete
    ensures Units(Read16(w, Abort).cs) == w
  {
    if w != [] {
      if !IsSurrogate(w[0]) {
        UnitsOfRead(w[1..]);
        assert w == [w[0]] + w[1..];
      } else {
        PairRange(w[0], w[1]);
        PairHigh(w[0], w[1]);
        PairLow(w[0], w[1]);
        UnitsOfRead(w[2..]);
        assert w == [w[0], w[1]] + w[2..];
      }
    }
  }

  /** Whatever is read are scalar values; replacing, all of the string is read; else replacing changes nothing. */
  lemma {:induction false} Reads16(w: seq<Unit>, policy: Policy)
    requires Narrow(w)
    ensures AllScalars(Read16(w, policy).cs)
    ensures policy == Replace ==> Read16(w, policy).complete
    ensures Read16(w, Abort).complete ==> Read16(w, Replace) == Read16(w, Abort)
  {
    if w != [] {
      Reads16(w[1..], policy);
      if |w| > 1 && IsPair(w[0], w[1]) {
        PairRange(w[0], w[1]);
        Reads16(w[2..], policy);
      }
    }
  }

  /** The units of some code point stand at the start of w. */
  ghost predicate StartsUnits(w: seq<Unit>)
  {
    exists c: Unit :: IsScalar(c) && ToUnits(c) <= w
  }

  lemma UnitsStart(w: seq<Unit>)
    requires Narrow(w)
    ensures StartsUnits(w) <==> w != [] && (!IsSurrogate(w[0]) || (|w| > 1 && IsPair(w[0], w[1])))
  {
    hide PairValue, HighUnit, LowUnit;
    if w != [] && !IsSurrogate(w[0]) {
      assert ToUnits(w[0]) <= w;
    } else if |w| > 1 && IsPair(w[0], w[1]) {
      PairRange(w[0], w[1]);
      PairHigh(w[0], w[1]);
      PairLow(w[0], w[1]);
      assert ToUnits(PairValue(w[0], w[1])) <= w;
    } else if c: Unit :| IsScalar(c) && ToUnits(c) <= w {
      if c >= 0x10000 {
        UnitsPair(c);
      }
    }
  }

  /** The units the code points stand for, where U+FFFD may also be read from a unit that starts nothing. */
  ghost predicate Replaced(w: seq<Unit>, cs: seq<Unit>)
    decreases |cs|
  {
    if cs == [] then w == []
    else if StartsUnits(w) then IsScalar(cs[0]) && ToUnits(cs[0]) <= w && Replaced(w[|ToUnits(cs[0])|..], cs[1..])
    else w != [] && cs[0] == 0xFFFD && Replaced(w[1..], cs[1..])
  }

  lemma UnitsRead(w: seq<Unit>, c: Unit, policy: Policy)
    requires Narrow(w) && IsScalar(c) && ToUnits(c) <= w
    ensures Read16(w, policy) == Then(c, Read16(w[|ToUnits(c)|..], policy))
  {
    hide Read16, ToUnits;
    assert w == ToUnits(c) + w[|ToUnits(c)|..];
    ReadScalar(c, w[|ToUnits(c)|..], policy);
  }

  /** With the replace policy a string is read as these code points and no others. */
  lemma {:induction false} ReplacedExactly(w: seq<Unit>, cs: seq<Unit>)
    requires Narrow(w)
    ensures Replaced(w, cs) <==> Read16(w, Replace).cs == cs
    decreases |w|
  {
    hide ToUnits, StartsUnits;
    UnitsStart(w);
    if w != [] && cs != [] {
      if StartsUnits(w) {
        FirstUnits(w);
        var c := Read16(w, Replace).cs[0];
        ReplacedExactly(w[|ToUnits(c)|..], cs[1..]);
        if Replaced(w, cs) {
          UnitsRead(w, cs[0], Replace);
        }
      } else {
        ReplacedExactly(w[1..], cs[1..]);
      }
      assert cs == [cs[0]] + cs[1..];
    }
  }

  /** The first code point read, where there is one. */
  lemma FirstUnits(w: seq<Unit>)
    requires Narrow(w) && StartsUnits(w)
    ensures var r := Read16(w, Replace);
      && r.cs != [] && IsScalar(r.cs[0]) && ToUnits(r.cs[0]) <= w
      && r == Then(r.cs[0], Read16(w[|ToUnits(r.cs[0])|..], Replace))
  {
    hide Read16, ToUnits;
    var c: Unit :| IsScalar(c) && ToUnits(c) <= w;
    UnitsRead(w, c, Replace);
  }

  /** With the abort policy reading stops where no code point's units start. */
  lemma {:induction false} AbortStops(w: seq<Unit>)
    requires Narrow(w)
    ensures var r := Read16(w, Abort);
      && Units(r.cs) <= w && (r.complete <==> Units(r.cs) == w)
      && (!r.complete ==> !StartsUnits(w[|Units(r.cs)|..]))
    decreases |w|
  {
    hide ToUnits, StartsUnits;
    UnitsStart(w);
    if StartsUnits(w) {
      var c := FirstAborted(w);
      var n := |ToUnits(c)|;
      AbortStops(w[n..]);
      var m := |Units(Read16(w[n..], Abort).cs)|;
      assert w == w[..n] + w[n..] && w[n..][m..] == w[n + m..];
      hide Read16;
    } else {
      assert w[0..] == w;
    }
  }

  lemma FirstAborted(w: seq<Unit>) returns (c: Unit)
    requires Narrow(w) && StartsUnits(w)
    ensures IsScalar(c) && 0 < |ToUnits(c)| && ToUnits(c) <= w
    ensures Read16(w, Abort) == Then(c, Read16(w[|ToUnits(c)|..], Abort))
  {
    hide Read16, ToUnits;
    c :| IsScalar(c) && ToUnits(c) <= w;
    UnitsRead(w, c, Abort);
  }

  lemma {:induction false} Reads32(w: seq<Unit>)
    ensures AllScalars(Read32(w).cs) && Read32(w).cs <= w
    ensures !Read32(w).complete ==> |Read32(w).cs| < |w| && !IsScalar(w[|Read32(w).cs|])
    ensures Read32(w).complete <==> AllScalars(w)
    ensures Read32(w).complete ==> Read32(w).cs == w
  {
    if w != [] {
      Reads32(w[1..]);
    }
  }

  /** UTF-16 to UTF-8 and back is the identity on well-formed UTF-16. */
  lemma RoundTrip16(w: seq<Unit>)
    requires Narrow(w) && Read16(w, Abort).complete
    ensures var s := Bytes(Read16(w, Abort).cs);
      Read8(s).complete && Units(Read8(s).cs) == w
  {
    Reads16(w, Abort);
    ReadBytes(Read16(w, Abort).cs);
    UnitsOfRead(w);
  }

  /** UTF-8 to UTF-16 and back is the identity on well-formed UTF-8. */
  lemma RoundTrip8(s: seq<Byte>)
    requires Read8(s).complete
    ensures var w := Units(Read8(s).cs);
      Read16(w, Abort).complete && Bytes(Read16(w, Abort).cs) == s
  {
    BytesOfRead(s);
    ReadUnits(Read8(s).cs, Abort);
  }

  // ---- The converters -------------------------------------------------------------------------------

  /** The code points of a string of 16-bit or 32-bit units. */
  function ReadWide(w: seq<Unit>, wide: bool, policy: Policy): Reading
  {
    if wide then Read32(w) else Read16(w, policy)
  }

  lemma BytesThen(buffer: seq<Byte>, c: Unit, rest: Reading)
    ensures buffer + Bytes(Then(c, rest).cs) == (buffer + ToBytes(c)) + Bytes(rest.cs)
    ensures ToBytes(REPLACEMENT) == [0xEF, 0xBF, 0xBD]
  {
    assert Bytes(Then(c, rest).cs) == ToBytes(c) + Bytes(rest.cs);
  }

  lemma NothingToRead(w: seq<Unit>, wide: bool, policy: Policy)
    ensures ReadWide(w[|w|..], wide, policy) == Reading([], true) && Bytes([]) == []
  {
  }

  lemma PlainUnit(w: seq<Unit>, p: nat, wide: bool, policy: Policy)
    requires p < |w| && (wide || (Narrow(w) && !IsSurrogate(w[p])))
    ensures ReadWide(w[p..], wide, policy)
         == if IsScalar(w[p]) then Then(w[p], ReadWide(w[p + 1..], wide, policy)) else Reading([], false)
  {
    assert w[p..][1..] == w[p + 1..];
  }

  lemma PairUnit(w: seq<Unit>, p: nat, policy: Policy)
    requires p + 1 < |w| && Narrow(w) && IsSurrogate(w[p])
    requires w[p] & 0xFC00 == 0xD800 && w[p + 1] & 0xFC00 == 0xDC00
    ensures var c := (w[p] << 10) + w[p + 1] - 0x35FDC00;
      IsScalar(c) && ReadWide(w[p..], false, policy) == Then(c, ReadWide(w[p + 2..], false, policy))
  {
    hide PairValue;
    PairTest(w[p], w[p + 1]);
    PairRange(w[p], w[p + 1]);
    PairSum(w[p], w[p + 1]);
    assert w[p..][2..] == w[p + 2..];
  }

  lemma BadUnit(w: seq<Unit>, p: nat, policy: Policy)
    requires p < |w| && Narrow(w) && IsSurrogate(w[p])
    requires p + 1 == |w| || w[p] & 0xFC00 != 0xD800 || w[p + 1] & 0xFC00 != 0xDC00
    ensures ReadWide(w[p..], false, policy)
         == if policy == Abort then Reading([], false) else Then(REPLACEMENT, ReadWide(w[p + 1..], false, policy))
  {
    hide PairValue;
    if p + 1 < |w| {
      PairTest(w[p], w[p + 1]);
    }
    assert w[p..][1..] == w[p + 1..];
  }

  /** to_utf8: UTF-16 or UTF-32 into a buffer of UTF-8. */
  class ToUtf8 {
    var buffer: seq<Byte>

    constructor ()
      ensures buffer == []
    {
      buffer := [];
    }

    /** The bytes of c, or failure for what is no scalar value. */
    method Put(c: Unit) returns (ok: bool)
      modifies this
      ensures ok == IsScalar(c)
      ensures buffer == if ok then old(buffer) + ToBytes(c) else old(buffer)
    {
      if c < 0x80 {
        buffer := buffer + [Cast(c)];
      } else if c < 0x800 {
        buffer := buffer + [Lead2(c)];
        buffer := buffer + [Tail0(c)];
      } else if 0x800 <= c <= 0xD7FF || 0xE000 <= c <= 0xFFFF {
        buffer := buffer + [Lead3(c)];
        buffer := buffer + [Tail6(c)];
        buffer := buffer + [Tail0(c)];
      } else if 0x10000 <= c <= 0x10FFFF {
        buffer := buffer + [Lead4(c)];
        buffer := buffer + [Tail12(c)];
        buffer := buffer + [Tail6(c)];
        buffer := buffer + [Tail0(c)];
      } else {
        return false;
      }
      return true;
    }

    /** convert: appends the UTF-8 of w, up to the first unit that cannot be read. */
    method Convert(w: seq<Unit>, wide: bool, policy: Policy) returns (ok: bool)
      requires !wide ==> Narrow(w)
      modifies this
      ensures ok == ReadWide(w, wide, policy).complete
      ensures buffer == old(buffer) + Bytes(ReadWide(w, wide, policy).cs)
    {
      hide ReadWide;
      hide ToBytes;
      hide Bytes;
      NothingToRead(w, wide, policy);
      var p := 0;
      ghost var all := ReadWide(w, wide, policy);
      ghost var rest := all;
      assert w[0..] == w;
      while p != |w|
        invariant 0 <= p <= |w| && rest == ReadWide(w[p..], wide, policy)
        invariant all.complete == rest.complete
        invariant buffer + Bytes(rest.cs) == old(buffer) + Bytes(all.cs)
        decreases |w| - p
      {
        var c := w[p];
        var step := 1;
        if !wide && 0xD800 <= c <= 0xDFFF {
          if p + 1 == |w| || c & 0xFC00 != 0xD800 || w[p + 1] & 0xFC00 != 0xDC00 {
            BadUnit(w, p, policy);
            if policy == Abort {
              return false;
            }
            rest := ReadWide(w[p + 1..], wide, policy);
            BytesThen(buffer, REPLACEMENT, rest);
            buffer := buffer + [0xEF, 0xBF, 0xBD];
            p := p + 1;
            continue;
          }
          PairUnit(w, p, policy);
          c := (c << 10) + w[p + 1] - 0x35FDC00;
          step := 2;
        } else {
          PlainUnit(w, p, wide, policy);
        }
        ghost var before := buffer;
        var done := Put(c);
        if !done {
          return false;
        }
        rest := ReadWide(w[p + step..], wide, policy);
        BytesThen(before, c, rest);
        p := p + step;
      }
      return true;
    }
  }

  /** The visits up to the first invalid one, read as code points. */
  function ReadVisits(visits: seq<Visit>): Reading
  {
    if visits == [] then Reading([], true)
    else if visits[0].cp == INVALID then Reading([], false)
    else Then(visits[0].cp, ReadVisits(visits[1..]))
  }

  const GO_ON := (v: Visit) => v.cp != INVALID

  lemma {:induction false} VisitsRead(s: seq<Byte>)
    ensures ReadVisits(UpTo(GO_ON, Visits(s))) == Read8(s)
  {
    if s != [] {
      var n := SequenceLength(s);
      if n > 0 {
        BytesOf(s);
      }
      VisitsRead(s[|FirstVisit(s).view|..]);
      assert Visits(s)[1..] == Visits(s[|FirstVisit(s).view|..]);
    }
  }

  lemma UnitsThen(buffer: seq<Unit>, c: Unit, rest: Reading)
    ensures buffer + Units(Then(c, rest).cs) == (buffer + ToUnits(c)) + Units(rest.cs)
  {
    assert Units(Then(c, rest).cs) == ToUnits(c) + Units(rest.cs);
  }

  /** utf8_to_utf16: UTF-8 into a zero-terminated buffer of UTF-16. */
  class Utf8ToUtf16 {
    var buffer: seq<Unit>

    constructor ()
      ensures buffer == []
    {
      buffer := [];
    }

    method Put(cp: Unit)
      modifies this
      ensures buffer == old(buffer) + ToUnits(cp)
    {
      hide HighUnit;
      hide LowUnit;
      if cp <= 0xFFFF {
        buffer := buffer + [cp];
      } else {
        buffer := buffer + [HighUnit(cp)];
        buffer := buffer + [LowUnit(cp)];
      }
    }

    /** The conversion, which fails (with an exception in the original) on ill-formed UTF-8. */
    method Convert(s: seq<Byte>) returns (ok: bool)
      requires buffer == []
      modifies this
      ensures ok == Read8(s).complete
      ensures ok ==> buffer == Units(Read8(s).cs) + [0]
    {
      hide ToUnits;
      hide UpTo;
      hide Visits;
      var visits := ForEachCodepoint(s, GO_ON);
      VisitsRead(s);
      hide Read8;
      var i := 0;
      assert visits[0..] == visits;
      while i < |visits|
        invariant 0 <= i <= |visits|
        invariant ReadVisits(visits).complete == ReadVisits(visits[i..]).complete
        invariant buffer + Units(ReadVisits(visits[i..]).cs) == Units(ReadVisits(visits).cs)
      {
        var cp := visits[i].cp;
        if cp == INVALID {
          return false;
        }
        assert visits[i..][1..] == visits[i + 1..];
        UnitsThen(buffer, cp, ReadVisits(visits[i + 1..]));
        Put(cp);
        i := i + 1;
      }
      buffer := buffer + [0];
      return true;
    }
  }
}
