/** Decoding UTF-8: the branchless decoder and the iteration over code points. */
module Utf8 {

  type Byte = bv8

  /** A code point, or a unit of UTF-16 or UTF-32. */
  type Unit = bv32

  const INVALID: Unit := 0xFFFF_FFFF

  // ---- Well-formed sequences: section 4 of RFC 3629 -----------------------------------------------

  predicate IsTail(b: Byte)
  {
    0x80 <= b <= 0xBF
  }

  predicate Starts1(b0: Byte)
  {
    b0 <= 0x7F
  }

  predicate Starts2(b0: Byte, b1: Byte)
  {
    0xC2 <= b0 <= 0xDF && IsTail(b1)
  }

  predicate Starts3(b0: Byte, b1: Byte)
  {
    || (b0 == 0xE0 && 0xA0 <= b1 <= 0xBF)
    || (0xE1 <= b0 <= 0xEC && IsTail(b1))
    || (b0 == 0xED && 0x80 <= b1 <= 0x9F)
    || (0xEE <= b0 <= 0xEF && IsTail(b1))
  }

  predicate Starts4(b0: Byte, b1: Byte)
  {
    || (b0 == 0xF0 && 0x90 <= b1 <= 0xBF)
    || (0xF1 <= b0 <= 0xF3 && IsTail(b1))
    || (b0 == 0xF4 && 0x80 <= b1 <= 0x8F)
  }

  /** The length of the well-formed sequence at the start of s, or 0 if there is none. */
  function SequenceLength(s: seq<Byte>): (n: nat)
    ensures n <= 4 && n <= |s|
  {
    if |s| >= 1 && Starts1(s[0]) then 1
    else if |s| >= 2 && Starts2(s[0], s[1]) then 2
    else if |s| >= 3 && Starts3(s[0], s[1]) && IsTail(s[2]) then 3
    else if |s| >= 4 && Starts4(s[0], s[1]) && IsTail(s[2]) && IsTail(s[3]) then 4
    else 0
  }

  function Low(b: Byte, mask: Byte): Unit
  {
    (b & mask) as Unit
  }

  function Bits2(b0: Byte, b1: Byte): Unit
  {
    (Low(b0, 0x1F) << 6) | Low(b1, 0x3F)
  }

  function Bits3(b0: Byte, b1: Byte, b2: Byte): Unit
  {
    (Low(b0, 0x0F) << 12) | (Low(b1, 0x3F) << 6) | Low(b2, 0x3F)
  }

  function Bits4(b0: Byte, b1: Byte, b2: Byte, b3: Byte): Unit
  {
    (Low(b0, 0x07) << 18) | (Low(b1, 0x3F) << 12) | (Low(b2, 0x3F) << 6) | Low(b3, 0x3F)
  }

  /** The code point such a sequence stands for: section 3 of RFC 3629. */
  function Scalar(s: seq<Byte>): Unit
    requires SequenceLength(s) > 0
  {
    match SequenceLength(s)
    case 1 => s[0] as Unit
    case 2 => Bits2(s[0], s[1])
    case 3 => Bits3(s[0], s[1], s[2])
    case 4 => Bits4(s[0], s[1], s[2], s[3])
  }

  predicate IsScalar(c: Unit)
  {
    c <= 0x10FFFF && !(0xD800 <= c <= 0xDFFF)
  }

  /** What is reported for a stretch of the input. */
  datatype Visit = Visit(cp: Unit, view: seq<Byte>)

  function FirstVisit(s: seq<Byte>): (v: Visit)
    requires s != []
    ensures 1 <= |v.view| <= |s| && v.view == s[..|v.view|]
  {
    var n := SequenceLength(s);
    if n > 0 then Visit(Scalar(s), s[..n]) else Visit(INVALID, s[..1])
  }

  /** The visits of s: one for each well-formed sequence, and one for each byte that starts none. */
  function Visits(s: seq<Byte>): seq<Visit>
  {
    if s == [] then [] else
      var v := FirstVisit(s);
      [v] + Visits(s[|v.view|..])
  }

  /** The views one after the other. */
  function Views(visits: seq<Visit>): seq<Byte>
  {
    if visits == [] then [] else visits[0].view + Views(visits[1..])
  }

  /** The views partition the string. */
  lemma {:induction false} Partition(s: seq<Byte>)
    ensures Views(Visits(s)) == s
    ensures forall v :: v in Visits(s) ==> 1 <= |v.view| <= 4
  {
    if s != [] {
      Partition(s[|FirstVisit(s).view|..]);
    }
  }

  // ---- The branchless decoder -----------------------------------------------------------------------

  function LengthOf(b: Byte): (len: Unit)
    ensures len <= 4
  {
    var i := b >> 3;
    if i < 16 then 1 else if i < 24 then 0 else if i < 28 then 2 else if i < 30 then 3 else if i < 31 then 4 else 0
  }

  function Mask(len: Unit): Byte
  {
    if len == 0 then 0x00 else if len == 1 then 0x7F else if len == 2 then 0x1F else if len == 3 then 0x0F else 0x07
  }

  function Min(len: Unit): Unit
  {
    if len == 0 then 4194304 else if len == 1 then 0 else if len == 2 then 128 else if len == 3 then 2048 else 65536
  }

  function ShiftC(len: Unit): (n: Unit)
    ensures n <= 18
  {
    if len == 0 then 0 else if len == 1 then 18 else if len == 2 then 12 else if len == 3 then 6 else 0
  }

  function ShiftE(len: Unit): (n: Unit)
    ensures n <= 6
  {
    if len == 0 then 0 else if len == 1 then 6 else if len == 2 then 4 else if len == 3 then 2 else 0
  }

  function Flag(b: bool): Unit
  {
    if b then 1 else 0
  }

  /** The code point and the error bits computed from four bytes. */
  function DecodeBytes(b0: Byte, b1: Byte, b2: Byte, b3: Byte): (Unit, Unit)
  {
    var len := LengthOf(b0);
    var bits := (Low(b0, Mask(len)) << 18) | (Low(b1, 0x3F) << 12) | (Low(b2, 0x3F) << 6) | Low(b3, 0x3F);
    var c := bits >> ShiftC(len);
    var e := (Flag(c < Min(len)) << 6) | (Flag(c >> 11 == 0x1B) << 7) | (Flag(c > 0x10FFFF) << 8)
             | (Low(b1, 0xC0) >> 2) | (Low(b2, 0xC0) >> 4) | ((b3 as Unit) >> 6);
    (c, (e ^ 0x2A) >> ShiftE(len))
  }

  /** How far the decoder moves: len + !len. */
  function Advance(len: Unit): (n: nat)
    ensures 1 <= n <= 4
  {
    if len == 4 then 4 else if len == 3 then 3 else if len == 2 then 2 else 1
  }

  // What the error bits mean, one lead length at a time.

  lemma Errors1(b0: Byte, b1: Byte, b2: Byte, b3: Byte)
    requires LengthOf(b0) == 1
    ensures DecodeBytes(b0, b1, b2, b3) == (b0 as Unit, 0) && b0 <= 0x7F
  {
  }

  lemma Errors2(b0: Byte, b1: Byte, b2: Byte, b3: Byte)
    requires LengthOf(b0) == 2
    ensures DecodeBytes(b0, b1, b2, b3).1 == 0 <==> Starts2(b0, b1)
    ensures 0xC0 <= b0 <= 0xDF
  {
  }

  lemma Code2(b0: Byte, b1: Byte, b2: Byte, b3: Byte)
    requires LengthOf(b0) == 2
    ensures DecodeBytes(b0, b1, b2, b3).0 == Bits2(b0, b1)
  {
    assert ShiftC(LengthOf(b0)) == 12 && Mask(LengthOf(b0)) == 0x1F;
  }

  lemma Errors3(b0: Byte, b1: Byte, b2: Byte, b3: Byte)
    requires LengthOf(b0) == 3
    ensures DecodeBytes(b0, b1, b2, b3).1 == 0 <==> Starts3(b0, b1) && IsTail(b2)
    ensures 0xE0 <= b0 <= 0xEF
  {
  }

  lemma Code3(b0: Byte, b1: Byte, b2: Byte, b3: Byte)
    requires LengthOf(b0) == 3
    ensures DecodeBytes(b0, b1, b2, b3).0 == Bits3(b0, b1, b2)
  {
    assert ShiftC(LengthOf(b0)) == 6 && Mask(LengthOf(b0)) == 0x0F;
  }

  lemma Errors4(b0: Byte, b1: Byte, b2: Byte, b3: Byte)
    requires LengthOf(b0) == 4
    ensures DecodeBytes(b0, b1, b2, b3).1 == 0 <==> Starts4(b0, b1) && IsTail(b2) && IsTail(b3)
    ensures 0xF0 <= b0 <= 0xF7
  {
  }

  lemma Code4(b0: Byte, b1: Byte, b2: Byte, b3: Byte)
    requires LengthOf(b0) == 4
    ensures DecodeBytes(b0, b1, b2, b3).0 == Bits4(b0, b1, b2, b3)
  {
    assert ShiftC(LengthOf(b0)) == 0 && Mask(LengthOf(b0)) == 0x07;
  }

  lemma Errors0(b0: Byte, b1: Byte, b2: Byte, b3: Byte)
    requires LengthOf(b0) == 0
    ensures DecodeBytes(b0, b1, b2, b3).1 != 0
    ensures 0x80 <= b0 <= 0xBF || 0xF8 <= b0
  {
  }

  /** Four bytes decode without error exactly if they start a well-formed sequence. */
  lemma DecodeExact(b0: Byte, b1: Byte, b2: Byte, b3: Byte)
    ensures var s := [b0, b1, b2, b3];
      var (c, e) := DecodeBytes(b0, b1, b2, b3);
      && (e == 0 <==> SequenceLength(s) > 0)
      && (e == 0 ==> c == Scalar(s) && SequenceLength(s) == Advance(LengthOf(b0)))
  {
    hide DecodeBytes;
    hide LengthOf;
    var len := LengthOf(b0);
    if len == 0 {
      Errors0(b0, b1, b2, b3);
    } else if len == 1 {
      Errors1(b0, b1, b2, b3);
    } else if len == 2 {
      Errors2(b0, b1, b2, b3);
      Code2(b0, b1, b2, b3);
    } else if len == 3 {
      Errors3(b0, b1, b2, b3);
      Code3(b0, b1, b2, b3);
    } else {
      Errors4(b0, b1, b2, b3);
      Code4(b0, b1, b2, b3);
    }
  }

  // ---- Iteration over the code points -----------------------------------------------------------------

  /** The byte of s at position k, zero beyond the end. */
  function PaddedAt(s: seq<Byte>, k: nat): Byte
  {
    if k < |s| then s[k] else 0
  }

  lemma NoTail(b0: Byte)
    ensures !IsTail(0) && !Starts2(b0, 0) && !Starts3(b0, 0) && !Starts4(b0, 0)
  {
  }

  /** Zero padding is never part of a sequence. */
  lemma PaddingHarmless(s: seq<Byte>)
    requires s != []
    ensures var t := [s[0], PaddedAt(s, 1), PaddedAt(s, 2), PaddedAt(s, 3)];
      && SequenceLength(t) == SequenceLength(s)
      && (SequenceLength(s) > 0 ==> Scalar(t) == Scalar(s))
  {
    NoTail(s[0]);
    hide IsTail;
    hide Starts1;
    hide Starts2;
    hide Starts3;
    hide Starts4;
    hide Bits2;
    hide Bits3;
    hide Bits4;
    var t := [s[0], PaddedAt(s, 1), PaddedAt(s, 2), PaddedAt(s, 3)];
    if |s| == 1 {
    } else if |s| == 2 {
    } else if |s| == 3 {
    } else {
      assert t[1] == s[1] && t[2] == s[2] && t[3] == s[3];
    }
  }

  /** The visits up to the first one that f does not want to go on from. */
  function UpTo(f: Visit -> bool, visits: seq<Visit>): seq<Visit>
  {
    if visits == [] then [] else if f(visits[0]) then [visits[0]] + UpTo(f, visits[1..]) else [visits[0]]
  }

  /** The four bytes of block at i are those of s at p, with zeros after the end. */
  predicate Holds(block: seq<Byte>, i: nat, s: seq<Byte>, p: nat)
    requires i + 4 <= |block|
  {
    && block[i] == PaddedAt(s, p) && block[i + 1] == PaddedAt(s, p + 1)
    && block[i + 2] == PaddedAt(s, p + 2) && block[i + 3] == PaddedAt(s, p + 3)
  }

  /** One decoding step: four bytes of block at i, which hold the bytes of s at p and then zeros. */
  method DecodeStep(block: seq<Byte>, i: nat, s: seq<Byte>, p: nat) returns (v: Visit, next: nat)
    requires i + 4 <= |block| && p < |s| && Holds(block, i, s, p)
    ensures v == FirstVisit(s[p..]) && next == i + |v.view|
  {
    var (cp, error) := DecodeBytes(block[i], block[i + 1], block[i + 2], block[i + 3]);
    ghost var rest := s[p..];
    hide DecodeBytes;
    DecodeExact(block[i], block[i + 1], block[i + 2], block[i + 3]);
    PaddingHarmless(rest);
    assert block[i] == rest[0] && block[i + 1] == PaddedAt(rest, 1);
    assert block[i + 2] == PaddedAt(rest, 2) && block[i + 3] == PaddedAt(rest, 3);
    if error != 0 {
      assert s[p..p + 1] == rest[..1];
      return Visit(INVALID, s[p..p + 1]), i + 1;
    }
    var n := Advance(LengthOf(block[i]));
    assert s[p..p + n] == rest[..n];
    return Visit(cp, s[p..p + n]), i + n;
  }

  /** What is left to visit from p on. */
  ghost function Left(s: seq<Byte>, p: nat, f: Visit -> bool): seq<Visit>
    requires p <= |s|
  {
    UpTo(f, Visits(s[p..]))
  }

  /** The first visit at p joins those seen before. */
  lemma VisitStep(seen: seq<Visit>, s: seq<Byte>, p: nat, f: Visit -> bool)
    requires p < |s|
    ensures var v := FirstVisit(s[p..]);
      seen + Left(s, p, f) == if f(v) then (seen + [v]) + Left(s, p + |v.view|, f) else seen + [v]
  {
    hide Left, FirstVisit;
    FirstLeft(s, p, f);
    var v := FirstVisit(s[p..]);
    assert seen + ([v] + Left(s, p + |v.view|, f)) == (seen + [v]) + Left(s, p + |v.view|, f);
  }

  lemma FirstLeft(s: seq<Byte>, p: nat, f: Visit -> bool)
    requires p < |s|
    ensures var v := FirstVisit(s[p..]);
      Left(s, p, f) == if f(v) then [v] + Left(s, p + |v.view|, f) else [v]
  {
    hide FirstVisit;
    var v := FirstVisit(s[p..]);
    assert s[p..][|v.view|..] == s[p + |v.view|..];
    assert Visits(s[p..])[1..] == Visits(s[p + |v.view|..]);
  }

  lemma AllLeft(s: seq<Byte>, f: Visit -> bool)
    ensures [] + Left(s, 0, f) == UpTo(f, Visits(s))
  {
    hide UpTo, Visits;
    assert s[0..] == s;
  }

  lemma HoldsItself(s: seq<Byte>, p: nat)
    requires p + 4 <= |s|
    ensures Holds(s, p, s, p)
  {
  }

  lemma NothingLeft(seen: seq<Visit>, s: seq<Byte>, f: Visit -> bool)
    ensures seen + Left(s, |s|, f) == seen
  {
  }

  /**
   * Blocks of four bytes are decoded in place while they last, the rest in a zero-padded copy; the
   * visits reported to f are those of the string, up to the one f stops at.
   */
  method ForEachCodepoint(s: seq<Byte>, f: Visit -> bool) returns (visits: seq<Visit>)
    ensures visits == UpTo(f, Visits(s))
  {
    hide FirstVisit, Visits, UpTo, Left, Holds;
    visits := [];
    var p := 0;
    AllLeft(s, f);
    if |s| >= 4 {
      var end := |s| - 4 + 1;
      while p < end
        invariant 0 <= p <= |s|
        invariant UpTo(f, Visits(s)) == visits + Left(s, p, f)
      {
        HoldsItself(s, p);
        var v, next := DecodeStep(s, p, s, p);
        VisitStep(visits, s, p, f);
        visits := visits + [v];
        if !f(v) {
          return;
        }
        p := next;
      }
    }
    var left := |s| - p;
    if left == 0 {
      NothingLeft(visits, s, f);
      return;
    }
    visits := VisitTail(s, p, visits, f);
  }

  /** The last one to three bytes, copied to the front of a buffer of seven. */
  method PaddedTail(s: seq<Byte>, start: nat) returns (buf: array<Byte>)
    requires |s| - 4 < start < |s|
    ensures fresh(buf) && buf.Length == 7 && forall j :: 0 <= j < 7 ==> buf[j] == PaddedAt(s, start + j)
  {
    buf := new Byte[7](i => 0);
    for k := 0 to |s| - start
      invariant forall j :: 0 <= j < 7 ==> buf[j] == if j < k then s[start + j] else 0
    {
      buf[k] := s[start + k];
    }
  }

  method VisitTail(s: seq<Byte>, start: nat, seen: seq<Visit>, f: Visit -> bool) returns (visits: seq<Visit>)
    requires |s| - 4 < start < |s|
    ensures visits == seen + Left(s, start, f)
  {
    hide FirstVisit, Left;
    visits := seen;
    var p := start;
    var left := |s| - p;
    var buf := PaddedTail(s, start);
    var i := 0;
    while true
      invariant 0 <= i < left && p == start + i
      invariant forall j :: 0 <= j < 7 ==> buf[j] == PaddedAt(s, start + j)
      invariant seen + Left(s, start, f) == visits + Left(s, p, f)
      decreases left - i
    {
      var v, next := DecodeStep(buf[..], i, s, p);
      VisitStep(visits, s, p, f);
      visits := visits + [v];
      if !f(v) {
        return;
      }
      p := p + (next - i);
      i := next;
      if !(i < left) {
        break;
      }
    }
    NothingLeft(visits, s, f);
  }
}
