/** The compressed tables of unprintable code points: looking a code point up in them. */
module Printable {

  /** A page of singletons: the high byte and how many low bytes belong to it. */
  datatype Page = Page(upper: nat, count: nat)

  /** One plane: pages of singletons with their low bytes, and the encoded run lengths. */
  datatype Table = Table(pages: seq<Page>, lowers: seq<nat>, normal: seq<nat>)

  /** A run of code points. */
  datatype Run = Run(start: nat, count: nat) {
    predicate Has(x: int)
    {
      start <= x < start + count
    }
  }

  datatype Tables = Tables(plane0: Table, plane1: Table, extra: seq<Run>)

  const CODE_POINTS := 0x110000

  // ---- What the tables say ----------------------------------------------------------------------------

  /** The number of low bytes before page i. */
  function Offset(pages: seq<Page>, i: nat): nat
    requires i <= |pages|
  {
    if i == 0 then 0 else Offset(pages, i - 1) + pages[i - 1].count
  }

  predicate InPage(pages: seq<Page>, i: nat, j: int)
    requires i < |pages|
  {
    Offset(pages, i) <= j < Offset(pages, i) + pages[i].count
  }

  /** Page i lists x at position j. */
  predicate ListedAt(pages: seq<Page>, lowers: seq<nat>, x: nat, i: nat, j: nat)
    requires i < |pages| && j < |lowers|
  {
    InPage(pages, i, j) && pages[i].upper == x / 256 && lowers[j] == x % 256
  }

  predicate Listed(pages: seq<Page>, lowers: seq<nat>, x: nat)
  {
    exists i, j :: 0 <= i < |pages| && 0 <= j < |lowers| && ListedAt(pages, lowers, x, i, j)
  }

  /** The pages are in order and share out all the low bytes. */
  predicate PagesOk(pages: seq<Page>, lowers: seq<nat>)
  {
    && Offset(pages, |pages|) == |lowers|
    && forall i, j :: 0 <= i < j < |pages| ==> pages[i].upper < pages[j].upper
  }

  /** No length is cut off. */
  predicate Whole(bytes: seq<nat>)
  {
    bytes == [] || (if bytes[0] >= 0x80 then |bytes| >= 2 && Whole(bytes[2..]) else Whole(bytes[1..]))
  }

  /** The lengths in the bytes: one byte below 0x80, or two. */
  function Lengths(bytes: seq<nat>): seq<nat>
    requires Whole(bytes)
  {
    if bytes == [] then []
    else if bytes[0] >= 0x80 then [(bytes[0] - 0x80) * 256 + bytes[1]] + Lengths(bytes[2..])
    else [bytes[0]] + Lengths(bytes[1..])
  }

  function Sum(lens: seq<nat>, i: nat): nat
    requires i <= |lens|
  {
    if i == 0 then 0 else Sum(lens, i - 1) + lens[i - 1]
  }

  /** x lies in the i-th stretch. */
  predicate InStretch(lens: seq<nat>, i: nat, x: int)
    requires i < |lens|
  {
    Sum(lens, i) <= x < Sum(lens, i) + lens[i]
  }

  /** Every other stretch, from the second one on, is unprintable; the last one has no end. */
  predicate Hidden(lens: seq<nat>, x: nat)
  {
    || (exists i :: 0 <= i < |lens| && InStretch(lens, i, x) && i % 2 == 1)
    || (|lens| % 2 == 1 && Sum(lens, |lens|) <= x)
  }

  predicate TableOk(t: Table)
  {
    PagesOk(t.pages, t.lowers) && Whole(t.normal)
  }

  predicate ShownIn(t: Table, x: nat)
    requires TableOk(t)
  {
    !Listed(t.pages, t.lowers, x) && !Hidden(Lengths(t.normal), x)
  }

  predicate InRuns(runs: seq<Run>, x: int)
  {
    exists i :: 0 <= i < |runs| && runs[i].Has(x)
  }

  /** Whether the tables declare cp printable. */
  predicate Shown(t: Tables, cp: nat)
    requires TableOk(t.plane0) && TableOk(t.plane1)
  {
    if cp < 0x10000 then ShownIn(t.plane0, cp)
    else if cp < 0x20000 then ShownIn(t.plane1, cp - 0x10000)
    else !InRuns(t.extra, cp) && cp < CODE_POINTS
  }

  // ---- Looking up -------------------------------------------------------------------------------------

  lemma {:induction false} OffsetMonotone(pages: seq<Page>, i: nat, j: nat)
    requires i <= j <= |pages|
    ensures Offset(pages, i) <= Offset(pages, j)
    decreases j
  {
    if i < j {
      OffsetMonotone(pages, i, j - 1);
    }
  }

  /** The search through the pages, which ends at the first one beyond x. */
  method FindSingleton(x: nat, pages: seq<Page>, lowers: seq<nat>) returns (found: bool)
    requires PagesOk(pages, lowers)
    ensures found <==> Listed(pages, lowers, x)
  {
    var upper, lowerStart := x / 256, 0;
    var i := 0;
    while i < |pages|
      invariant 0 <= i <= |pages| && lowerStart == Offset(pages, i)
      invariant forall k, j :: 0 <= k < i && 0 <= j < |lowers| ==> !ListedAt(pages, lowers, x, k, j)
    {
      var lowerEnd := lowerStart + pages[i].count;
      OffsetMonotone(pages, i + 1, |pages|);
      if upper < pages[i].upper {
        return false;
      }
      if upper == pages[i].upper {
        for j := lowerStart to lowerEnd
          invariant forall k :: lowerStart <= k < j ==> lowers[k] != x % 256
        {
          if lowers[j] == x % 256 {
            assert ListedAt(pages, lowers, x, i, j);
            return true;
          }
        }
      }
      lowerStart := lowerEnd;
      i := i + 1;
    }
    return false;
  }

  lemma {:induction false} SumMonotone(lens: seq<nat>, i: nat, j: nat)
    requires i <= j <= |lens|
    ensures Sum(lens, i) <= Sum(lens, j)
    decreases j
  {
    if i < j {
      SumMonotone(lens, i, j - 1);
    }
  }

  /** The stretches do not overlap. */
  lemma OneStretch(lens: seq<nat>, i: nat, x: nat)
    requires i < |lens| && InStretch(lens, i, x)
    ensures Hidden(lens, x) <==> i % 2 == 1
  {
    SumMonotone(lens, i + 1, |lens|);
    forall k | 0 <= k < |lens| && InStretch(lens, k, x) ensures k == i {
      if k < i {
        SumMonotone(lens, k + 1, i);
      } else if i < k {
        SumMonotone(lens, i + 1, k);
      }
    }
  }

  lemma PastTheEnd(lens: seq<nat>, x: nat)
    requires Sum(lens, |lens|) <= x
    ensures Hidden(lens, x) <==> |lens| % 2 == 1
  {
    forall k | 0 <= k < |lens| ensures !InStretch(lens, k, x) {
      SumMonotone(lens, k + 1, |lens|);
    }
  }

  /** One length read at i, and the rest of the bytes. */
  lemma LengthAt(bytes: seq<nat>, i: nat)
    requires i < |bytes| && Whole(bytes[i..])
    ensures var v := bytes[i];
      if v >= 0x80 then
        && i + 2 <= |bytes| && Whole(bytes[i + 2..])
        && Lengths(bytes[i..]) == [(v - 0x80) * 256 + bytes[i + 1]] + Lengths(bytes[i + 2..])
      else
        Whole(bytes[i + 1..]) && Lengths(bytes[i..]) == [v] + Lengths(bytes[i + 1..])
  {
    var rest := bytes[i..];
    if bytes[i] >= 0x80 {
      assert rest[2..] == bytes[i + 2..];
    } else {
      assert rest[1..] == bytes[i + 1..];
    }
  }

  lemma NoLengths(bytes: seq<nat>)
    ensures Whole(bytes[|bytes|..]) && Lengths(bytes[|bytes|..]) == []
  {
  }

  /** The first bytes of the generated table of plane 0. */
  const FIRST_BYTES: seq<nat> := [0x00, 0x20, 0x5F, 0x22, 0x82, 0xDF]

  /** They hide the control characters and the no-break space, and nothing else below U+0380. */
  lemma FirstStretches(more: seq<nat>, x: nat)
    requires Whole(more) && x < 0x380
    ensures Whole(FIRST_BYTES + more)
    ensures Hidden(Lengths(FIRST_BYTES + more), x) <==> x <= 0x1F || 0x7F <= x <= 0xA0
  {
    var lens := FirstLengths(more);
    hide Hidden, Lengths, Whole;
    FirstSums(lens);
    OneStretch(lens, if x < 0x20 then 1 else if x < 0x7F then 2 else if x < 0xA1 then 3 else 4, x);
  }

  lemma FirstLengths(more: seq<nat>) returns (lens: seq<nat>)
    requires Whole(more)
    ensures Whole(FIRST_BYTES + more) && lens == Lengths(FIRST_BYTES + more)
    ensures |lens| >= 5 && lens[..5] == [0, 0x20, 0x5F, 0x22, 0x2DF]
  {
    var b := FIRST_BYTES + more;
    assert b[6..] == more;
    hide Whole, Lengths;
    assert b[1..][1..] == b[2..] && b[2..][1..] == b[3..] && b[3..][1..] == b[4..] && b[4..][2..] == b[6..];
    PairFirst(b[4..]);
    SingleFirst(b[3..]);
    SingleFirst(b[2..]);
    SingleFirst(b[1..]);
    SingleFirst(b);
    lens := Lengths(b);
  }

  lemma SingleFirst(b: seq<nat>)
    requires b != [] && b[0] < 0x80 && Whole(b[1..])
    ensures Whole(b) && Lengths(b) == [b[0]] + Lengths(b[1..])
  {
  }

  lemma PairFirst(b: seq<nat>)
    requires |b| >= 2 && b[0] >= 0x80 && Whole(b[2..])
    ensures Whole(b) && Lengths(b) == [(b[0] - 0x80) * 0x100 + b[1]] + Lengths(b[2..])
  {
  }

  lemma FirstSums(lens: seq<nat>)
    requires |lens| >= 5 && lens[..5] == [0, 0x20, 0x5F, 0x22, 0x2DF]
    ensures Sum(lens, 0) == 0 && Sum(lens, 1) == 0 && Sum(lens, 2) == 0x20 && Sum(lens, 3) == 0x7F
    ensures Sum(lens, 4) == 0xA1 && Sum(lens, 5) == 0x380
    ensures lens[1] == 0x20 && lens[2] == 0x5F && lens[3] == 0x22 && lens[4] == 0x2DF
  {
    assert forall i :: 0 <= i < 5 ==> lens[i] == lens[..5][i];
    assert Sum(lens, 2) == Sum(lens, 1) + lens[1] && Sum(lens, 3) == Sum(lens, 2) + lens[2];
    assert Sum(lens, 4) == Sum(lens, 3) + lens[3] && Sum(lens, 5) == Sum(lens, 4) + lens[4];
  }

  /** The walk has come to byte i and length m, with what is left of x and the verdict so far. */
  ghost predicate Walked(bytes: seq<nat>, i: nat, lens: seq<nat>, m: nat, x: nat, left: int, current: bool)
    requires i <= |bytes|
  {
    && m <= |lens| && Whole(bytes[i..]) && lens[m..] == Lengths(bytes[i..])
    && left == x - Sum(lens, m) && left >= 0 && current == (m % 2 == 0)
  }

  function LengthFrom(bytes: seq<nat>, i: nat): nat
    requires i < |bytes| && (bytes[i] >= 0x80 ==> i + 1 < |bytes|)
  {
    if bytes[i] >= 0x80 then (bytes[i] - 0x80) * 256 + bytes[i + 1] else bytes[i]
  }

  lemma WalkStart(bytes: seq<nat>, x: nat)
    requires Whole(bytes)
    ensures Walked(bytes, 0, Lengths(bytes), 0, x, x, true)
  {
    assert bytes[0..] == bytes;
  }

  /** One length further: x lies in this stretch, or the walk goes on. */
  lemma WalkStep(bytes: seq<nat>, i: nat, lens: seq<nat>, m: nat, x: nat, left: int, current: bool)
    requires i < |bytes| && Walked(bytes, i, lens, m, x, left, current)
    ensures bytes[i] >= 0x80 ==> i + 1 < |bytes|
    ensures var len, next := LengthFrom(bytes, i), i + if bytes[i] >= 0x80 then 2 else 1;
      if left - len < 0 then current <==> !Hidden(lens, x)
      else Walked(bytes, next, lens, m + 1, x, left - len, !current)
  {
    LengthAt(bytes, i);
    hide Whole, Lengths, Hidden;
    assert lens[m] == lens[m..][0] && lens[m + 1..] == lens[m..][1..];
    if left - LengthFrom(bytes, i) < 0 {
      OneStretch(lens, m, x);
    }
  }

  lemma WalkEnd(bytes: seq<nat>, lens: seq<nat>, m: nat, x: nat, left: int, current: bool)
    requires Walked(bytes, |bytes|, lens, m, x, left, current)
    ensures current <==> !Hidden(lens, x)
  {
    NoLengths(bytes);
    PastTheEnd(lens, x);
  }

  /** The walk along the stretches. */
  method WalkStretches(x: nat, normal: seq<nat>) returns (current: bool)
    requires Whole(normal)
    ensures current <==> !Hidden(Lengths(normal), x)
  {
    hide Hidden, Lengths, Whole, Walked;
    var xsigned: int := x;
    current := true;
    var i := 0;
    ghost var lens, m := Lengths(normal), 0;
    WalkStart(normal, x);
    while i < |normal|
      invariant 0 <= i <= |normal| && 0 <= m
      invariant Walked(normal, i, lens, m, x, xsigned, current)
      decreases |normal| - i
    {
      WalkStep(normal, i, lens, m, x, xsigned, current);
      var v := normal[i];
      var len := v;
      if v >= 0x80 {
        i := i + 1;
        len := (v - 0x80) * 256 + normal[i];
      }
      xsigned := xsigned - len;
      if xsigned < 0 {
        return;
      }
      current := !current;
      i := i + 1;
      m := m + 1;
    }
    WalkEnd(normal, lens, m, x, xsigned, current);
  }

  /** is_printable within a plane. */
  method IsPrintableIn(x: nat, t: Table) returns (r: bool)
    requires TableOk(t)
    ensures r <==> ShownIn(t, x)
  {
    var found := FindSingleton(x, t.pages, t.lowers);
    if found {
      return false;
    }
    r := WalkStretches(x, t.normal);
  }

  /** is_printable. */
  method IsPrintable(cp: nat, t: Tables) returns (r: bool)
    requires TableOk(t.plane0) && TableOk(t.plane1)
    ensures r <==> Shown(t, cp)
    ensures cp >= 2 * 0x1_0000 ==> (r <==> cp < 17 * 0x1_0000 && forall k :: 0 <= k < |t.extra| ==> !t.extra[k].Has(cp))
  {
    hide TableOk, ShownIn;
    if cp < 0x10000 {
      r := IsPrintableIn(cp, t.plane0);
      return;
    }
    if cp < 0x20000 {
      r := IsPrintableIn(cp % 0x10000, t.plane1);
      return;
    }
    for i := 0 to |t.extra|
      invariant forall k :: 0 <= k < i ==> !t.extra[k].Has(cp)
    {
      if t.extra[i].start <= cp < t.extra[i].start + t.extra[i].count {
        assert t.extra[i].Has(cp);
        return false;
      }
    }
    return cp < CODE_POINTS;
  }
}
