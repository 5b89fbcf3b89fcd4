/** The generator of the tables of unprintable code points. */
module PrintableTables {
  import opened Common
  import opened Printable

  const CUTOFF := 0x10000

  predicate Sorted(s: seq<nat>)
  {
    forall i, j :: 0 <= i < j < |s| ==> s[i] < s[j]
  }

  // ---- Ranges ---------------------------------------------------------------------------------------

  /** A half-open range of code points. */
  datatype Range = Range(start: nat, end: nat) {
    predicate Has(x: int)
    {
      start <= x < end
    }
  }

  predicate Covered(ranges: seq<Range>, x: int)
  {
    exists i :: 0 <= i < |ranges| && ranges[i].Has(x)
  }

  predicate IsPlane(x: int)
  {
    x == 0x10000 || x == 0x20000
  }

  /** Non-empty, within a plane as far as the tables go, and apart unless a plane begins. */
  predicate Maximal(ranges: seq<Range>)
  {
    && (forall i :: 0 <= i < |ranges| ==> ranges[i].start < ranges[i].end)
    && (forall i, x :: 0 <= i < |ranges| && ranges[i].start < x < ranges[i].end ==> !IsPlane(x))
    && (forall i, j :: 0 <= i < j < |ranges| ==>
          ranges[i].end <= ranges[j].start && (ranges[i].end < ranges[j].start || IsPlane(ranges[j].start)))
  }

  ghost predicate RangesOf(ranges: seq<Range>, members: seq<nat>)
  {
    && Maximal(ranges)
    && (forall x :: Covered(ranges, x) <==> x in members)
  }

  /** to_ranges: maximal runs, cut where a plane begins. */
  method ToRanges(iter: seq<nat>) returns (ranges: seq<Range>)
    requires Sorted(iter)
    ensures RangesOf(ranges, iter)
  {
    ranges := [];
    var current: Option<Range> := None;
    for k := 0 to |iter|
      invariant current.None? ==> k == 0 && ranges == []
      invariant current.Some? ==> k > 0 && current.value.end == iter[k - 1] + 1
      invariant current.Some? ==> RangesOf(ranges + [current.value], iter[..k])
    {
      var i := iter[k];
      assert iter[..k + 1] == iter[..k] + [i];
      if current.None? || i != current.value.end || i == 0x10000 || i == 0x20000 {
        if current.Some? {
          ranges := ranges + [current.value];
        }
        NewRange(ranges, iter[..k], i);
        current := Some(Range(i, i + 1));
      } else {
        LongerRange(ranges, current.value, iter[..k]);
        current := Some(Range(current.value.start, current.value.end + 1));
      }
    }
    assert iter[..|iter|] == iter;
    if current.Some? {
      ranges := ranges + [current.value];
    }
  }

  lemma CoveredAppend(ranges: seq<Range>, r: Range, x: int)
    ensures Covered(ranges + [r], x) <==> Covered(ranges, x) || r.Has(x)
  {
    var all := ranges + [r];
    assert all[|ranges|] == r && forall i :: 0 <= i < |ranges| ==> all[i] == ranges[i];
  }

  /** A member after all others that does not extend the last range starts a new one. */
  lemma NewRange(ranges: seq<Range>, members: seq<nat>, i: nat)
    requires RangesOf(ranges, members)
    requires forall m :: m in members ==> m < i
    requires ranges != [] ==> ranges[|ranges| - 1].end != i || IsPlane(i)
    ensures RangesOf(ranges + [Range(i, i + 1)], members + [i])
  {
    forall k | 0 <= k < |ranges| ensures ranges[k].end <= i {
      assert ranges[k].Has(ranges[k].end - 1) && Covered(ranges, ranges[k].end - 1);
    }
    forall x ensures Covered(ranges + [Range(i, i + 1)], x) <==> x in members + [i] {
      CoveredAppend(ranges, Range(i, i + 1), x);
    }
  }

  lemma LongerRange(ranges: seq<Range>, last: Range, members: seq<nat>)
    requires RangesOf(ranges + [last], members) && !IsPlane(last.end)
    ensures RangesOf(ranges + [Range(last.start, last.end + 1)], members + [last.end])
  {
    var before, after := ranges + [last], ranges + [Range(last.start, last.end + 1)];
    assert forall i :: 0 <= i < |ranges| ==> before[i] == ranges[i] == after[i];
    assert before[|ranges|] == last;
    forall x ensures Covered(after, x) <==> x in members + [last.end] {
      CoveredAppend(ranges, last, x);
      CoveredAppend(ranges, Range(last.start, last.end + 1), x);
    }
  }

  // ---- Singletons -----------------------------------------------------------------------------------

  /** Page i has the elements of the list at its positions. */
  predicate PageHolds(pages: seq<Page>, lowers: seq<nat>, list: seq<nat>, i: nat)
    requires i < |pages| && |lowers| == |list|
  {
    forall j :: 0 <= j < |list| && InPage(pages, i, j) ==>
      list[j] / 256 == pages[i].upper && list[j] % 256 == lowers[j]
  }

  /** The pages and low bytes encode the list. */
  predicate Encodes(pages: seq<Page>, lowers: seq<nat>, list: seq<nat>)
  {
    && |lowers| == |list| && PagesOk(pages, lowers)
    && (forall i :: 0 <= i < |pages| ==> pages[i].count > 0 && PageHolds(pages, lowers, list, i))
    && (forall j :: 0 <= j < |lowers| ==> lowers[j] < 256)
  }

  lemma {:induction false} OffsetPrefix(pages: seq<Page>, more: seq<Page>, i: nat)
    requires i <= |pages| && i <= |more| && pages[..i] == more[..i]
    ensures Offset(pages, i) == Offset(more, i)
    decreases i
  {
    if i > 0 {
      assert pages[..i][..i - 1] == pages[..i - 1] && more[..i][..i - 1] == more[..i - 1];
      assert pages[i - 1] == pages[..i][i - 1] == more[..i][i - 1] == more[i - 1];
      OffsetPrefix(pages, more, i - 1);
    }
  }

  /** compress_singletons: the high bytes with their counts, and the low bytes. */
  method CompressSingletons(singletons: seq<nat>) returns (pages: seq<Page>, lowers: seq<nat>)
    requires Sorted(singletons)
    ensures Encodes(pages, lowers, singletons)
  {
    pages, lowers := [], [];
    for k := 0 to |singletons|
      invariant Encodes(pages, lowers, singletons[..k])
      invariant k > 0 ==> pages != [] && pages[|pages| - 1].upper == singletons[k - 1] / 256
      invariant k == 0 ==> pages == []
    {
      var i := singletons[k];
      var upper, lower := i / 256, i % 256;
      assert singletons[..k + 1] == singletons[..k] + [i];
      if pages == [] || pages[|pages| - 1].upper != upper {
        NewPage(pages, lowers, singletons[..k], i);
        pages := pages + [Page(upper, 1)];
      } else {
        LongerPage(pages, lowers, singletons[..k], i);
        pages := pages[|pages| - 1 := Page(upper, pages[|pages| - 1].count + 1)];
      }
      lowers := lowers + [lower];
    }
    assert singletons[..|singletons|] == singletons;
  }

  /** The pages before a changed or added one keep their positions. */
  lemma PagesKept(pages: seq<Page>, more: seq<Page>, n: nat)
    requires n <= |pages| && n <= |more| && forall i :: 0 <= i < n ==> pages[i] == more[i]
    ensures forall i :: 0 <= i <= n ==> Offset(more, i) == Offset(pages, i)
    ensures forall i, j :: 0 <= i < n ==> (InPage(more, i, j) <==> InPage(pages, i, j))
  {
    forall i | 0 <= i <= n ensures Offset(more, i) == Offset(pages, i) {
      assert pages[..i] == more[..i];
      OffsetPrefix(pages, more, i);
    }
  }

  /** An old page holds its elements whatever is appended. */
  lemma PageUntouched(pages: seq<Page>, more: seq<Page>, lowers: seq<nat>, list: seq<nat>, x: nat, i: nat)
    requires i < |pages| && i < |more| && |lowers| == |list| && PageHolds(pages, lowers, list, i)
    requires more[i] == pages[i] && Offset(more, i) == Offset(pages, i) && Offset(pages, i) + pages[i].count <= |list|
    ensures PageHolds(more, lowers + [x % 256], list + [x], i)
  {
  }

  lemma NewPage(pages: seq<Page>, lowers: seq<nat>, list: seq<nat>, x: nat)
    requires Encodes(pages, lowers, list)
    requires pages != [] ==> pages[|pages| - 1].upper < x / 256
    ensures Encodes(pages + [Page(x / 256, 1)], lowers + [x % 256], list + [x])
  {
    hide PageHolds;
    var more, n := pages + [Page(x / 256, 1)], |pages|;
    PagesKept(pages, more, n);
    forall i | 0 <= i < n ensures PageHolds(more, lowers + [x % 256], list + [x], i) {
      OffsetMonotone(pages, i + 1, n);
      PageUntouched(pages, more, lowers, list, x, i);
    }
    LonePage(more, lowers, list, x, n);
  }

  lemma LonePage(pages: seq<Page>, lowers: seq<nat>, list: seq<nat>, x: nat, n: nat)
    requires n < |pages| && |lowers| == |list| == Offset(pages, n) && pages[n] == Page(x / 256, 1)
    ensures PageHolds(pages, lowers + [x % 256], list + [x], n)
  {
  }

  lemma LongerPage(pages: seq<Page>, lowers: seq<nat>, list: seq<nat>, x: nat)
    requires Encodes(pages, lowers, list)
    requires pages != [] && pages[|pages| - 1].upper == x / 256
    ensures Encodes(pages[|pages| - 1 := Page(x / 256, pages[|pages| - 1].count + 1)], lowers + [x % 256], list + [x])
  {
    hide PageHolds;
    var n := |pages| - 1;
    var more := pages[n := Page(x / 256, pages[n].count + 1)];
    PagesKept(pages, more, n);
    forall i | 0 <= i < n ensures PageHolds(more, lowers + [x % 256], list + [x], i) {
      OffsetMonotone(pages, i + 1, n);
      PageUntouched(pages, more, lowers, list, x, i);
    }
    LastPage(pages, more, lowers, list, x, n);
  }

  /** The last page with one more element. */
  lemma LastPage(pages: seq<Page>, more: seq<Page>, lowers: seq<nat>, list: seq<nat>, x: nat, n: nat)
    requires n < |pages| && n < |more| && |lowers| == |list| == Offset(pages, n) + pages[n].count
    requires PageHolds(pages, lowers, list, n) && pages[n].upper == x / 256
    requires Offset(more, n) == Offset(pages, n) && more[n] == Page(x / 256, pages[n].count + 1)
    ensures PageHolds(more, lowers + [x % 256], list + [x], n)
  {
    assert forall j :: InPage(more, n, j) && j < |list| ==> InPage(pages, n, j);
  }

  lemma {:induction false} FindPage(pages: seq<Page>, n: nat, j: nat) returns (i: nat)
    requires n <= |pages| && j < Offset(pages, n)
    ensures i < n && InPage(pages, i, j)
    decreases n
  {
    if Offset(pages, n - 1) <= j {
      i := n - 1;
    } else {
      i := FindPage(pages, n - 1, j);
    }
  }

  /** Exactly the list is found in the pages. */
  lemma EncodedListed(pages: seq<Page>, lowers: seq<nat>, list: seq<nat>, x: nat)
    requires Encodes(pages, lowers, list)
    ensures Listed(pages, lowers, x) <==> x in list
  {
    if x in list {
      var j :| 0 <= j < |list| && list[j] == x;
      var i := FindPage(pages, |pages|, j);
      assert PageHolds(pages, lowers, list, i) && ListedAt(pages, lowers, x, i, j);
    }
    if Listed(pages, lowers, x) {
      var i, j :| 0 <= i < |pages| && 0 <= j < |lowers| && ListedAt(pages, lowers, x, i, j);
      assert PageHolds(pages, lowers, list, i) && list[j] == x;
    }
  }

  /** Runs of at most two with a gap after each. */
  predicate Sparse(list: seq<nat>)
  {
    forall j :: 0 <= j && j + 2 < |list| ==> list[j] + 3 <= list[j + 2]
  }

  lemma {:induction false} Spread(list: seq<nat>, a: nat, n: nat)
    requires Sorted(list) && Sparse(list) && a + n < |list|
    ensures list[a + n] >= list[a] + 3 * (n / 2)
    decreases n
  {
    if n >= 2 {
      Spread(list, a, n - 2);
    }
  }

  /** A page never holds more singletons than a byte can count. */
  lemma CountFits(pages: seq<Page>, lowers: seq<nat>, list: seq<nat>, i: nat)
    requires Encodes(pages, lowers, list) && Sorted(list) && Sparse(list) && i < |pages|
    ensures pages[i].count <= 172
  {
    var a, n := Offset(pages, i), pages[i].count;
    OffsetMonotone(pages, i + 1, |pages|);
    assert PageHolds(pages, lowers, list, i) && InPage(pages, i, a) && InPage(pages, i, a + n - 1);
    Spread(list, a, n - 1);
  }

  // ---- Normal runs ------------------------------------------------------------------------------------

  /** Runs in order. */
  predicate Ordered(runs: seq<Run>)
  {
    forall i, j :: 0 <= i < j < |runs| ==> runs[i].start + runs[i].count <= runs[j].start
  }

  function PrevEnd(runs: seq<Run>, i: nat): nat
    requires i <= |runs|
  {
    if i == 0 then 0 else runs[i - 1].start + runs[i - 1].count
  }

  /** The gap before run i. */
  function Gap(runs: seq<Run>, i: nat): int
    requires i < |runs|
  {
    runs[i].start - PrevEnd(runs, i)
  }

  /** The lengths are the gaps and the runs in turn. */
  predicate LengthsOf(lens: seq<nat>, runs: seq<Run>)
  {
    && |lens| == 2 * |runs|
    && forall i :: 0 <= i < |runs| ==> lens[2 * i] == Gap(runs, i) && lens[2 * i + 1] == runs[i].count
  }

  predicate AllBytes(bytes: seq<nat>)
  {
    forall i :: 0 <= i < |bytes| ==> bytes[i] < 256
  }

  predicate LengthsFit(runs: seq<Run>)
  {
    forall i :: 0 <= i < |runs| ==> Gap(runs, i) < 0x8000 && runs[i].count < 0x8000
  }

  function LengthBytes(n: nat): seq<nat>
    requires n < 0x8000
  {
    if n > 0x7F then [0x80 + n / 256, n % 256] else [n % 0x80]
  }

  /** The bytes of a length are read back. */
  lemma LengthRead(n: nat)
    requires n < 0x8000
    ensures var b := LengthBytes(n);
      Whole(b) && AllBytes(b) && Lengths(b) == [n]
  {
    var b := LengthBytes(n);
    if n > 0x7F {
      assert b[2..] == [];
    } else {
      assert b[1..] == [];
    }
  }

  lemma {:induction false} LengthAppended(bytes: seq<nat>, n: nat)
    requires Whole(bytes) && AllBytes(bytes) && n < 0x8000
    ensures var more := bytes + LengthBytes(n);
      Whole(more) && AllBytes(more) && Lengths(more) == Lengths(bytes) + [n]
  {
    hide LengthBytes;
    var b := LengthBytes(n);
    LengthRead(n);
    if bytes == [] {
      assert bytes + b == b;
    } else {
      var k := if bytes[0] >= 0x80 then 2 else 1;
      assert k <= |bytes| && Whole(bytes[k..]);
      var head, tail := bytes[..k], bytes[k..];
      BytesSplit(bytes, b, k);
      hide Whole, Lengths, FirstLength, AllBytes;
      LengthAppended(tail, n);
      LaterAppended(head, tail, b, n);
    }
  }

  lemma BytesSplit(bytes: seq<nat>, b: seq<nat>, k: nat)
    requires k <= |bytes| && AllBytes(bytes) && AllBytes(b)
    ensures bytes == bytes[..k] + bytes[k..] && bytes + b == bytes[..k] + (bytes[k..] + b)
    ensures AllBytes(bytes[k..]) && AllBytes(bytes + b)
  {
  }

  /** The bytes of one length. */
  predicate IsHead(head: seq<nat>)
  {
    |head| > 0 && |head| == if head[0] >= 0x80 then 2 else 1
  }

  function FirstLength(head: seq<nat>): nat
    requires IsHead(head)
  {
    if |head| == 2 then (head[0] - 0x80) * 256 + head[1] else head[0]
  }

  lemma HeadRead(head: seq<nat>, tail: seq<nat>)
    requires IsHead(head) && Whole(tail)
    ensures Whole(head + tail) && Lengths(head + tail) == [FirstLength(head)] + Lengths(tail)
  {
    assert (head + tail)[|head|..] == tail;
  }

  /** A length appended to what follows the first length is appended to the whole. */
  lemma LaterAppended(head: seq<nat>, tail: seq<nat>, b: seq<nat>, n: nat)
    requires IsHead(head) && Whole(tail) && Whole(tail + b) && Lengths(tail + b) == Lengths(tail) + [n]
    ensures Whole(head + tail) && Whole(head + (tail + b))
    ensures Lengths(head + (tail + b)) == Lengths(head + tail) + [n]
  {
    hide Whole, Lengths, FirstLength;
    HeadRead(head, tail);
    HeadRead(head, tail + b);
  }

  /** The lengths of the first k runs, which fit. */
  predicate LengthsSoFar(lens: seq<nat>, runs: seq<Run>, k: nat)
    requires k <= |runs|
  {
    && |lens| == 2 * k
    && forall i :: 0 <= i < k ==>
         && Gap(runs, i) < 0x8000 && runs[i].count < 0x8000
         && lens[2 * i] == Gap(runs, i) && lens[2 * i + 1] == runs[i].count
  }

  lemma NextLengths(lens: seq<nat>, runs: seq<Run>, k: nat)
    requires k < |runs| && LengthsSoFar(lens, runs, k) && 0 <= Gap(runs, k) < 0x8000 && runs[k].count < 0x8000
    ensures LengthsSoFar((lens + [Gap(runs, k)]) + [runs[k].count], runs, k + 1)
  {
  }

  lemma NothingEncoded(runs: seq<Run>)
    ensures Whole([]) && AllBytes([]) && LengthsSoFar(Lengths([]), runs, 0)
  {
  }

  lemma AllLengths(lens: seq<nat>, runs: seq<Run>)
    requires LengthsSoFar(lens, runs, |runs|)
    ensures LengthsOf(lens, runs) && LengthsFit(runs)
  {
  }

  /** compress_normal: fails (an assertion in the original) on a gap or run of 0x8000 or more. */
  method CompressNormal(normal: seq<Run>) returns (bytes: Option<seq<nat>>)
    requires Ordered(normal)
    ensures bytes.Some? <==> LengthsFit(normal)
    ensures bytes.Some? ==> Whole(bytes.value) && AllBytes(bytes.value) && LengthsOf(Lengths(bytes.value), normal)
  {
    hide Whole, AllBytes, Lengths, LengthBytes, LengthsSoFar, LengthsOf;
    NothingEncoded(normal);
    var compressed, prevStart := [], 0;
    for k := 0 to |normal|
      invariant prevStart == PrevEnd(normal, k)
      invariant Whole(compressed) && AllBytes(compressed) && LengthsSoFar(Lengths(compressed), normal, k)
    {
      var truelen, falselen := normal[k].start - prevStart, normal[k].count;
      assert truelen == Gap(normal, k) && truelen >= 0;
      prevStart := normal[k].start + normal[k].count;
      if truelen >= 0x8000 || falselen >= 0x8000 {
        return None;
      }
      NextLengths(Lengths(compressed), normal, k);
      LengthAppended(compressed, truelen);
      LengthAppended(compressed + LengthBytes(truelen), falselen);
      compressed := (compressed + LengthBytes(truelen)) + LengthBytes(falselen);
    }
    AllLengths(Lengths(compressed), normal);
    return Some(compressed);
  }

  lemma {:induction false} StretchSums(lens: seq<nat>, runs: seq<Run>, k: nat)
    requires LengthsOf(lens, runs) && k <= |runs|
    ensures Sum(lens, 2 * k) == PrevEnd(runs, k)
    ensures k < |runs| ==> Sum(lens, 2 * k + 1) == runs[k].start
    decreases k
  {
    if k > 0 {
      StretchSums(lens, runs, k - 1);
      assert 2 * k - 1 == 2 * (k - 1) + 1;
    }
    if k < |runs| {
      assert lens[2 * k] == Gap(runs, k);
    }
  }

  /** Run k is the stretch after its gap. */
  lemma RunStretch(lens: seq<nat>, runs: seq<Run>, k: nat, x: int)
    requires LengthsOf(lens, runs) && k < |runs|
    ensures InStretch(lens, 2 * k + 1, x) <==> runs[k].Has(x)
  {
    StretchSums(lens, runs, k);
    assert lens[2 * k + 1] == runs[k].count;
  }

  /** Exactly the runs are hidden. */
  lemma EncodedHidden(lens: seq<nat>, runs: seq<Run>, x: nat)
    requires LengthsOf(lens, runs)
    ensures Hidden(lens, x) <==> InRuns(runs, x)
  {
    hide LengthsOf;
    assert |lens| == 2 * |runs| by {
      assert LengthsOf(lens, runs);
      LengthsCount(lens, runs);
    }
    if Hidden(lens, x) {
      var i :| 0 <= i < |lens| && InStretch(lens, i, x) && i % 2 == 1;
      var k := i / 2;
      assert i == 2 * k + 1;
      RunStretch(lens, runs, k, x);
    }
    if InRuns(runs, x) {
      var k :| 0 <= k < |runs| && runs[k].Has(x);
      RunStretch(lens, runs, k, x);
      assert InStretch(lens, 2 * k + 1, x);
    }
  }

  lemma LengthsCount(lens: seq<nat>, runs: seq<Run>)
    requires LengthsOf(lens, runs)
    ensures |lens| == 2 * |runs|
  {
  }

  // ---- Classification ---------------------------------------------------------------------------------

  /** The ranges sorted by plane and length. */
  datatype Classes = Classes(singletons0: seq<nat>, singletons1: seq<nat>, normal0: seq<Run>, normal1: seq<Run>,
                             extra: seq<Run>)

  /** Bit 16 of a code point. */
  predicate InCutoff(a: nat)
  {
    a / CUTOFF % 2 == 1
  }

  function ClearCutoff(a: nat): nat
  {
    if InCutoff(a) then a - CUTOFF else a
  }

  /** Where a range goes: the body of the loop. */
  function Place(c: Classes, a: nat, b: nat): Classes
    requires a < b
  {
    if a > 2 * CUTOFF then c.(extra := c.extra + [Run(a, b - a)])
    else if a == b - 1 then
      if InCutoff(a) then c.(singletons1 := c.singletons1 + [ClearCutoff(a)])
      else c.(singletons0 := c.singletons0 + [a])
    else if a == b - 2 then
      if InCutoff(a) then c.(singletons1 := c.singletons1 + [ClearCutoff(a)] + [ClearCutoff(a + 1)])
      else c.(singletons0 := c.singletons0 + [a] + [a + 1])
    else if a >= 2 * CUTOFF then c.(extra := c.extra + [Run(a, b - a)])
    else if InCutoff(a) then c.(normal1 := c.normal1 + [Run(ClearCutoff(a), b - a)])
    else c.(normal0 := c.normal0 + [Run(a, b - a)])
  }

  /** A plane's lists hold what is covered from base on. */
  ghost predicate PlaneHolds(singletons: seq<nat>, normal: seq<Run>, ranges: seq<Range>, base: nat)
  {
    forall x :: 0 <= x < CUTOFF ==> ((x in singletons || InRuns(normal, x)) <==> Covered(ranges, base + x))
  }

  /** Everything in the lists ends by hi. */
  predicate Below(singletons: seq<nat>, normal: seq<Run>, hi: int)
  {
    && (forall i :: 0 <= i < |singletons| ==> singletons[i] < hi)
    && (forall i :: 0 <= i < |normal| ==> normal[i].start + normal[i].count <= hi)
  }

  predicate ListsOk(singletons: seq<nat>, normal: seq<Run>)
  {
    Sorted(singletons) && Sparse(singletons) && Ordered(normal)
  }

  /** A range of one or two code points that starts plane 2, which lands among the singletons of plane 0. */
  predicate Misplaced(r: Range)
  {
    r.start == 2 * CUTOFF && r.end <= 2 * CUTOFF + 2
  }

  /** Covered by a range that is not misplaced. */
  predicate WellCovered(ranges: seq<Range>, x: int)
  {
    exists i :: 0 <= i < |ranges| && ranges[i].Has(x) && !Misplaced(ranges[i])
  }

  ghost predicate ExtraHolds(extra: seq<Run>, ranges: seq<Range>)
  {
    forall x :: x >= 2 * CUTOFF ==> (InRuns(extra, x) <==> WellCovered(ranges, x))
  }

  function Limit(ranges: seq<Range>): nat
  {
    if ranges == [] then 0 else ranges[|ranges| - 1].end
  }

  ghost predicate Classified(c: Classes, ranges: seq<Range>)
  {
    && PlaneHolds(c.singletons0, c.normal0, ranges, 0)
    && PlaneHolds(c.singletons1, c.normal1, ranges, CUTOFF)
    && ExtraHolds(c.extra, ranges)
    && ListsOk(c.singletons0, c.normal0) && ListsOk(c.singletons1, c.normal1)
    && Below(c.singletons0, c.normal0, Limit(ranges)) && Below(c.singletons1, c.normal1, Limit(ranges) - CUTOFF)
    && Below([], c.normal0, CUTOFF) && Below(c.singletons1, c.normal1, CUTOFF)
    && ((forall r :: r in ranges ==> !Misplaced(r)) ==> Below(c.singletons0, c.normal0, CUTOFF))
  }

  lemma NothingClassified()
    ensures Classified(Classes([], [], [], [], []), []) && LongHeld([], [], 0) && LongHeld([], [], CUTOFF)
  {
  }

  lemma MaximalPrefix(ranges: seq<Range>, k: nat)
    requires Maximal(ranges) && k <= |ranges|
    ensures Maximal(ranges[..k])
  {
  }

  /** The loop over the ranges. */
  method Classify(ranges: seq<Range>) returns (c: Classes)
    requires Maximal(ranges)
    ensures Classified(c, ranges) && LongHeld(c.normal0, ranges, 0) && LongHeld(c.normal1, ranges, CUTOFF)
  {
    hide Classified;
    hide Place;
    hide Maximal;
    hide LongHeld;
    c := Classes([], [], [], [], []);
    NothingClassified();
    for k := 0 to |ranges|
      invariant Classified(c, ranges[..k])
      invariant LongHeld(c.normal0, ranges[..k], 0) && LongHeld(c.normal1, ranges[..k], CUTOFF)
    {
      assert ranges[..k + 1] == ranges[..k] + [ranges[k]];
      MaximalPrefix(ranges, k + 1);
      PlaceStep(c, ranges[..k], ranges[k]);
      LongStep(c, ranges[..k], ranges[k]);
      c := Place(c, ranges[k].start, ranges[k].end);
    }
    assert ranges[..|ranges|] == ranges;
  }

  lemma AppendSingle(s: seq<nat>, a: nat)
    requires Sorted(s) && Sparse(s) && forall i :: 0 <= i < |s| ==> s[i] + 2 <= a
    ensures Sorted(s + [a]) && Sparse(s + [a])
    ensures Sorted(s + [a] + [a + 1]) && Sparse(s + [a] + [a + 1])
  {
    assert |s| >= 2 ==> s[|s| - 2] < s[|s| - 1];
  }

  lemma InRunsAppend(runs: seq<Run>, r: Run, x: int)
    ensures InRuns(runs + [r], x) <==> InRuns(runs, x) || r.Has(x)
  {
    var all := runs + [r];
    assert all[|runs|] == r && forall i :: 0 <= i < |runs| ==> all[i] == runs[i];
  }

  lemma WellCoveredAppend(ranges: seq<Range>, r: Range, x: int)
    ensures WellCovered(ranges + [r], x) <==> WellCovered(ranges, x) || (r.Has(x) && !Misplaced(r))
  {
    var all := ranges + [r];
    assert all[|ranges|] == r && forall i :: 0 <= i < |ranges| ==> all[i] == ranges[i];
  }

  /** Lists extended by what r covers in the plane. */
  lemma PlaneStep(s: seq<nat>, n: seq<Run>, s': seq<nat>, n': seq<Run>, ranges: seq<Range>, r: Range, base: nat)
    requires PlaneHolds(s, n, ranges, base)
    requires forall x :: 0 <= x < CUTOFF ==>
      ((x in s' || InRuns(n', x)) <==> (x in s || InRuns(n, x) || r.Has(base + x)))
    ensures PlaneHolds(s', n', ranges + [r], base)
  {
    forall x | 0 <= x < CUTOFF
      ensures (x in s' || InRuns(n', x)) <==> Covered(ranges + [r], base + x)
    {
      CoveredAppend(ranges, r, base + x);
    }
  }

  lemma ExtraStep(extra: seq<Run>, ranges: seq<Range>, r: Range)
    requires ExtraHolds(extra, ranges) && r.start < r.end
    ensures r.end <= 2 * CUTOFF || Misplaced(r) ==> ExtraHolds(extra, ranges + [r])
    ensures r.start >= 2 * CUTOFF && !Misplaced(r) ==> ExtraHolds(extra + [Run(r.start, r.end - r.start)], ranges + [r])
  {
    forall x | x >= 2 * CUTOFF
      ensures r.end <= 2 * CUTOFF || Misplaced(r) ==> (InRuns(extra, x) <==> WellCovered(ranges + [r], x))
      ensures r.start >= 2 * CUTOFF && !Misplaced(r) ==>
        (InRuns(extra + [Run(r.start, r.end - r.start)], x) <==> WellCovered(ranges + [r], x))
    {
      WellCoveredAppend(ranges, r, x);
      InRunsAppend(extra, Run(r.start, r.end - r.start), x);
    }
  }

  /** The last range of a maximal sequence after the others. */
  lemma LastRange(ranges: seq<Range>, r: Range)
    requires Maximal(ranges + [r])
    ensures r.start < r.end && Maximal(ranges)
    ensures r.start < CUTOFF ==> r.end <= CUTOFF
    ensures r.start < 2 * CUTOFF ==> r.end <= 2 * CUTOFF
    ensures ranges == [] || Limit(ranges) < r.start || (Limit(ranges) == r.start && IsPlane(r.start))
    ensures forall q :: q in ranges ==> q.start < q.end <= r.start
  {
    var all := ranges + [r];
    assert all[|ranges|] == r;
    assert forall i :: 0 <= i < |ranges| ==> all[i] == ranges[i];
    assert IsPlane(CUTOFF) && IsPlane(2 * CUTOFF);
    assert ranges != [] ==> all[|ranges| - 1].end == Limit(ranges);
  }

  lemma CutoffBit(a: nat)
    requires a <= 2 * CUTOFF + 1
    ensures InCutoff(a) <==> CUTOFF <= a < 2 * CUTOFF
  {
  }

  /** The lists of a plane with a range placed in them. */
  function PlaceIn(s: seq<nat>, n: seq<Run>, a: nat, b: nat): (seq<nat>, seq<Run>)
    requires a < b
  {
    if a == b - 1 then (s + [a], n) else if a == b - 2 then (s + [a] + [a + 1], n) else (s, n + [Run(a, b - a)])
  }

  /** A range within the plane: what it covers is added. */
  lemma PlaceMembers(s: seq<nat>, n: seq<Run>, ranges: seq<Range>, r: Range, base: nat)
    requires base <= r.start < r.end <= base + CUTOFF && PlaneHolds(s, n, ranges, base)
    ensures var (s', n') := PlaceIn(s, n, r.start - base, r.end - base);
      PlaneHolds(s', n', ranges + [r], base)
  {
    var a, b := r.start - base, r.end - base;
    var (s', n') := PlaceIn(s, n, a, b);
    forall x | 0 <= x < CUTOFF
      ensures (x in s' || InRuns(n', x)) <==> (x in s || InRuns(n, x) || r.Has(base + x))
    {
      InRunsAppend(n, Run(a, b - a), x);
    }
    PlaneStep(s, n, s', n', ranges, r, base);
  }

  /** After all that is there already, it keeps the lists in order. */
  lemma PlaceInPlane(s: seq<nat>, n: seq<Run>, ranges: seq<Range>, r: Range, base: nat, hi: int)
    requires base <= r.start < r.end <= base + CUTOFF
    requires PlaneHolds(s, n, ranges, base) && ListsOk(s, n)
    requires Below(s, n, hi - base) && (hi < r.start || (hi <= r.start && hi <= base))
    ensures var (s', n') := PlaceIn(s, n, r.start - base, r.end - base);
      PlaneHolds(s', n', ranges + [r], base) && ListsOk(s', n') && Below(s', n', r.end - base)
  {
    hide PlaneHolds;
    PlaceMembers(s, n, ranges, r, base);
    hide InRuns;
    AppendSingle(s, r.start - base);
  }

  /** A range outside the plane. */
  lemma PlaceElsewhere(s: seq<nat>, n: seq<Run>, ranges: seq<Range>, r: Range, base: nat, hi: int)
    requires r.start < r.end && (r.end <= base || base + CUTOFF <= r.start) && hi <= r.end
    requires PlaneHolds(s, n, ranges, base) && Below(s, n, hi - base)
    ensures PlaneHolds(s, n, ranges + [r], base) && Below(s, n, r.end - base)
  {
    PlaneStep(s, n, s, n, ranges, r, base);
  }

  /** A range in plane 0. */
  lemma PlaceIn0(c: Classes, ranges: seq<Range>, r: Range)
    requires Maximal(ranges + [r]) && Classified(c, ranges) && r.start < r.end
    requires r.start < CUTOFF
    ensures Classified(Place(c, r.start, r.end), ranges + [r])
  {
    hide PlaneHolds;
    hide ListsOk;
    hide ExtraHolds;
    hide Maximal;
    LastRange(ranges, r);
    assert r in ranges + [r] && forall q :: q in ranges ==> q in ranges + [r];
    CutoffBit(r.start);
    ExtraStep(c.extra, ranges, r);
    PlaceInPlane(c.singletons0, c.normal0, ranges, r, 0, Limit(ranges));
    PlaceElsewhere(c.singletons1, c.normal1, ranges, r, CUTOFF, Limit(ranges));
  }

  /** A range in plane 1. */
  lemma PlaceIn1(c: Classes, ranges: seq<Range>, r: Range)
    requires Maximal(ranges + [r]) && Classified(c, ranges) && r.start < r.end
    requires CUTOFF <= r.start < 2 * CUTOFF
    ensures Classified(Place(c, r.start, r.end), ranges + [r])
  {
    hide PlaneHolds;
    hide ListsOk;
    hide ExtraHolds;
    hide Maximal;
    LastRange(ranges, r);
    assert r in ranges + [r] && forall q :: q in ranges ==> q in ranges + [r];
    CutoffBit(r.start);
    CutoffBit(r.start + 1);
    ExtraStep(c.extra, ranges, r);
    PlaceInPlane(c.singletons1, c.normal1, ranges, r, CUTOFF, Limit(ranges));
    PlaceElsewhere(c.singletons0, c.normal0, ranges, r, 0, Limit(ranges));
  }

  /** A range above them. */
  lemma PlaceAbove(c: Classes, ranges: seq<Range>, r: Range)
    requires Maximal(ranges + [r]) && Classified(c, ranges) && r.start < r.end
    requires 2 * CUTOFF <= r.start && !Misplaced(r)
    ensures Classified(Place(c, r.start, r.end), ranges + [r])
  {
    hide PlaneHolds;
    hide ListsOk;
    hide ExtraHolds;
    hide Maximal;
    LastRange(ranges, r);
    assert r in ranges + [r] && forall q :: q in ranges ==> q in ranges + [r];
    ExtraStep(c.extra, ranges, r);
    PlaceElsewhere(c.singletons0, c.normal0, ranges, r, 0, Limit(ranges));
    PlaceElsewhere(c.singletons1, c.normal1, ranges, r, CUTOFF, Limit(ranges));
  }

  /** A short range at the start of plane 2: its singletons end up beyond plane 0. */
  lemma PlaceMisplaced(c: Classes, ranges: seq<Range>, r: Range)
    requires Maximal(ranges + [r]) && Classified(c, ranges) && r.start < r.end
    requires Misplaced(r)
    ensures Classified(Place(c, r.start, r.end), ranges + [r])
  {
    hide PlaneHolds;
    hide ListsOk;
    hide ExtraHolds;
    hide Maximal;
    LastRange(ranges, r);
    assert r in ranges + [r] && forall q :: q in ranges ==> q in ranges + [r];
    CutoffBit(r.start);
    ExtraStep(c.extra, ranges, r);
    PlaceElsewhere(c.singletons0, c.normal0, ranges, r, 0, Limit(ranges));
    PlaceElsewhere(c.singletons1, c.normal1, ranges, r, CUTOFF, Limit(ranges));
    assert forall q :: q in ranges ==> !Misplaced(q);
    SinglesBeyond(c.singletons0, c.normal0, ranges + [r], r.start);
  }

  /** Singletons of plane 2 among those of plane 0: in order, and without effect. */
  lemma SinglesBeyond(s: seq<nat>, n: seq<Run>, ranges: seq<Range>, a: nat)
    requires PlaneHolds(s, n, ranges, 0) && ListsOk(s, n) && Below(s, n, CUTOFF) && a == 2 * CUTOFF
    ensures PlaneHolds(s + [a], n, ranges, 0) && ListsOk(s + [a], n) && Below(s + [a], n, a + 1)
    ensures PlaneHolds(s + [a] + [a + 1], n, ranges, 0) && ListsOk(s + [a] + [a + 1], n)
         && Below(s + [a] + [a + 1], n, a + 2)
  {
    AppendSingle(s, a);
  }

  /** Placing a range keeps the classification right. */
  lemma PlaceStep(c: Classes, ranges: seq<Range>, r: Range)
    requires Maximal(ranges + [r]) && Classified(c, ranges)
    ensures r.start < r.end && Classified(Place(c, r.start, r.end), ranges + [r])
  {
    hide Classified;
    hide Place;
    LastRange(ranges, r);
    if r.start < CUTOFF {
      PlaceIn0(c, ranges, r);
    } else if r.start < 2 * CUTOFF {
      PlaceIn1(c, ranges, r);
    } else if Misplaced(r) {
      PlaceMisplaced(c, ranges, r);
    } else {
      PlaceAbove(c, ranges, r);
    }
  }

  // ---- Which runs are long --------------------------------------------------------------------------

  /** Runs of three or more with something between them. */
  predicate Apart(runs: seq<Run>)
  {
    && (forall i :: 0 <= i < |runs| ==> runs[i].count >= 3)
    && (forall i, j :: 0 <= i < j < |runs| ==> runs[i].start + runs[i].count < runs[j].start)
  }

  /** A range of three or more in the plane that starts at base. */
  predicate IsLong(r: Range, base: nat)
  {
    base <= r.start < base + CUTOFF && r.start + 3 <= r.end
  }

  predicate LongCovered(ranges: seq<Range>, base: nat, x: int)
  {
    exists i :: 0 <= i < |ranges| && ranges[i].Has(base + x) && IsLong(ranges[i], base)
  }

  /** The normal runs of a plane are its long ranges. */
  ghost predicate LongHeld(normal: seq<Run>, ranges: seq<Range>, base: nat)
  {
    Apart(normal) && forall x :: InRuns(normal, x) <==> LongCovered(ranges, base, x)
  }

  lemma LongCoveredAppend(ranges: seq<Range>, r: Range, base: nat, x: int)
    ensures LongCovered(ranges + [r], base, x) <==> LongCovered(ranges, base, x) || (r.Has(base + x) && IsLong(r, base))
  {
    var all := ranges + [r];
    assert all[|ranges|] == r && forall i :: 0 <= i < |ranges| ==> all[i] == ranges[i];
    if LongCovered(ranges, base, x) {
      var i :| 0 <= i < |ranges| && ranges[i].Has(base + x) && IsLong(ranges[i], base);
      assert all[i].Has(base + x) && IsLong(all[i], base);
    }
  }

  lemma LongAppended(normal: seq<Run>, ranges: seq<Range>, r: Range, base: nat, hi: int)
    requires LongHeld(normal, ranges, base) && r.start < r.end
    requires Below([], normal, hi - base) && (hi < r.start || (hi <= r.start && hi <= base))
    ensures IsLong(r, base) ==> LongHeld(normal + [Run(r.start - base, r.end - r.start)], ranges + [r], base)
  {
    if IsLong(r, base) {
      var more := Run(r.start - base, r.end - r.start);
      forall x
        ensures InRuns(normal + [more], x) <==> LongCovered(ranges + [r], base, x)
      {
        InRunsAppend(normal, more, x);
        LongCoveredAppend(ranges, r, base, x);
      }
    }
  }

  lemma LongUnchanged(normal: seq<Run>, ranges: seq<Range>, r: Range, base: nat)
    requires LongHeld(normal, ranges, base) && !IsLong(r, base)
    ensures LongHeld(normal, ranges + [r], base)
  {
    forall x
      ensures InRuns(normal, x) <==> LongCovered(ranges + [r], base, x)
    {
      LongCoveredAppend(ranges, r, base, x);
    }
  }

  lemma ClassesBelow(c: Classes, ranges: seq<Range>)
    requires Classified(c, ranges)
    ensures Below([], c.normal0, Limit(ranges)) && Below([], c.normal1, Limit(ranges) - CUTOFF)
  {
  }

  lemma LongStep(c: Classes, ranges: seq<Range>, r: Range)
    requires Maximal(ranges + [r]) && Classified(c, ranges)
    requires LongHeld(c.normal0, ranges, 0) && LongHeld(c.normal1, ranges, CUTOFF)
    ensures r.start < r.end
    ensures var d := Place(c, r.start, r.end);
      LongHeld(d.normal0, ranges + [r], 0) && LongHeld(d.normal1, ranges + [r], CUTOFF)
  {
    LastRange(ranges, r);
    ClassesBelow(c, ranges);
    hide Classified, LongHeld, Maximal;
    if r.start <= 2 * CUTOFF {
      CutoffBit(r.start);
    }
    if IsLong(r, 0) {
      LongAppended(c.normal0, ranges, r, 0, Limit(ranges));
    } else {
      LongUnchanged(c.normal0, ranges, r, 0);
    }
    if IsLong(r, CUTOFF) {
      LongAppended(c.normal1, ranges, r, CUTOFF, Limit(ranges));
    } else {
      LongUnchanged(c.normal1, ranges, r, CUTOFF);
    }
  }

  // ---- Which lengths fit ------------------------------------------------------------------------------

  /** 0x8000 places in runs, or outside them with a run to come. */
  ghost predicate Stretched(runs: seq<Run>, x: nat)
  {
    || (forall y :: x <= y < x + 0x8000 ==> InRuns(runs, y))
    || ((forall y :: x <= y < x + 0x8000 ==> !InRuns(runs, y)) && exists z :: z >= x + 0x8000 && InRuns(runs, z))
  }

  lemma LongRunStretched(runs: seq<Run>, i: nat)
    requires Apart(runs) && i < |runs| && runs[i].count >= 0x8000
    ensures Stretched(runs, runs[i].start)
  {
    forall y | runs[i].start <= y < runs[i].start + 0x8000
      ensures InRuns(runs, y)
    {
      assert runs[i].Has(y);
    }
  }

  lemma LongGapStretched(runs: seq<Run>, i: nat)
    requires Apart(runs) && i < |runs| && Gap(runs, i) >= 0x8000
    ensures Stretched(runs, PrevEnd(runs, i))
  {
    var x := PrevEnd(runs, i);
    forall y | x <= y < x + 0x8000
      ensures !InRuns(runs, y)
    {
    }
    assert runs[i].Has(runs[i].start) && InRuns(runs, runs[i].start);
  }

  /** A run over 0x8000 places is that long. */
  lemma StretchOfOne(runs: seq<Run>, x: nat) returns (i: nat)
    requires Apart(runs) && forall y :: x <= y < x + 0x8000 ==> InRuns(runs, y)
    ensures i < |runs| && runs[i].count >= 0x8000
  {
    assert InRuns(runs, x);
    var k :| 0 <= k < |runs| && runs[k].Has(x);
    i := k;
    var end := runs[i].start + runs[i].count;
    assert !InRuns(runs, end);
  }

  /** The first run that ends behind x. */
  lemma {:induction false} FirstBehind(runs: seq<Run>, x: nat, k: nat) returns (i: nat)
    requires Apart(runs) && k < |runs| && x < runs[k].start + runs[k].count
    ensures i <= k && x < runs[i].start + runs[i].count && PrevEnd(runs, i) <= x
    decreases k
  {
    if k == 0 || PrevEnd(runs, k) <= x {
      i := k;
    } else {
      i := FirstBehind(runs, x, k - 1);
    }
  }

  lemma GapOfOne(runs: seq<Run>, x: nat, z: int) returns (i: nat)
    requires Apart(runs) && (forall y :: x <= y < x + 0x8000 ==> !InRuns(runs, y)) && z >= x + 0x8000 && InRuns(runs, z)
    ensures i < |runs| && Gap(runs, i) >= 0x8000
  {
    var k :| 0 <= k < |runs| && runs[k].Has(z);
    i := FirstBehind(runs, x, k);
    assert runs[i].Has(runs[i].start) && InRuns(runs, runs[i].start);
    assert !InRuns(runs, x);
  }

  /** The lengths fit exactly if nothing is stretched. */
  lemma FitExactly(runs: seq<Run>)
    requires Apart(runs)
    ensures LengthsFit(runs) <==> forall x: nat :: !Stretched(runs, x)
  {
    if x: nat :| Stretched(runs, x) {
      if forall y :: x <= y < x + 0x8000 ==> InRuns(runs, y) {
        var i := StretchOfOne(runs, x);
      } else {
        var z :| z >= x + 0x8000 && InRuns(runs, z);
        var i := GapOfOne(runs, x, z);
      }
    }
    if !LengthsFit(runs) {
      var i :| 0 <= i < |runs| && !(Gap(runs, i) < 0x8000 && runs[i].count < 0x8000);
      if runs[i].count >= 0x8000 {
        LongRunStretched(runs, i);
      } else {
        LongGapStretched(runs, i);
      }
    }
  }

  /** Three members in a row in the plane that starts at base. */
  predicate Triple(members: seq<nat>, base: nat, y: int)
  {
    0 <= y < CUTOFF - 2 && base + y in members && base + y + 1 in members && base + y + 2 in members
  }

  /** A place in a run of three or more members. */
  predicate InLong(members: seq<nat>, base: nat, x: int)
  {
    Triple(members, base, x) || Triple(members, base, x - 1) || Triple(members, base, x - 2)
  }

  /** 0x8000 code points of the plane, from x on, in such a run, or in none while one is still to come. */
  ghost predicate TooLong(members: seq<nat>, base: nat, x: nat)
  {
    || (forall y :: x <= y < x + 0x8000 ==> InLong(members, base, y))
    || ((forall y :: x <= y < x + 0x8000 ==> !InLong(members, base, y))
        && exists z :: z >= x + 0x8000 && InLong(members, base, z))
  }

  /** The two tables of lengths can be written. */
  ghost predicate Encodable(members: seq<nat>)
  {
    forall x: nat :: !TooLong(members, 0, x) && !TooLong(members, CUTOFF, x)
  }

  /** Long ranges are runs of three or more. */
  lemma LongIsTriple(ranges: seq<Range>, members: seq<nat>, base: nat, x: int)
    requires RangesOf(ranges, members) && (base == 0 || base == CUTOFF)
    ensures LongCovered(ranges, base, x) <==> InLong(members, base, x)
  {
    hide RangesOf, Triple, IsLong;
    if LongCovered(ranges, base, x) {
      CoveredIsTriple(ranges, members, base, x);
    }
    if InLong(members, base, x) {
      var y := if Triple(members, base, x) then x else if Triple(members, base, x - 1) then x - 1 else x - 2;
      var i := TripleRange(ranges, members, base, y);
      assert ranges[i].Has(base + x);
    }
  }

  lemma CoveredIsTriple(ranges: seq<Range>, members: seq<nat>, base: nat, x: int)
    requires RangesOf(ranges, members) && (base == 0 || base == CUTOFF) && LongCovered(ranges, base, x)
    ensures InLong(members, base, x)
  {
    hide RangesOf, Triple, IsLong;
    var i :| 0 <= i < |ranges| && ranges[i].Has(base + x) && IsLong(ranges[i], base);
    var y := TripleAt(ranges, members, i, base, x);
  }

  /** The last three places up to x, or the first three from it. */
  lemma TripleAt(ranges: seq<Range>, members: seq<nat>, i: nat, base: nat, x: int) returns (y: int)
    requires RangesOf(ranges, members) && (base == 0 || base == CUTOFF)
    requires i < |ranges| && ranges[i].Has(base + x) && IsLong(ranges[i], base)
    ensures x - 2 <= y <= x && Triple(members, base, y)
  {
    y := if base + x + 2 < ranges[i].end then x else ranges[i].end - 3 - base;
    RangesMaximal(ranges, members);
    LongInPlane(ranges, i, base);
    hide RangesOf, Triple, Maximal;
    TripleIn(ranges, members, i, base, y);
  }

  lemma LongInPlane(ranges: seq<Range>, i: nat, base: nat)
    requires Maximal(ranges) && i < |ranges| && IsLong(ranges[i], base) && (base == 0 || base == CUTOFF)
    ensures ranges[i].end <= base + CUTOFF
  {
    assert IsPlane(base + CUTOFF);
  }

  lemma TripleIn(ranges: seq<Range>, members: seq<nat>, i: nat, base: nat, y: int)
    requires RangesOf(ranges, members) && i < |ranges| && IsLong(ranges[i], base) && ranges[i].end <= base + CUTOFF
    requires ranges[i].start <= base + y && base + y + 2 < ranges[i].end
    ensures Triple(members, base, y)
  {
    var r := ranges[i];
    assert r.Has(base + y) && r.Has(base + y + 1) && r.Has(base + y + 2);
    assert Covered(ranges, base + y) && Covered(ranges, base + y + 1) && Covered(ranges, base + y + 2);
  }

  /** A range does not end between members of one plane. */
  lemma SameRange(ranges: seq<Range>, members: seq<nat>, i: nat, x: nat)
    requires RangesOf(ranges, members) && i < |ranges| && ranges[i].Has(x) && x + 1 in members && !IsPlane(x + 1)
    ensures ranges[i].Has(x + 1)
  {
    assert Covered(ranges, x + 1);
    if ranges[i].end == x + 1 {
      NotCovered(ranges, i);
    }
  }

  lemma MemberCovered(ranges: seq<Range>, members: seq<nat>, x: nat)
    requires RangesOf(ranges, members) && x in members
    ensures Covered(ranges, x)
  {
  }

  /** A range does not reach back beyond the start of the plane. */
  lemma StartInPlane(ranges: seq<Range>, i: nat, base: nat, x: nat)
    requires Maximal(ranges) && i < |ranges| && ranges[i].Has(x) && (base == 0 || base == CUTOFF) && base <= x
    ensures base <= ranges[i].start
  {
    assert base > 0 ==> IsPlane(base);
  }

  lemma TripleRange(ranges: seq<Range>, members: seq<nat>, base: nat, y: int) returns (i: nat)
    requires RangesOf(ranges, members) && (base == 0 || base == CUTOFF) && Triple(members, base, y)
    ensures i < |ranges| && ranges[i].Has(base + y) && ranges[i].Has(base + y + 2) && IsLong(ranges[i], base)
  {
    RangesMaximal(ranges, members);
    hide RangesOf, Maximal;
    MemberCovered(ranges, members, base + y);
    var k :| 0 <= k < |ranges| && ranges[k].Has(base + y);
    i := k;
    ThreeInRange(ranges, members, base, y, i);
  }

  lemma ThreeInRange(ranges: seq<Range>, members: seq<nat>, base: nat, y: int, i: nat)
    requires RangesOf(ranges, members) && Maximal(ranges) && (base == 0 || base == CUTOFF)
    requires Triple(members, base, y) && i < |ranges| && ranges[i].Has(base + y)
    ensures ranges[i].Has(base + y + 2) && IsLong(ranges[i], base)
  {
    hide RangesOf, Maximal;
    StartInPlane(ranges, i, base, base + y);
    SameRange(ranges, members, i, base + y);
    SameRange(ranges, members, i, base + y + 1);
  }

  lemma PlaneFits(normal: seq<Run>, ranges: seq<Range>, members: seq<nat>, base: nat)
    requires RangesOf(ranges, members) && (base == 0 || base == CUTOFF) && LongHeld(normal, ranges, base)
    ensures LengthsFit(normal) <==> forall x: nat :: !TooLong(members, base, x)
  {
    forall x
      ensures InRuns(normal, x) <==> InLong(members, base, x)
    {
      LongIsTriple(ranges, members, base, x);
    }
    FitExactly(normal);
    forall x: nat
      ensures Stretched(normal, x) <==> TooLong(members, base, x)
    {
    }
  }

  // ---- The tables -------------------------------------------------------------------------------------

  /** The encoding of a plane's lists. */
  ghost predicate EncodesPlane(t: Table, singletons: seq<nat>, normal: seq<Run>)
  {
    && Encodes(t.pages, t.lowers, singletons)
    && Whole(t.normal) && AllBytes(t.normal) && LengthsOf(Lengths(t.normal), normal)
  }

  method EncodePlane(singletons: seq<nat>, normal: seq<Run>) returns (t: Option<Table>)
    requires ListsOk(singletons, normal)
    ensures t.Some? <==> LengthsFit(normal)
    ensures t.Some? ==> EncodesPlane(t.value, singletons, normal)
  {
    var pages, lowers := CompressSingletons(singletons);
    var bytes := CompressNormal(normal);
    if bytes.None? {
      return None;
    }
    return Some(Table(pages, lowers, bytes.value));
  }

  /** An encoded plane shows what is covered nowhere. */
  lemma PlaneShown(t: Table, singletons: seq<nat>, normal: seq<Run>, ranges: seq<Range>, base: nat, x: nat)
    requires EncodesPlane(t, singletons, normal) && PlaneHolds(singletons, normal, ranges, base) && x < CUTOFF
    ensures ShownIn(t, x) <==> !Covered(ranges, base + x)
  {
    EncodedListed(t.pages, t.lowers, singletons, x);
    EncodedHidden(Lengths(t.normal), normal, x);
  }

  /** Everything in the table is an unsigned char. */
  predicate Representable(t: Table)
  {
    && (forall i :: 0 <= i < |t.pages| ==> t.pages[i].upper < 256 && t.pages[i].count < 256)
    && AllBytes(t.lowers) && AllBytes(t.normal)
  }

  lemma PlaneRepresentable(t: Table, singletons: seq<nat>, normal: seq<Run>)
    requires EncodesPlane(t, singletons, normal) && ListsOk(singletons, normal) && Below(singletons, normal, CUTOFF)
    ensures Representable(t)
  {
    forall i | 0 <= i < |t.pages| ensures t.pages[i].upper < 256 && t.pages[i].count < 256 {
      CountFits(t.pages, t.lowers, singletons, i);
      OffsetMonotone(t.pages, i + 1, |t.pages|);
      assert PageHolds(t.pages, t.lowers, singletons, i) && InPage(t.pages, i, Offset(t.pages, i));
    }
  }

  /** A run of one or two members at the start of plane 2. */
  predicate ShortPlane2(members: seq<nat>)
  {
    0x20000 in members && !(0x20001 in members && 0x20002 in members)
  }

  lemma MisplacedIsShort(ranges: seq<Range>, members: seq<nat>)
    requires RangesOf(ranges, members)
    ensures (exists i :: 0 <= i < |ranges| && Misplaced(ranges[i])) <==> ShortPlane2(members)
  {
    if i :| 0 <= i < |ranges| && Misplaced(ranges[i]) {
      var r := ranges[i];
      assert r.Has(0x20000) && Covered(ranges, 0x20000);
      NotCovered(ranges, i);
    } else if 0x20000 in members {
      assert Covered(ranges, 0x20000);
      var i :| 0 <= i < |ranges| && ranges[i].Has(0x20000);
      assert IsPlane(0x20000);
      assert ranges[i].Has(0x20001) && ranges[i].Has(0x20002);
      assert Covered(ranges, 0x20001) && Covered(ranges, 0x20002);
    }
  }

  /** Nothing covers the end of a range unless a plane begins there. */
  lemma NotCovered(ranges: seq<Range>, i: nat)
    requires Maximal(ranges) && i < |ranges| && !IsPlane(ranges[i].end)
    ensures !Covered(ranges, ranges[i].end)
  {
    forall j | 0 <= j < |ranges| ensures !ranges[j].Has(ranges[i].end) {
      if j < i {
        assert ranges[j].end <= ranges[i].start;
      } else if i < j {
        assert ranges[i].end <= ranges[j].start;
      }
    }
  }

  /** The tables show exactly the code points that are not members. */
  ghost predicate Faithful(t: Tables, members: seq<nat>)
    requires TableOk(t.plane0) && TableOk(t.plane1)
  {
    forall cp: nat :: Shown(t, cp) <==> cp < CODE_POINTS && cp !in members
  }

  lemma TablesShown(t: Tables, c: Classes, ranges: seq<Range>, members: seq<nat>, cp: nat)
    requires RangesOf(ranges, members) && Classified(c, ranges)
    requires EncodesPlane(t.plane0, c.singletons0, c.normal0) && EncodesPlane(t.plane1, c.singletons1, c.normal1)
    requires t.extra == c.extra
    ensures cp < 2 * CUTOFF ==> (Shown(t, cp) <==> cp !in members)
    ensures cp >= 2 * CUTOFF ==> (Shown(t, cp) <==> cp < CODE_POINTS && !WellCovered(ranges, cp))
  {
    hide ListsOk;
    hide EncodesPlane;
    hide PlaneHolds;
    hide Maximal;
    EncodedOk(t.plane0, c.singletons0, c.normal0);
    EncodedOk(t.plane1, c.singletons1, c.normal1);
    assert Covered(ranges, cp) <==> cp in members;
    if cp < CUTOFF {
      PlaneShown(t.plane0, c.singletons0, c.normal0, ranges, 0, cp);
    } else if cp < 2 * CUTOFF {
      PlaneShown(t.plane1, c.singletons1, c.normal1, ranges, CUTOFF, cp - CUTOFF);
    }
  }

  /** A misplaced range is the only one that covers its members. */
  lemma MisplacedUncovered(ranges: seq<Range>, i: nat)
    requires Maximal(ranges) && i < |ranges| && Misplaced(ranges[i])
    ensures !WellCovered(ranges, 0x20000)
  {
    assert forall j :: 0 <= j < |ranges| && ranges[j].Has(0x20000) ==> j == i;
  }

  lemma FaithfulExactly(t: Tables, c: Classes, ranges: seq<Range>, members: seq<nat>)
    requires RangesOf(ranges, members) && Classified(c, ranges)
    requires EncodesPlane(t.plane0, c.singletons0, c.normal0) && EncodesPlane(t.plane1, c.singletons1, c.normal1)
    requires t.extra == c.extra
    ensures Faithful(t, members) <==> !ShortPlane2(members)
  {
    MisplacedIsShort(ranges, members);
    if i :| 0 <= i < |ranges| && Misplaced(ranges[i]) {
      MisplacedUncovered(ranges, i);
      TablesShown(t, c, ranges, members, 0x20000);
      assert Shown(t, 0x20000) && 0x20000 in members;
    } else {
      forall cp: nat ensures Shown(t, cp) <==> cp < CODE_POINTS && cp !in members {
        TablesShown(t, c, ranges, members, cp);
        assert WellCovered(ranges, cp) <==> Covered(ranges, cp);
      }
    }
  }

  /**
   * main: the tables for the given code points, exactly if every gap and run is short enough to
   * encode. Looked up in them, exactly the members are unprintable, except when a run of one or two members starts
   * plane 2; otherwise the tables also fit into arrays of unsigned char.
   */
  method Generate(members: seq<nat>) returns (t: Option<Tables>)
    requires Sorted(members) && forall i :: 0 <= i < |members| ==> members[i] < CODE_POINTS
    ensures t.Some? <==> Encodable(members)
    ensures t.Some? ==> TableOk(t.value.plane0) && TableOk(t.value.plane1)
    ensures t.Some? ==> (Faithful(t.value, members) <==> !ShortPlane2(members))
    ensures t.Some? && !ShortPlane2(members) ==> Representable(t.value.plane0) && Representable(t.value.plane1)
  {
    hide Classified;
    hide EncodesPlane;
    hide Faithful;
    hide RangesOf;
    hide Representable;
    hide ListsOk;
    hide LongHeld;
    hide LengthsFit;
    hide TooLong;
    var ranges := ToRanges(members);
    RangesMaximal(ranges, members);
    var c := Classify(ranges);
    ClassesOk(c, ranges, members);
    PlaneFits(c.normal0, ranges, members, 0);
    PlaneFits(c.normal1, ranges, members, CUTOFF);
    var plane0 := EncodePlane(c.singletons0, c.normal0);
    if plane0.None? {
      return None;
    }
    var plane1 := EncodePlane(c.singletons1, c.normal1);
    if plane1.None? {
      return None;
    }
    var tables := Tables(plane0.value, plane1.value, c.extra);
    EncodedOk(plane0.value, c.singletons0, c.normal0);
    EncodedOk(plane1.value, c.singletons1, c.normal1);
    FaithfulExactly(tables, c, ranges, members);
    PlaneRepresentable(plane1.value, c.singletons1, c.normal1);
    if !ShortPlane2(members) {
      PlaneRepresentable(plane0.value, c.singletons0, c.normal0);
    }
    return Some(tables);
  }

  lemma RangesMaximal(ranges: seq<Range>, members: seq<nat>)
    requires RangesOf(ranges, members)
    ensures Maximal(ranges)
  {
  }

  lemma EncodedOk(t: Table, singletons: seq<nat>, normal: seq<Run>)
    requires EncodesPlane(t, singletons, normal)
    ensures TableOk(t)
  {
  }

  lemma ClassesOk(c: Classes, ranges: seq<Range>, members: seq<nat>)
    requires RangesOf(ranges, members) && Classified(c, ranges)
    ensures ListsOk(c.singletons0, c.normal0) && ListsOk(c.singletons1, c.normal1)
    ensures Below(c.singletons1, c.normal1, CUTOFF)
    ensures !ShortPlane2(members) ==> Below(c.singletons0, c.normal0, CUTOFF)
  {
    MisplacedIsShort(ranges, members);
  }

  /** A single member at the start of plane 2: the tables can be written, but do not hide it. */
  lemma Plane2Example(t: Tables, c: Classes, ranges: seq<Range>)
    requires RangesOf(ranges, [0x20000]) && Classified(c, ranges) && t.extra == c.extra
    requires EncodesPlane(t.plane0, c.singletons0, c.normal0) && EncodesPlane(t.plane1, c.singletons1, c.normal1)
    ensures Encodable([0x20000]) && ShortPlane2([0x20000])
    ensures TableOk(t.plane0) && TableOk(t.plane1) && Shown(t, 0x20000)
  {
    hide RangesOf, Classified, EncodesPlane, TableOk, Shown, Encodable, Covered, Maximal;
    LoneMember();
    MisplacedIsShort(ranges, [0x20000]);
    var i :| 0 <= i < |ranges| && Misplaced(ranges[i]);
    RangesMaximal(ranges, [0x20000]);
    MisplacedUncovered(ranges, i);
    EncodedOk(t.plane0, c.singletons0, c.normal0);
    EncodedOk(t.plane1, c.singletons1, c.normal1);
    TablesShown(t, c, ranges, [0x20000], 0x20000);
  }

  lemma LoneMember()
    ensures Encodable([0x20000]) && ShortPlane2([0x20000])
  {
    var members: seq<nat> := [0x20000];
    assert 0x20000 in members && 0x20001 !in members;
    forall x: nat
      ensures !TooLong(members, 0, x) && !TooLong(members, CUTOFF, x)
    {
      assert !InLong(members, 0, x) && !InLong(members, CUTOFF, x);
    }
  }
}
