/** Skipping specifiers by counting brackets, and exactly when that ends where parsing them does. */
module FormatSkip {
  import opened Common
  import opened FormatSpec

  /** Past the specifiers of an argument of unknown type, nested braces included. */
  function SkipSpecs(s: Text, p: nat, depth: int): (q: nat)
    requires p <= |s|
    ensures p <= q <= |s|
    decreases |s| - p
  {
    if p == |s| || (depth <= 0 && s[p] == '}') then p
    else SkipSpecs(s, p + 1, if s[p] == '{' then depth + 1 else if s[p] == '}' then depth - 1 else depth)
  }

  predicate IsBrace(c: Unit)
  {
    c == '{' || c == '}'
  }

  /** The braces from i to end close at this depth: each one opened, and no other. */
  predicate Closed(s: Text, i: nat, end: nat, depth: nat)
    requires i <= end <= |s|
    decreases end - i
  {
    if i == end then depth == 0
    else if s[i] == '{' then Closed(s, i + 1, end, depth + 1)
    else if s[i] == '}' then depth > 0 && Closed(s, i + 1, end, depth - 1)
    else Closed(s, i + 1, end, depth)
  }

  /** The braces in the rest of the code point at p, which can only be a fill, close; in UTF-8 there are none. */
  predicate FillClosed(s: Text, p: nat)
  {
    p < |s| && p + CodePointLength(s[p]) <= |s| ==> Closed(s, p + 1, p + CodePointLength(s[p]), 0)
  }

  // ---- Skipping text ----------------------------------------------------------------------------------

  lemma {:induction false} SkipText(s: Text, p: nat, q: nat, depth: int)
    requires p <= q <= |s| && forall i :: p <= i < q ==> !IsBrace(s[i])
    ensures SkipSpecs(s, p, depth) == SkipSpecs(s, q, depth)
    decreases q - p
  {
    if p < q {
      SkipText(s, p + 1, q, depth);
    }
  }

  /** Skipping from i ends before end, or comes to end at some depth. */
  lemma {:induction false} SkipTo(s: Text, i: nat, end: nat, depth: nat) returns (d: nat)
    requires i <= end <= |s|
    ensures Closed(s, i, end, depth) ==> d == 0 && SkipSpecs(s, i, depth) == SkipSpecs(s, end, 0)
    ensures !Closed(s, i, end, depth) ==>
      SkipSpecs(s, i, depth) < end || (d > 0 && SkipSpecs(s, i, depth) == SkipSpecs(s, end, d))
    decreases end - i
  {
    d := depth;
    if i < end {
      if s[i] == '{' {
        d := SkipTo(s, i + 1, end, depth + 1);
      } else if s[i] != '}' {
        d := SkipTo(s, i + 1, end, depth);
      } else if depth > 0 {
        d := SkipTo(s, i + 1, end, depth - 1);
      }
    }
  }

  // ---- Skipping what the parser reads -------------------------------------------------------------------

  lemma RefText(s: Text, p: nat, ctx: Context)
    requires p < |s|
    ensures var y := ParseDynamicRef(s, p, ctx);
      y.Ok? ==> forall i :: p <= i < y.value.2 ==> !IsBrace(s[i])
  {
    if IsDigit(s[p]) {
      assert forall i :: p <= i < DigitsEnd(s, p) ==> IsDigit(s[i]);
    } else {
      assert forall i :: p + 1 <= i < NameEnd(s, p + 1) ==> IsNameStart(s[i]) || IsDigit(s[i]);
    }
  }

  lemma AmountSkipped(s: Text, p: nat, ctx: Context, depth: nat)
    requires p < |s|
    ensures var y := ParseDynamicSpec(s, p, ctx);
      y.Ok? ==> SkipSpecs(s, p, depth) == SkipSpecs(s, y.value.end, depth)
  {
    if IsDigit(s[p]) {
      SkipText(s, p, DigitsEnd(s, p), depth);
    } else if s[p] == '{' && p + 1 < |s| {
      RefText(s, p + 1, ctx);
      var y := ParseDynamicRef(s, p + 1, ctx);
      if y.Ok? {
        SkipText(s, p + 1, y.value.2, depth + 1);
      }
    }
  }

  /** A round that takes no fill. */
  lemma StepSkipped(s: Text, p: Parse, ch: Unit, t: ArgType, depth: nat)
    requires p.pos < |s| && (ch == s[p.pos] || ch == '\0')
    requires p.state.Rank() > 0 || CodePointLength(s[p.pos]) == 1
    ensures var x := ParseStep(s, p, ch, t);
      x.Ok? ==> SkipSpecs(s, p.pos, depth) == SkipSpecs(s, StepParse(x.value).pos, depth)
  {
    if '1' <= ch <= '9' || ch == '{' {
      WidthSkipped(s, p, depth);
    } else if ch == '.' {
      PrecisionSkipped(s, p, t, depth);
    } else {
      PlainSkipped(s, p, ch, t, depth);
    }
  }

  lemma WidthSkipped(s: Text, p: Parse, depth: nat)
    requires p.pos < |s|
    ensures var x := WidthStep(s, p);
      x.Ok? ==> SkipSpecs(s, p.pos, depth) == SkipSpecs(s, x.value.next.pos, depth)
  {
    AmountSkipped(s, p.pos, p.ctx, depth);
    hide ParseDynamicSpec, SkipSpecs;
  }

  lemma PrecisionSkipped(s: Text, p: Parse, t: ArgType, depth: nat)
    requires p.pos < |s| && s[p.pos] == '.'
    ensures var x := PrecisionStep(s, p, t);
      x.Ok? ==> SkipSpecs(s, p.pos, depth) == SkipSpecs(s, x.value.next.pos, depth)
  {
    SkipText(s, p.pos, p.pos + 1, depth);
    if p.pos + 1 < |s| {
      AmountSkipped(s, p.pos + 1, p.ctx, depth);
    }
    hide ParseDynamicSpec, SkipSpecs;
  }

  lemma PlainSkipped(s: Text, p: Parse, ch: Unit, t: ArgType, depth: nat)
    requires p.pos < |s| && (ch == s[p.pos] || ch == '\0')
    requires !('1' <= ch <= '9') && ch != '{' && ch != '.'
    requires p.state.Rank() > 0 || CodePointLength(s[p.pos]) == 1
    ensures var x := ParseStep(s, p, ch, t);
      x.Ok? ==> SkipSpecs(s, p.pos, depth) == SkipSpecs(s, StepParse(x.value).pos, depth)
  {
    FillMoves(s, p);
    if !IsBrace(s[p.pos]) {
      SkipText(s, p.pos, p.pos + 1, depth);
      if p.pos + 1 < |s| && !IsBrace(s[p.pos + 1]) {
        SkipText(s, p.pos, p.pos + 2, depth);
      }
    }
    PlainMoves(s, p, ch, t);
    hide ParseStep, SkipSpecs, ParseFill, CodePointLength;
  }

  lemma BraceIsNoLetter(t: ArgType)
    ensures PresentationOf('}', t) == None && PresentationOf('\0', t) == None
  {
  }

  /** A round on another character goes one on, stays at a brace, or takes a fill. */
  lemma PlainMoves(s: Text, p: Parse, ch: Unit, t: ArgType)
    requires p.pos < |s| && !('1' <= ch <= '9') && ch != '{' && ch != '.'
    ensures var x := ParseStep(s, p, ch, t);
      x.Ok? ==>
        || (StepParse(x.value).pos == p.pos + 1 && ch != '}' && ch != '\0')
        || StepParse(x.value).pos == p.pos
        || x == ParseFill(s, p)
  {
    BraceIsNoLetter(t);
    hide PresentationOf, ParseFill, ParseAlign, IsUpper;
  }

  /** A fill is taken at the start only, and ends with an alignment. */
  lemma FillMoves(s: Text, p: Parse)
    requires p.pos < |s|
    ensures var x, end := ParseFill(s, p), p.pos + CodePointLength(s[p.pos]);
      x.Ok? ==>
        || StepParse(x.value).pos == p.pos
        || (p.state.Rank() == 0 && !IsBrace(s[p.pos]) && end < |s| && !IsBrace(s[end])
            && x.value.More? && x.value.next.pos == end + 1)
  {
    hide CodePointLength;
  }

  /** A round that goes on has left the start. */
  lemma StartLeft(s: Text, p: Parse, ch: Unit, t: ArgType)
    requires p.pos < |s|
    ensures var x := ParseStep(s, p, ch, t);
      x.Ok? && x.value.More? ==> x.value.next.state.Rank() > 0
  {
    hide PresentationOf, ParseDynamicSpec, IsUpper, ParseAlign;
  }

  lemma {:induction false} RestSkipped(s: Text, p: Parse, t: ArgType, depth: nat)
    requires p.pos <= |s| && p.state.Rank() > 0
    ensures var x := ParseRest(s, p, t);
      x.Ok? ==> SkipSpecs(s, p.pos, depth) == SkipSpecs(s, x.value.pos, depth)
    decreases |s| - p.pos
  {
    if p.pos < |s| {
      StepSkipped(s, p, s[p.pos], t, depth);
      StartLeft(s, p, s[p.pos], t);
      var x := ParseStep(s, p, s[p.pos], t);
      hide ParseStep, SkipSpecs;
      if x.Ok? && x.value.More? {
        RestSkipped(s, x.value.next, t, depth);
      }
    }
  }

  /** The first round on a longer code point takes it as the fill. */
  lemma FillTaken(s: Text, p: nat, ctx: Context, t: ArgType)
    requires p < |s| && CodePointLength(s[p]) > 1
    ensures var x, end := ParseStep(s, InitialParse(p, ctx), FirstChar(s, p), t), p + CodePointLength(s[p]);
      x.Ok? ==> x.value.More? && end < |s| && !IsBrace(s[end]) && x.value.next.pos == end + 1
  {
    var a, ch := InitialParse(p, ctx), FirstChar(s, p);
    FillMoves(s, a);
    LeadIsNoLetter(s[p], t);
    hide PresentationOf;
    assert ParseStep(s, a, ch, t) == ParseFill(s, a);
  }

  lemma LeadIsNoLetter(c: Unit, t: ArgType)
    requires CodePointLength(c) > 1
    ensures c as int >= 0xC0 && PresentationOf(c, t) == None && PresentationOf('\0', t) == None
  {
  }

  // ---- Where skipping ends ------------------------------------------------------------------------------

  /** Behind a longer fill: from its second unit on. */
  lemma FillSkipped(s: Text, p: nat, next: Parse, last: Parse, t: ArgType)
    requires p < |s| && CodePointLength(s[p]) > 1 && next.state.Rank() > 0
    requires next.pos == p + CodePointLength(s[p]) + 1 <= |s| && !IsBrace(s[next.pos - 1])
    requires ParseRest(s, next, t) == Ok(last) && last.pos < |s| && s[last.pos] == '}'
    ensures SkipSpecs(s, p, 0) == last.pos <==> FillClosed(s, p)
  {
    hide SkipSpecs, ParseRest, CodePointLength, Closed;
    var end := next.pos - 1;
    var d := SkipTo(s, p + 1, end, 0);
    LeadIsNoBrace(s[p]);
    SkipText(s, p, p + 1, 0);
    SkipText(s, end, end + 1, d);
    RestSkipped(s, next, t, d);
    AtBrace(s, last.pos, d);
  }

  lemma LeadIsNoBrace(c: Unit)
    requires CodePointLength(c) > 1
    ensures !IsBrace(c)
  {
  }

  lemma AtBrace(s: Text, p: nat, depth: nat)
    requires p < |s| && s[p] == '}'
    ensures if depth == 0 then SkipSpecs(s, p, depth) == p else SkipSpecs(s, p, depth) > p
  {
  }

  /** Counting brackets ends where parsing the specifiers does exactly if the braces in the fill close. */
  lemma SkipEnds(s: Text, p: nat, ctx: Context, t: ArgType)
    requires p <= |s|
    ensures var x := ParseSpecs(s, p, ctx, t);
      x.Ok? && x.value.pos < |s| && s[x.value.pos] == '}' ==> (SkipSpecs(s, p, 0) == x.value.pos <==> FillClosed(s, p))
  {
    hide ParseStep, ParseRest, SkipSpecs, FillClosed, CodePointLength, FirstChar;
    if p < |s| {
      var a, ch := InitialParse(p, ctx), FirstChar(s, p);
      FirstIs(s, p);
      var step, x := ParseStep(s, a, ch, t), ParseSpecs(s, p, ctx, t);
      StartLeft(s, a, ch, t);
      if CodePointLength(s[p]) == 1 {
        StepSkipped(s, a, ch, t, 0);
      } else {
        FillTaken(s, p, ctx, t);
      }
      if x.Ok? && x.value.pos < |s| && s[x.value.pos] == '}' {
        if CodePointLength(s[p]) > 1 {
          FillSkipped(s, p, step.value.next, x.value, t);
        } else {
          if step.value.More? {
            RestSkipped(s, step.value.next, t, 0);
          }
          AtBrace(s, x.value.pos, 0);
          ShortFill(s, p);
        }
      }
    }
  }

  /** Without braces among its further units, as in UTF-8, every fill is closed. */
  lemma PlainFill(s: Text, p: nat)
    requires p < |s| && forall i :: p < i < |s| && i < p + CodePointLength(s[p]) ==> !IsBrace(s[i])
    ensures FillClosed(s, p)
  {
    if p + CodePointLength(s[p]) <= |s| {
      PlainClosed(s, p + 1, p + CodePointLength(s[p]));
    }
  }

  lemma {:induction false} PlainClosed(s: Text, i: nat, end: nat)
    requires i <= end <= |s| && forall k :: i <= k < end ==> !IsBrace(s[k])
    ensures Closed(s, i, end, 0)
    decreases end - i
  {
    if i < end {
      PlainClosed(s, i + 1, end);
    }
  }

  lemma FirstIs(s: Text, p: nat)
    requires p < |s|
    ensures FirstChar(s, p) == s[p] || FirstChar(s, p) == '\0'
  {
  }

  lemma ShortFill(s: Text, p: nat)
    requires p < |s| && CodePointLength(s[p]) == 1
    ensures FillClosed(s, p)
  {
  }
}
