/** The references a format string makes, read off its text, and what they do to the numbering. */
module FormatFields {
  import opened Common
  import opened FormatSpec
  import opened FormatSkip
  import opened FormatRun

  /** How a reference to an argument is written. */
  datatype Use = Automatic | ByIndex | ByName

  /** The automatic numbering after a reference: -1 once it is manual. */
  function Count(next: int, use: Use): Option<int>
  {
    match use
    case Automatic => if next < 0 then None else Some(next + 1)
    case ByIndex => if next > 0 then None else Some(-1)
    case ByName => Some(-1)
  }

  function Counts(next: int, uses: seq<Use>): Option<int>
    decreases |uses|
  {
    if uses == [] then Some(next)
    else
      var c := Count(next, uses[0]);
      if c.None? then None else Counts(c.value, uses[1..])
  }

  lemma {:induction false} CountsConcat(next: int, a: seq<Use>, b: seq<Use>)
    ensures Counts(next, a + b) == var c := Counts(next, a); if c.None? then None else Counts(c.value, b)
    decreases |a|
  {
    if a == [] {
      assert a + b == b;
    } else {
      assert (a + b)[1..] == a[1..] + b;
      var c := Count(next, a[0]);
      if c.Some? {
        CountsConcat(c.value, a[1..], b);
      }
    }
  }

  lemma CountsOne(next: int, use: Use)
    ensures Counts(next, [use]) == Count(next, use)
  {
    assert [use][1..] == [];
  }

  // ---- Sizes ------------------------------------------------------------------------------------------

  /** The reference whose first character is at p. */
  function RefKind(s: Text, p: nat): Use
  {
    if p >= |s| || s[p] == '}' || s[p] == ':' then Automatic else if IsDigit(s[p]) then ByIndex else ByName
  }

  /** The reference in braces at p, if there is one. */
  function SizeUses(s: Text, p: nat): seq<Use>
  {
    if p < |s| && s[p] == '{' then [RefKind(s, p + 1)] else []
  }

  /** The references read in one round of the specifier parser. */
  function StepUses(s: Text, p: nat, ch: Unit): seq<Use>
  {
    if '1' <= ch <= '9' || ch == '{' then SizeUses(s, p) else if ch == '.' then SizeUses(s, p + 1) else []
  }

  /** A parse without its numbering and references. */
  function Neutral(p: Parse): Parse
  {
    p.(ctx := RuntimeContext(0), specs := p.specs.(widthRef := NoRef, precisionRef := NoRef))
  }

  /** The specifiers as far as they do not depend on the numbering, with the references among them. */
  function FreeRest(s: Text, p: Parse, t: ArgType): (r: Option<(Parse, seq<Use>)>)
    requires p.pos <= |s|
    ensures r.Some? ==> p.pos <= r.value.0.pos <= |s|
    decreases |s| - p.pos
  {
    if p.pos == |s| then Some((Neutral(p), []))
    else FreeStep(s, ParseStep(s, Neutral(p), s[p.pos], t), StepUses(s, p.pos, s[p.pos]), p.pos, t)
  }

  function FreeStep(s: Text, step: Result<Step>, uses: seq<Use>, at: nat, t: ArgType): (r: Option<(Parse, seq<Use>)>)
    requires at <= |s| && (step.Ok? ==> at <= StepParse(step.value).pos <= |s|)
    requires step.Ok? && step.value.More? ==> at < step.value.next.pos
    ensures r.Some? ==> at <= r.value.0.pos <= |s|
    decreases |s| - at, 0
  {
    match step
    case Err(_) => None
    case Ok(Done(last)) => Some((Neutral(last), uses))
    case Ok(More(next)) =>
      var rest := FreeRest(s, next, t);
      if rest.None? then None else Some((rest.value.0, uses + rest.value.1))
  }

  function FreeSpecs(s: Text, p: nat, t: ArgType): (r: Option<(Parse, seq<Use>)>)
    requires p <= |s|
    ensures r.Some? ==> p <= r.value.0.pos <= |s|
  {
    var start := Neutral(InitialParse(p, RuntimeContext(0)));
    if p == |s| then Some((start, []))
    else FreeStep(s, ParseStep(s, start, FirstChar(s, p), t), StepUses(s, p, FirstChar(s, p)), p, t)
  }

  lemma RefFree(s: Text, p: nat, ctx: Context)
    requires p < |s|
    ensures var y, f := ParseDynamicRef(s, p, ctx), ParseDynamicRef(s, p, RuntimeContext(0));
      var n := Count(ctx.next, RefKind(s, p));
      && (y.Ok? ==> f.Ok? && f.value.2 == y.value.2 && n == Some(y.value.1.next))
      && (!ctx.checks && f.Ok? && n.Some? ==> y.Ok?)
  {
  }

  lemma AmountFree(s: Text, p: nat, ctx: Context)
    requires p < |s|
    ensures var y, f := ParseDynamicSpec(s, p, ctx), ParseDynamicSpec(s, p, RuntimeContext(0));
      var n := Counts(ctx.next, SizeUses(s, p));
      && (y.Ok? ==>
            && f.Ok? && f.value.number == y.value.number && f.value.end == y.value.end
            && n == Some(y.value.ctx.next))
      && (!ctx.checks && f.Ok? && n.Some? ==> y.Ok?)
  {
    if s[p] == '{' && p + 1 < |s| {
      RefFree(s, p + 1, ctx);
      CountsOne(ctx.next, RefKind(s, p + 1));
    }
  }

  predicate SameStep(x: Step, y: Step)
  {
    x.More? == y.More? && Neutral(StepParse(x)) == Neutral(StepParse(y))
  }

  /** One round from any numbering: it can only fail where the text alone would, or where the numbering forbids it. */
  predicate FreeAgrees(y: Result<Step>, f: Result<Step>, ctx: Context, uses: seq<Use>)
  {
    var n := Counts(ctx.next, uses);
    && (y.Ok? ==> f.Ok? && SameStep(y.value, f.value) && n == Some(StepParse(y.value).ctx.next))
    && (!ctx.checks && f.Ok? && n.Some? ==> y.Ok?)
  }

  lemma StepFree(s: Text, p: Parse, ch: Unit, t: ArgType)
    requires p.pos < |s|
    ensures FreeAgrees(ParseStep(s, p, ch, t), ParseStep(s, Neutral(p), ch, t), p.ctx, StepUses(s, p.pos, ch))
  {
    hide WidthStep, PrecisionStep, FreeAgrees, SizeUses, PresentationOf, ParseFill, Neutral;
    if '1' <= ch <= '9' || ch == '{' {
      WidthFree(s, p);
    } else if ch == '.' {
      PrecisionFree(s, p, t);
    } else {
      PlainFree(s, p, ch, t);
    }
  }

  lemma WidthFree(s: Text, p: Parse)
    requires p.pos < |s|
    ensures FreeAgrees(WidthStep(s, p), WidthStep(s, Neutral(p)), p.ctx, SizeUses(s, p.pos))
  {
    hide ParseDynamicSpec, SizeUses;
    AmountFree(s, p.pos, p.ctx);
  }

  lemma PrecisionFree(s: Text, p: Parse, t: ArgType)
    requires p.pos < |s|
    ensures FreeAgrees(PrecisionStep(s, p, t), PrecisionStep(s, Neutral(p), t), p.ctx, SizeUses(s, p.pos + 1))
  {
    hide ParseDynamicSpec, SizeUses;
    if p.pos + 1 < |s| {
      AmountFree(s, p.pos + 1, p.ctx);
    }
  }

  lemma PlainFree(s: Text, p: Parse, ch: Unit, t: ArgType)
    requires p.pos < |s| && !('1' <= ch <= '9') && ch != '{' && ch != '.'
    ensures FreeAgrees(ParseStep(s, p, ch, t), ParseStep(s, Neutral(p), ch, t), p.ctx, [])
  {
    var q := NoRefs(p);
    RefsUnused(s, p, ch, t);
    ContextUnused(s, p, p, ch, t);
    ContextUnused(s, q, Neutral(p), ch, t);
    hide ParseStep;
  }

  function NoRefs(p: Parse): Parse
  {
    p.(specs := p.specs.(widthRef := NoRef, precisionRef := NoRef))
  }

  function StepNoRefs(x: Result<Step>): Result<Step>
  {
    match x
    case Err(e) => Err(e)
    case Ok(Done(last)) => Ok(Done(NoRefs(last)))
    case Ok(More(next)) => Ok(More(NoRefs(next)))
  }

  /** Other characters are handled without a look at the references either. */
  lemma RefsUnused(s: Text, p: Parse, ch: Unit, t: ArgType)
    requires p.pos < |s| && !('1' <= ch <= '9') && ch != '{' && ch != '.'
    ensures ParseStep(s, NoRefs(p), ch, t) == StepNoRefs(ParseStep(s, p, ch, t))
  {
    if IsFlag(ch) {
      FlagNoRefs(s, p, ch, t);
    } else {
      LetterNoRefs(s, p, ch, t);
    }
    hide ParseStep;
  }

  lemma FlagNoRefs(s: Text, p: Parse, ch: Unit, t: ArgType)
    requires p.pos < |s| && IsFlag(ch)
    ensures ParseStep(s, NoRefs(p), ch, t) == StepNoRefs(ParseStep(s, p, ch, t))
  {
    hide PresentationOf, IsUpper, ParseAlign, ParseFill, WidthStep, PrecisionStep, Enter;
    forall state: State, valid: bool
      ensures Enter(NoRefs(p), state, valid)
           == var q := Enter(p, state, valid); if q.Err? then Err(q.error) else Ok(NoRefs(q.value))
    {
      EnterNoRefs(p, state, valid);
    }
  }

  lemma EnterNoRefs(p: Parse, state: State, valid: bool)
    ensures Enter(NoRefs(p), state, valid)
         == var q := Enter(p, state, valid); if q.Err? then Err(q.error) else Ok(NoRefs(q.value))
  {
  }

  lemma LetterNoRefs(s: Text, p: Parse, ch: Unit, t: ArgType)
    requires p.pos < |s| && !('1' <= ch <= '9') && ch != '{' && ch != '.' && !IsFlag(ch)
    ensures ParseStep(s, NoRefs(p), ch, t) == StepNoRefs(ParseStep(s, p, ch, t))
  {
    FillNoRefs(s, p);
    hide PresentationOf, IsUpper, ParseFill, WidthStep, PrecisionStep, Enter;
  }

  lemma FillNoRefs(s: Text, p: Parse)
    requires p.pos < |s|
    ensures ParseFill(s, NoRefs(p)) == StepNoRefs(ParseFill(s, p))
  {
    hide ParseAlign, CodePointLength;
  }

  /** What whole specifiers do to the numbering. */
  predicate FreeParses(y: Result<Parse>, f: Option<(Parse, seq<Use>)>, ctx: Context)
  {
    && (y.Ok? ==> f.Some? && Neutral(y.value) == f.value.0 && Counts(ctx.next, f.value.1) == Some(y.value.ctx.next))
    && (!ctx.checks && f.Some? && Counts(ctx.next, f.value.1).Some? ==> y.Ok?)
  }

  lemma {:induction false} ResumeFree(s: Text, y: Result<Step>, f: Result<Step>, at: nat, ctx: Context,
                                      uses: seq<Use>, t: ArgType)
    requires at <= |s|
    requires (y.Ok? ==> at <= StepParse(y.value).pos <= |s|) && (f.Ok? ==> at <= StepParse(f.value).pos <= |s|)
    requires (y.Ok? && y.value.More? ==> at < y.value.next.pos) && (f.Ok? && f.value.More? ==> at < f.value.next.pos)
    requires FreeAgrees(y, f, ctx, uses) && (y.Ok? ==> Kept(ctx, StepParse(y.value).ctx))
    ensures FreeParses(Resume(s, y, t), FreeStep(s, f, uses, at, t), ctx)
    decreases |s| - at, 0
  {
    if f.Ok? && f.value.More? {
      var rest := FreeRest(s, f.value.next, t);
      if rest.Some? {
        CountsConcat(ctx.next, uses, rest.value.1);
      }
      if y.Ok? {
        RestFree(s, y.value.next, t);
        NeutralRest(s, y.value.next, f.value.next, t);
      }
    }
  }

  lemma NeutralRest(s: Text, a: Parse, b: Parse, t: ArgType)
    requires a.pos <= |s| && Neutral(a) == Neutral(b)
    ensures a.pos == b.pos && FreeRest(s, a, t) == FreeRest(s, b, t)
  {
    assert a.pos == Neutral(a).pos == b.pos;
  }

  lemma {:induction false} RestFree(s: Text, p: Parse, t: ArgType)
    requires p.pos <= |s|
    ensures FreeParses(ParseRest(s, p, t), FreeRest(s, p, t), p.ctx)
    decreases |s| - p.pos, 1
  {
    if p.pos < |s| {
      var ch := s[p.pos];
      StepFree(s, p, ch, t);
      var y, f := ParseStep(s, p, ch, t), ParseStep(s, Neutral(p), ch, t);
      assert ParseRest(s, p, t) == Resume(s, y, t);
      hide ParseStep;
      ResumeFree(s, y, f, p.pos, p.ctx, StepUses(s, p.pos, ch), t);
    }
  }

  /**
   * Specifiers parse from a given numbering at run time exactly if their text does on its own and
   * their references suit the numbering; a checking context may reject more.
   */
  lemma SpecsFree(s: Text, p: nat, ctx: Context, t: ArgType)
    requires p <= |s|
    ensures FreeParses(ParseSpecs(s, p, ctx, t), FreeSpecs(s, p, t), ctx)
  {
    if p < |s| {
      var a, ch := InitialParse(p, ctx), FirstChar(s, p);
      StepFree(s, a, ch, t);
      var y, f := ParseStep(s, a, ch, t), ParseStep(s, Neutral(a), ch, t);
      hide ParseStep;
      ResumeFree(s, y, f, p, ctx, StepUses(s, p, ch), t);
    }
  }

  // ---- The same specifiers from another numbering -------------------------------------------------------

  /** Contexts and parses that differ only in the numbering. */
  predicate Twins(a: Parse, b: Parse)
  {
    a == b.(ctx := b.ctx.(next := a.ctx.next))
  }

  predicate StepTwins(x: Result<Step>, y: Result<Step>)
  {
    && x.Ok? && y.Ok? && x.value.More? == y.value.More?
    && Twins(StepParse(x.value), StepParse(y.value))
  }

  lemma AmountTwin(s: Text, p: nat, a: Context, b: Context)
    requires p < |s| && a == b.(next := a.next)
    requires Automatic !in SizeUses(s, p) && Counts(a.next, SizeUses(s, p)).Some? && ParseDynamicSpec(s, p, b).Ok?
    ensures var x, y := ParseDynamicSpec(s, p, a), ParseDynamicSpec(s, p, b);
      x.Ok? && x.value.(ctx := b) == y.value.(ctx := b) && x.value.ctx == y.value.ctx.(next := x.value.ctx.next)
  {
    if s[p] == '{' {
      assert SizeUses(s, p)[0] == RefKind(s, p + 1);
      CountsOne(a.next, RefKind(s, p + 1));
    }
  }

  lemma StepTwin(s: Text, a: Parse, b: Parse, ch: Unit, t: ArgType)
    requires a.pos < |s| && Twins(a, b) && ParseStep(s, b, ch, t).Ok?
    requires Automatic !in StepUses(s, a.pos, ch) && Counts(a.ctx.next, StepUses(s, a.pos, ch)).Some?
    ensures StepTwins(ParseStep(s, a, ch, t), ParseStep(s, b, ch, t))
  {
    hide ParseStep;
    SizeStep(s, a, ch, t);
    SizeStep(s, b, ch, t);
    if '1' <= ch <= '9' || ch == '{' {
      WidthTwin(s, a, b);
    } else if ch == '.' {
      PrecisionTwin(s, a, b, t);
    } else {
      PlainTwin(s, a, b, ch, t);
    }
  }

  lemma PlainTwin(s: Text, a: Parse, b: Parse, ch: Unit, t: ArgType)
    requires a.pos < |s| && Twins(a, b) && ParseStep(s, b, ch, t).Ok?
    requires !('1' <= ch <= '9') && ch != '{' && ch != '.'
    ensures StepTwins(ParseStep(s, a, ch, t), ParseStep(s, b, ch, t))
  {
    hide ParseStep;
    ContextUnused(s, b, a, ch, t);
  }

  lemma WidthTwin(s: Text, a: Parse, b: Parse)
    requires a.pos < |s| && Twins(a, b) && WidthStep(s, b).Ok?
    requires Automatic !in SizeUses(s, a.pos) && Counts(a.ctx.next, SizeUses(s, a.pos)).Some?
    ensures StepTwins(WidthStep(s, a), WidthStep(s, b))
  {
    hide ParseDynamicSpec, SizeUses, Counts;
    AmountTwin(s, a.pos, a.ctx, b.ctx);
  }

  lemma PrecisionTwin(s: Text, a: Parse, b: Parse, t: ArgType)
    requires a.pos < |s| && Twins(a, b) && PrecisionStep(s, b, t).Ok?
    requires Automatic !in SizeUses(s, a.pos + 1) && Counts(a.ctx.next, SizeUses(s, a.pos + 1)).Some?
    ensures StepTwins(PrecisionStep(s, a, t), PrecisionStep(s, b, t))
  {
    hide ParseDynamicSpec, SizeUses, Counts;
    if a.pos + 1 < |s| {
      AmountTwin(s, a.pos + 1, a.ctx, b.ctx);
    }
  }

  predicate ParseTwins(x: Result<Parse>, y: Result<Parse>)
  {
    x.Ok? && y.Ok? && Twins(x.value, y.value)
  }

  lemma {:induction false} RestTwin(s: Text, a: Parse, b: Parse, t: ArgType)
    requires a.pos <= |s| && Twins(a, b) && ParseRest(s, b, t).Ok?
    requires var f := FreeRest(s, b, t);
      f.Some? && Automatic !in f.value.1 && Counts(a.ctx.next, f.value.1).Some?
    ensures ParseTwins(ParseRest(s, a, t), ParseRest(s, b, t))
    decreases |s| - a.pos
  {
    if a.pos < |s| {
      var ch := s[a.pos];
      StepFree(s, b, ch, t);
      var y := ParseStep(s, b, ch, t);
      FirstTwin(s, a, b, ch, t);
      hide ParseStep;
      if y.value.More? {
        RestTwin(s, ParseStep(s, a, ch, t).value.next, y.value.next, t);
      }
    }
  }

  /** One round, and what the references left allow. */
  lemma FirstTwin(s: Text, a: Parse, b: Parse, ch: Unit, t: ArgType)
    requires a.pos < |s| && Twins(a, b) && ParseStep(s, b, ch, t).Ok?
    requires var f := FreeStep(s, ParseStep(s, Neutral(b), ch, t), StepUses(s, b.pos, ch), b.pos, t);
      f.Some? && Automatic !in f.value.1 && Counts(a.ctx.next, f.value.1).Some?
    ensures var x, y := ParseStep(s, a, ch, t), ParseStep(s, b, ch, t);
      && StepTwins(x, y)
      && (y.value.More? ==>
            var rest := FreeRest(s, y.value.next, t);
            rest.Some? && Automatic !in rest.value.1 && Counts(x.value.next.ctx.next, rest.value.1).Some?)
  {
    StepFree(s, b, ch, t);
    StepFree(s, a, ch, t);
    var y, f := ParseStep(s, b, ch, t), ParseStep(s, Neutral(b), ch, t);
    assert Neutral(a) == Neutral(b);
    if f.value.More? {
      var rest := FreeRest(s, f.value.next, t).value.1;
      CountsConcat(a.ctx.next, StepUses(s, b.pos, ch), rest);
      assert forall u :: u in StepUses(s, b.pos, ch) || u in rest ==> u in StepUses(s, b.pos, ch) + rest;
      NeutralRest(s, y.value.next, f.value.next, t);
    }
    StepTwin(s, a, b, ch, t);
  }

  /** Without automatic references the numbering matters only for whether it may turn manual. */
  lemma SpecsTwin(s: Text, p: nat, a: Context, b: Context, t: ArgType)
    requires p <= |s| && a == b.(next := a.next) && ParseSpecs(s, p, b, t).Ok?
    requires var f := FreeSpecs(s, p, t);
      f.Some? && Automatic !in f.value.1 && Counts(a.next, f.value.1).Some?
    ensures ParseTwins(ParseSpecs(s, p, a, t), ParseSpecs(s, p, b, t))
  {
    if p < |s| {
      var x, y, ch := InitialParse(p, a), InitialParse(p, b), FirstChar(s, p);
      FirstTwin(s, x, y, ch, t);
      var step := ParseStep(s, y, ch, t);
      hide ParseStep;
      if step.value.More? {
        RestTwin(s, ParseStep(s, x, ch, t).value.next, step.value.next, t);
      }
    }
  }

  /** The same for specifiers checked ahead of formatting. */
  lemma NativeTwin(s: Text, p: nat, a: Context, b: Context, t: ArgType)
    requires p <= |s| && a == b.(next := a.next) && ParseNative(s, p, b, t).Ok?
    requires var f := FreeSpecs(s, p, t);
      f.Some? && Automatic !in f.value.1 && Counts(a.next, f.value.1).Some?
    ensures ParseTwins(ParseNative(s, p, a, t), ParseNative(s, p, b, t))
  {
    if p < |s| && s[p] != '}' {
      SpecsTwin(s, p, a, b, t);
    }
  }

  // ---- Fields ---------------------------------------------------------------------------------------------

  /**
   * A replacement field by its references: how its argument is named, whether that is known ahead
   * (a name may be known only at run time), whether it has specifiers, and the sizes among them;
   * closed unless a brace in its fill is left open or closed first, which no UTF-8 character does.
   */
  datatype Shape = Shape(kind: Use, known: bool, specs: bool, sizes: seq<Use>, closed: bool)

  /** The index of the first argument of that name from i on. */
  function FindInfo(infos: seq<ArgInfo>, name: Text, i: nat): (r: Option<nat>)
    requires i <= |infos|
    ensures r.Some? ==> i <= r.value < |infos|
    decreases |infos| - i
  {
    if i == |infos| then None
    else if infos[i].name == Some(name) then Some(i)
    else FindInfo(infos, name, i + 1)
  }

  lemma {:induction false} InfoIsArg(infos: seq<ArgInfo>, args: seq<Arg>, name: Text, i: nat)
    requires i <= |args| && Describes(infos, args)
    ensures FindInfo(infos, name, i) == FindName(args, name, i)
    decreases |args| - i
  {
    if i < |args| {
      InfoIsArg(infos, args, name, i + 1);
    }
  }

  /**
   * How the reference at p is written, its argument's index, and where it ends; auto counts the
   * automatic ones before.
   */
  function FieldRef(s: Text, p: nat, infos: seq<ArgInfo>, auto: nat): (r: Option<(Use, int, nat)>)
    requires p < |s|
    ensures r.Some? ==> p <= r.value.2 < |s|
    ensures r.Some? && r.value.0 == ByName ==> 0 <= r.value.1 < |infos|
  {
    if s[p] == '}' || s[p] == ':' then Some((Automatic, auto, p))
    else
      var ref := ParseArgId(s, p);
      if ref.Err? then None
      else if ref.value.0.Index? then Some((ByIndex, ref.value.0.id, ref.value.1))
      else
        var i := FindInfo(infos, ref.value.0.name, 0);
        if i.None? || ref.value.1 == |s| || (s[ref.value.1] != '}' && s[ref.value.1] != ':') then None
        else Some((ByName, i.value, ref.value.1))
  }

  /** Known ahead are all references but names that no static argument has. */
  predicate Known(kind: Use, id: int, infos: seq<ArgInfo>)
  {
    kind != ByName || (0 <= id < |infos| && infos[id].isStatic)
  }

  /** The shape of the field whose brace is at p - 1, and where the field ends. */
  function FieldShape(s: Text, p: nat, infos: seq<ArgInfo>, auto: nat): (r: Option<(Shape, nat)>)
    requires p < |s|
    ensures r.Some? ==> p < r.value.1 <= |s|
  {
    var ref := FieldRef(s, p, infos, auto);
    if ref.None? then None
    else
      var (kind, id, q) := ref.value;
      if !(0 <= id < |infos|) then None
      else if s[q] == '}' then Some((Shape(kind, Known(kind, id, infos), false, [], true), q + 1))
      else
        var f := FreeSpecs(s, q + 1, infos[id].ty);
        if f.None? || f.value.0.pos == |s| || s[f.value.0.pos] != '}' then None
        else Some((Shape(kind, Known(kind, id, infos), true, f.value.1, FillClosed(s, q + 1)), f.value.0.pos + 1))
  }

  /** A field's shape from its parts. */
  lemma ShapeIs(s: Text, p: nat, infos: seq<ArgInfo>, auto: nat)
    requires p < |s| && FieldRef(s, p, infos, auto).Some?
    ensures var (kind, id, q) := FieldRef(s, p, infos, auto).value;
      0 <= id < |infos| ==>
        var f := FieldShape(s, p, infos, auto);
        if s[q] == '}' then f == Some((Shape(kind, Known(kind, id, infos), false, [], true), q + 1))
        else
          var g := FreeSpecs(s, q + 1, infos[id].ty);
          g.Some? && g.value.0.pos < |s| && s[g.value.0.pos] == '}' ==>
            f == Some((Shape(kind, Known(kind, id, infos), true, g.value.1, FillClosed(s, q + 1)), g.value.0.pos + 1))
  {
    hide FreeSpecs, FieldRef;
  }

  function Autos(uses: seq<Use>): nat
  {
    if uses == [] then 0 else (if uses[0] == Automatic then 1 else 0) + Autos(uses[1..])
  }

  /** The references of a field in the order they are read. */
  function Uses(sh: Shape): seq<Use>
  {
    [sh.kind] + sh.sizes
  }

  /** The replacement fields of s from p on, up to the first place that no parser gets past. */
  function Shapes(s: Text, p: nat, infos: seq<ArgInfo>, auto: nat): seq<Shape>
    requires p <= |s|
    decreases |s| - p
  {
    if p == |s| then []
    else if s[p] == '{' then
      if p + 1 == |s| then []
      else if s[p + 1] == '{' then Shapes(s, p + 2, infos, auto)
      else
        var f := FieldShape(s, p + 1, infos, auto);
        if f.None? then [] else [f.value.0] + Shapes(s, f.value.1, infos, auto + Autos(Uses(f.value.0)))
    else if s[p] == '}' then
      if p + 1 == |s| || s[p + 1] != '}' then [] else Shapes(s, p + 2, infos, auto)
    else Shapes(s, p + 1, infos, auto)
  }

  /** The run time's numbering: the number of automatic references, until it turns manual. */
  predicate AtAuto(next: int, auto: nat)
  {
    next == -1 || next == auto
  }

  lemma {:induction false} CountsAutos(next: int, uses: seq<Use>, auto: nat)
    requires AtAuto(next, auto)
    ensures var n := Counts(next, uses);
      n.Some? ==> AtAuto(n.value, auto + Autos(uses)) && (next == -1 ==> n.value == -1 && Automatic !in uses)
    decreases |uses|
  {
    if uses != [] {
      var c := Count(next, uses[0]);
      if c.Some? {
        CountsAutos(c.value, uses[1..], if uses[0] == Automatic then auto + 1 else auto);
      }
    }
  }

  lemma UsesCount(next: int, sh: Shape)
    ensures Counts(next, Uses(sh)) == var c := Count(next, sh.kind); if c.None? then None else Counts(c.value, sh.sizes)
  {
    assert Uses(sh)[1..] == sh.sizes;
  }

  lemma RefShaped(s: Text, p: nat, args: seq<Arg>, infos: seq<ArgInfo>, next: int, auto: nat)
    requires p < |s| && Describes(infos, args) && AtAuto(next, auto)
    ensures var y, f := ParseFieldId(s, p, args, next), FieldRef(s, p, infos, auto);
      && (y.Ok? ==> f.Some? && f.value.1 == y.value.0 && f.value.2 == y.value.2
                    && Count(next, f.value.0) == Some(y.value.1))
      && (f.Some? && Count(next, f.value.0).Some? ==> y.Ok?)
  {
    if s[p] != '}' && s[p] != ':' {
      var ref := ParseArgId(s, p);
      if ref.Ok? && ref.value.0.Name? {
        InfoIsArg(infos, args, ref.value.0.name, 0);
      }
    }
  }

  /** A field that formats has a shape, ends where that says, and counts its references. */
  lemma FieldShaped(r: Renderer, s: Text, p: nat, args: seq<Arg>, infos: seq<ArgInfo>, next: int, auto: nat)
    requires p < |s| && Describes(infos, args) && AtAuto(next, auto)
    ensures var y, f := RunField(r, s, p, args, next), FieldShape(s, p, infos, auto);
      y.Ok? ==> f.Some? && f.value.1 == y.value.2 && Counts(next, Uses(f.value.0)) == Some(y.value.1)
  {
    hide ParseFieldId, FieldRef, FormatArg, ParseSpecs, FreeSpecs, Uses;
    RefShaped(s, p, args, infos, next, auto);
    var id := ParseFieldId(s, p, args, next);
    var y, f := RunField(r, s, p, args, next), FieldShape(s, p, infos, auto);
    if y.Ok? {
      var q := id.value.2;
      if s[q] == ':' {
        FinishSpecs(r, s, q, args, id.value.0, id.value.1);
        SpecsFree(s, q + 1, RuntimeContext(id.value.1), infos[id.value.0].ty);
      }
      UsesCount(next, f.value.0);
    }
  }

  // ---- Sizes by name --------------------------------------------------------------------------------------

  lemma StepNamed(s: Text, p: Parse, ch: Unit, t: ArgType, c: Context)
    requires p.pos < |s| && ByName in StepUses(s, p.pos, ch)
    ensures var x := ParseStep(s, p, ch, t);
      x.Ok? ==> Lost(c, StepParse(x.value), true)
  {
    if ch == '.' {
      PrecisionNamed(s, p, t, c);
    } else {
      WidthNamed(s, p, c);
    }
  }

  lemma AmountNamed(s: Text, p: nat, ctx: Context)
    requires p < |s| && ByName in SizeUses(s, p)
    ensures var a := ParseDynamicSpec(s, p, ctx);
      a.Ok? ==> a.value.ref.Name?
  {
  }

  lemma WidthNamed(s: Text, p: Parse, c: Context)
    requires p.pos < |s| && ByName in SizeUses(s, p.pos)
    ensures var x := WidthStep(s, p);
      x.Ok? ==> Lost(c, x.value.next, true)
  {
    hide ParseDynamicSpec, SizeUses;
    AmountNamed(s, p.pos, p.ctx);
  }

  lemma PrecisionNamed(s: Text, p: Parse, t: ArgType, c: Context)
    requires p.pos < |s| && ByName in SizeUses(s, p.pos + 1)
    ensures var x := PrecisionStep(s, p, t);
      x.Ok? ==> Lost(c, x.value.next, true)
  {
    hide ParseDynamicSpec, SizeUses;
    if p.pos + 1 < |s| {
      AmountNamed(s, p.pos + 1, p.ctx);
    }
  }

  lemma {:induction false} RestNamed(s: Text, p: Parse, t: ArgType, c: Context)
    requires p.pos <= |s|
    ensures var x, f := ParseRest(s, p, t), FreeRest(s, p, t);
      x.Ok? && f.Some? && ByName in f.value.1 ==> Lost(c, x.value, true)
    decreases |s| - p.pos
  {
    if p.pos < |s| {
      OnwardNamed(s, p, s[p.pos], t, c);
      var x := ParseStep(s, p, s[p.pos], t);
      StepFree(s, p, s[p.pos], t);
      hide ParseStep;
      if x.Ok? && x.value.More? {
        RestNamed(s, x.value.next, t, c);
      }
    }
  }

  /** Either this round reads a name, which stays, or a later one does. */
  lemma OnwardNamed(s: Text, p: Parse, ch: Unit, t: ArgType, c: Context)
    requires p.pos < |s|
    ensures var x := ParseStep(s, p, ch, t);
      var f := FreeStep(s, ParseStep(s, Neutral(p), ch, t), StepUses(s, p.pos, ch), p.pos, t);
      x.Ok? && f.Some? && ByName in f.value.1 ==>
        && (x.value.Done? ==> Lost(c, x.value.last, true))
        && (x.value.More? ==>
              var y, g := ParseRest(s, x.value.next, t), FreeRest(s, x.value.next, t);
              g.Some? && (ByName in g.value.1 || (y.Ok? ==> Lost(c, y.value, true))))
  {
    StepFree(s, p, ch, t);
    var x, z := ParseStep(s, p, ch, t), ParseStep(s, Neutral(p), ch, t);
    if ByName in StepUses(s, p.pos, ch) {
      StepNamed(s, p, ch, t, c);
      if x.Ok? && x.value.More? {
        StaysLost(s, x.value.next, t, c, true);
      }
    }
    hide ParseStep;
    if x.Ok? && x.value.More? {
      NeutralRest(s, x.value.next, z.value.next, t);
    }
  }

  /** A size by name stays in the specifiers. */
  lemma SpecsNamed(s: Text, p: nat, ctx: Context, t: ArgType)
    requires p <= |s|
    ensures var x, f := ParseSpecs(s, p, ctx, t), FreeSpecs(s, p, t);
      x.Ok? && f.Some? && ByName in f.value.1 ==> Lost(ctx, x.value, true)
  {
    if p < |s| {
      var a, ch := InitialParse(p, ctx), FirstChar(s, p);
      OnwardNamed(s, a, ch, t, ctx);
      var x := ParseStep(s, a, ch, t);
      hide ParseStep;
      if x.Ok? && x.value.More? {
        RestNamed(s, x.value.next, t, ctx);
      }
    }
  }

  predicate HasName(specs: Specs)
  {
    specs.widthRef.Name? || specs.precisionRef.Name?
  }

  lemma AmountNames(s: Text, p: nat, ctx: Context)
    requires p < |s|
    ensures var a := ParseDynamicSpec(s, p, ctx);
      a.Ok? && a.value.ref.Name? ==> ByName in SizeUses(s, p)
  {
    if s[p] == '{' {
      assert SizeUses(s, p)[0] == RefKind(s, p + 1);
    }
  }

  lemma StepNames(s: Text, p: Parse, ch: Unit, t: ArgType)
    requires p.pos < |s|
    ensures var x := ParseStep(s, p, ch, t);
      x.Ok? && HasName(StepParse(x.value).specs) ==> HasName(p.specs) || ByName in StepUses(s, p.pos, ch)
  {
    hide ParseStep, SizeUses;
    SizeStep(s, p, ch, t);
    if '1' <= ch <= '9' || ch == '{' {
      WidthNames(s, p);
    } else if ch == '.' {
      PrecisionNames(s, p, t);
    } else {
      RefsKept(s, p, ch, t);
    }
  }

  lemma WidthNames(s: Text, p: Parse)
    requires p.pos < |s|
    ensures var x := WidthStep(s, p);
      x.Ok? && HasName(x.value.next.specs) ==> HasName(p.specs) || ByName in SizeUses(s, p.pos)
  {
    hide ParseDynamicSpec, SizeUses;
    AmountNames(s, p.pos, p.ctx);
  }

  lemma PrecisionNames(s: Text, p: Parse, t: ArgType)
    requires p.pos < |s|
    ensures var x := PrecisionStep(s, p, t);
      x.Ok? && HasName(x.value.next.specs) ==> HasName(p.specs) || ByName in SizeUses(s, p.pos + 1)
  {
    hide ParseDynamicSpec, SizeUses;
    if p.pos + 1 < |s| {
      AmountNames(s, p.pos + 1, p.ctx);
    }
  }

  /** What a round makes of the references it reads and of those left. */
  lemma OnwardUses(s: Text, p: Parse, ch: Unit, t: ArgType, use: Use)
    requires p.pos < |s|
    ensures var x := ParseStep(s, p, ch, t);
      var f := FreeStep(s, ParseStep(s, Neutral(p), ch, t), StepUses(s, p.pos, ch), p.pos, t);
      x.Ok? && f.Some? ==>
        && (use in StepUses(s, p.pos, ch) ==> use in f.value.1)
        && (x.value.More? ==> var g := FreeRest(s, x.value.next, t);
              g.Some? && (use in g.value.1 ==> use in f.value.1))
  {
    StepFree(s, p, ch, t);
    var x, z := ParseStep(s, p, ch, t), ParseStep(s, Neutral(p), ch, t);
    hide ParseStep, StepUses, Neutral, FreeRest;
    if x.Ok? && x.value.More? {
      NeutralRest(s, x.value.next, z.value.next, t);
    }
  }

  lemma {:induction false} RestNames(s: Text, p: Parse, t: ArgType)
    requires p.pos <= |s| && FreeRest(s, p, t).Some?
    ensures var x := ParseRest(s, p, t);
      x.Ok? && HasName(x.value.specs) ==> HasName(p.specs) || ByName in FreeRest(s, p, t).value.1
    decreases |s| - p.pos
  {
    if p.pos < |s| {
      hide ParseStep, StepUses, Neutral, FreeStep, HasName;
      OnwardUses(s, p, s[p.pos], t, ByName);
      StepNames(s, p, s[p.pos], t);
      var x := ParseStep(s, p, s[p.pos], t);
      if x.Ok? && x.value.More? {
        RestNames(s, x.value.next, t);
      }
    }
  }

  /** A name in the specifiers was read among their sizes. */
  lemma SpecsNames(s: Text, p: nat, ctx: Context, t: ArgType)
    requires p <= |s| && FreeSpecs(s, p, t).Some?
    ensures var x := ParseSpecs(s, p, ctx, t);
      x.Ok? && HasName(x.value.specs) ==> ByName in FreeSpecs(s, p, t).value.1
  {
    if p < |s| {
      hide ParseStep, StepUses, FreeStep, FreeRest;
      var a, ch := InitialParse(p, ctx), FirstChar(s, p);
      assert Neutral(a) == Neutral(InitialParse(p, RuntimeContext(0)));
      OnwardUses(s, a, ch, t, ByName);
      StepNames(s, a, ch, t);
      var x := ParseStep(s, a, ch, t);
      if x.Ok? && x.value.More? {
        RestNames(s, x.value.next, t);
      }
    }
  }

  /** Without named arguments, a field that formats has no reference by name. */
  lemma FieldUnnamed(r: Renderer, s: Text, p: nat, args: seq<Arg>, infos: seq<ArgInfo>, next: int, auto: nat)
    requires p < |s| && Describes(infos, args) && AtAuto(next, auto) && Unnamed(infos)
    ensures var y, f := RunField(r, s, p, args, next), FieldShape(s, p, infos, auto);
      y.Ok? && f.Some? ==> ByName !in Uses(f.value.0)
  {
    hide FormatArg, ParseSpecs, FreeSpecs;
    RefShaped(s, p, args, infos, next, auto);
    var id, ref := ParseFieldId(s, p, args, next), FieldRef(s, p, infos, auto);
    if RunField(r, s, p, args, next).Ok? && ref.Some? {
      if ref.value.0 == ByName {
        NothingNamed(infos, args, ParseArgId(s, p).value.0.name, 0);
      }
      var q := id.value.2;
      if s[q] == ':' {
        var ctx := RuntimeContext(id.value.1);
        FinishSpecs(r, s, q, args, id.value.0, id.value.1);
        SpecsNamed(s, q + 1, ctx, infos[id.value.0].ty);
        var y := ParseSpecs(s, q + 1, ctx, infos[id.value.0].ty);
        if Lost(ctx, y.value, true) {
          NamedSizeFails(r, ctx, y.value, args, infos, args[id.value.0]);
        }
      }
    }
  }

  // ---- What a checking context accepts of the specifiers that format -------------------------------------

  /** A checking context that has room for these arguments and knows their types, if any. */
  predicate Suited(c: Context, infos: seq<ArgInfo>, args: seq<Arg>)
  {
    c.checks && |args| <= c.numArgs && (c.types.Some? ==> c.types.value == Types(infos)) && Describes(infos, args)
  }

  /** From a level numbering, only what cannot be formatted is rejected. */
  lemma NativeAccepts(r: Renderer, s: Text, q: nat, index: nat, c: Context, next: int, infos: seq<ArgInfo>,
                      args: seq<Arg>)
    requires q < |s| && s[q] == ':' && index < |args| && Suited(c, infos, args) && Level(c, RuntimeContext(next))
    requires FinishField(r, s, q, args, index, next).Ok?
    ensures ParseNative(s, q + 1, c, infos[index].ty).Ok?
  {
    var t := infos[index].ty;
    NativeLevel(s, q + 1, c, RuntimeContext(next), t);
    var y := ParseSpecs(s, q + 1, RuntimeContext(next), t);
    hide ParseSpecs;
    hide ParseNative;
    FinishSpecs(r, s, q, args, index, next);
    if Lost(c, y.value, false) {
      LostFails(r, c, y.value, args, infos, args[index]);
    }
  }

  /** From any numbering next to the run time's, those whose references suit it are accepted. */
  lemma NativeSuits(r: Renderer, s: Text, q: nat, index: nat, c: Context, next: int, infos: seq<ArgInfo>,
                    args: seq<Arg>)
    requires q < |s| && s[q] == ':' && index < |args| && Suited(c, infos, args)
    requires c.next >= -1 && (next == -1 || next == c.next)
    requires FinishField(r, s, q, args, index, next).Ok?
    ensures var x, y := ParseNative(s, q + 1, c, infos[index].ty), FinishField(r, s, q, args, index, next).value;
      var f := FreeSpecs(s, q + 1, infos[index].ty);
      && f.Some? && f.value.0.pos + 1 == y.2 && Counts(next, f.value.1) == Some(y.1)
      && (x.Ok? <==> Counts(c.next, f.value.1).Some?)
      && (x.Ok? ==> x.value.pos + 1 == y.2 && Counts(c.next, f.value.1) == Some(x.value.ctx.next))
  {
    var t := infos[index].ty;
    var x, f := ParseNative(s, q + 1, c, t), FreeSpecs(s, q + 1, t);
    SpecsFree(s, q + 1, RuntimeContext(next), t);
    SpecsFree(s, q + 1, c, t);
    NativeIsSpecs(s, q + 1, c, t);
    hide ParseSpecs, ParseNative, FreeSpecs;
    FinishSpecs(r, s, q, args, index, next);
    if next == c.next {
      NativeAccepts(r, s, q, index, c, next, infos, args);
    } else if Counts(c.next, f.value.1).Some? {
      CountsAutos(next, f.value.1, 0);
      var b := c.(next := 0);
      NativeAccepts(r, s, q, index, b, next, infos, args);
      NativeTwin(s, q + 1, c, b, t);
    }
  }

  lemma ShapeParts(s: Text, p: nat, infos: seq<ArgInfo>, auto: nat)
    requires p < |s|
    ensures var ref, f := FieldRef(s, p, infos, auto), FieldShape(s, p, infos, auto);
      f.Some? ==>
        && ref.Some? && 0 <= ref.value.1 < |infos| && (s[ref.value.2] == '}' || f.value.0.specs)
        && (ref.value.0 != ByName ==> f.value.0.known)
        && f.value.0.kind == ref.value.0 && f.value.0.known == Known(ref.value.0, ref.value.1, infos)
        && if s[ref.value.2] == '}' then f.value.0.sizes == [] && !f.value.0.specs && f.value.1 == ref.value.2 + 1
           else var g := FreeSpecs(s, ref.value.2 + 1, infos[ref.value.1].ty);
             g.Some? && f.value.0.sizes == g.value.1 && f.value.0.closed == FillClosed(s, ref.value.2 + 1)
  {
    hide FreeSpecs, FieldRef;
  }

  lemma FieldArg(r: Renderer, s: Text, q: nat, index: int, id: int, infos: seq<ArgInfo>, args: seq<Arg>)
    requires q < |s| && Describes(infos, args) && FinishField(r, s, q, args, index, id).Ok?
    ensures 0 <= index < |args| == |infos|
  {
  }

  // ---- The first reference that the numbering forbids -------------------------------------------------------

  function FirstFault(next: int, uses: seq<Use>): Option<Use>
    decreases |uses|
  {
    if uses == [] then None
    else
      var c := Count(next, uses[0]);
      if c.None? then Some(uses[0]) else FirstFault(c.value, uses[1..])
  }

  lemma {:induction false} FaultCounts(next: int, uses: seq<Use>)
    ensures FirstFault(next, uses).None? <==> Counts(next, uses).Some?
    decreases |uses|
  {
    if uses != [] {
      var c := Count(next, uses[0]);
      if c.Some? {
        FaultCounts(c.value, uses[1..]);
      }
    }
  }

  lemma {:induction false} FaultConcat(next: int, a: seq<Use>, b: seq<Use>)
    ensures FirstFault(next, a + b)
         == if FirstFault(next, a).Some? then FirstFault(next, a)
            else if Counts(next, a).Some? then FirstFault(Counts(next, a).value, b) else None
    decreases |a|
  {
    FaultCounts(next, a);
    if a == [] {
      assert a + b == b;
    } else {
      assert (a + b)[1..] == a[1..] + b;
      var c := Count(next, a[0]);
      if c.Some? {
        FaultConcat(c.value, a[1..], b);
      }
    }
  }

  /** Once the numbering is manual, only an automatic reference is at fault. */
  lemma {:induction false} ManualFault(uses: seq<Use>)
    ensures FirstFault(-1, uses) == if Automatic in uses then Some(Automatic) else None
    decreases |uses|
  {
    if uses != [] {
      ManualFault(uses[1..]);
      assert uses == [uses[0]] + uses[1..];
    }
  }

  /** An automatic reference after one by index or by name. */
  predicate AutomaticAfterManual(uses: seq<Use>)
  {
    exists i, j :: 0 <= i < j < |uses| && uses[i] != Automatic && uses[j] == Automatic
  }

  lemma AfterManualStep(u: Use, rest: seq<Use>)
    ensures AutomaticAfterManual([u] + rest)
       <==> if u == Automatic then AutomaticAfterManual(rest) else Automatic in rest
  {
    var all := [u] + rest;
    assert all[0] == u && forall i :: 0 <= i < |rest| ==> all[i + 1] == rest[i];
    if AutomaticAfterManual(all) {
      var i, j :| 0 <= i < j < |all| && all[i] != Automatic && all[j] == Automatic;
      assert rest[j - 1] == Automatic;
      if u == Automatic {
        assert rest[i - 1] != Automatic;
      }
    }
    if if u == Automatic then AutomaticAfterManual(rest) else Automatic in rest {
      AfterManualBack(u, rest);
    }
  }

  lemma AfterManualBack(u: Use, rest: seq<Use>)
    requires if u == Automatic then AutomaticAfterManual(rest) else Automatic in rest
    ensures AutomaticAfterManual([u] + rest)
  {
    var all := [u] + rest;
    assert all[0] == u && forall i :: 0 <= i < |rest| ==> all[i + 1] == rest[i];
    if u == Automatic {
      var i, j :| 0 <= i < j < |rest| && rest[i] != Automatic && rest[j] == Automatic;
      assert all[i + 1] != Automatic && all[j + 1] == Automatic;
    } else {
      var j :| 0 <= j < |rest| && rest[j] == Automatic;
      assert all[0] != Automatic && all[j + 1] == Automatic;
    }
  }

  lemma {:induction false} AutomaticFault(next: int, uses: seq<Use>)
    requires next >= 0 && FirstFault(next, uses) != Some(ByIndex)
    ensures FirstFault(next, uses).Some? <==> AutomaticAfterManual(uses)
    decreases |uses|
  {
    if uses != [] {
      AfterManualStep(uses[0], uses[1..]);
      assert uses == [uses[0]] + uses[1..];
      if uses[0] == Automatic {
        AutomaticFault(next + 1, uses[1..]);
      } else {
        ManualFault(uses[1..]);
      }
    }
  }

  lemma FaultUses(next: int, sh: Shape)
    ensures FirstFault(next, Uses(sh))
         == var c := Count(next, sh.kind); if c.None? then Some(sh.kind) else FirstFault(c.value, sh.sizes)
  {
    assert Uses(sh)[1..] == sh.sizes;
  }

  // ---- The references of any string -------------------------------------------------------------------------

  /** Where reading the fields of a string comes to an end. */
  datatype Stop = End | LoneBrace | UnknownName | BadField

  /** The field names an argument that there is none of. */
  predicate NameUnknown(s: Text, p: nat, infos: seq<ArgInfo>)
    requires p < |s|
  {
    && s[p] != '}' && s[p] != ':'
    && var ref := ParseArgId(s, p);
       ref.Ok? && ref.value.0.Name? && FindInfo(infos, ref.value.0.name, 0).None?
  }

  /** The references from p on, and why there are no more. */
  function Walk(s: Text, p: nat, infos: seq<ArgInfo>, auto: nat): (seq<Use>, Stop)
    requires p <= |s|
    decreases |s| - p
  {
    if p == |s| then ([], End)
    else if s[p] == '{' then
      if p + 1 == |s| then ([], BadField)
      else if s[p + 1] == '{' then Walk(s, p + 2, infos, auto)
      else WalkField(s, p + 1, infos, auto)
    else if s[p] == '}' then
      if p + 1 == |s| || s[p + 1] != '}' then ([], LoneBrace) else Walk(s, p + 2, infos, auto)
    else Walk(s, p + 1, infos, auto)
  }

  function WalkField(s: Text, p: nat, infos: seq<ArgInfo>, auto: nat): (seq<Use>, Stop)
    requires p < |s|
    decreases |s| - p
  {
    var ref, f := FieldRef(s, p, infos, auto), FieldShape(s, p, infos, auto);
    if ref.None? then ([], if NameUnknown(s, p, infos) then UnknownName else BadField)
    else if f.None? then ([ref.value.0], BadField)
    else
      var uses := Uses(f.value.0);
      var rest := Walk(s, f.value.1, infos, auto + Autos(uses));
      (uses + rest.0, rest.1)
  }
}
