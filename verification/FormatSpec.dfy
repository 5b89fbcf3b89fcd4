/** The parser for standard format specifiers and argument references. */
module FormatSpec {
  import opened Common
  import opened Powers

  /** A narrow code unit; values from 256 on do not occur in a format string. */
  type Unit = char

  type Text = seq<Unit>

  datatype Error =
    // Found while parsing.
    | ManualToAutomatic | AutomaticToManual | ArgumentNotFound | NotIntegerSpec | NumberTooBig
    | InvalidFormatString | InvalidSpecifier | InvalidFill | NeedsNumeric | InvalidPrecision
    | UnknownSpecifier | MissingBrace | UnmatchedBrace | InvalidCharSpecifier
    // Found when a dynamic width or precision is looked up.
    | DynamicNotInteger | DynamicOutOfRange | DynamicNotFound
  {
    predicate Dynamic()
    {
      DynamicNotInteger? || DynamicOutOfRange? || DynamicNotFound?
    }
  }

  datatype Result<+T> = Ok(value: T) | Err(error: Error) {
    predicate IsFailure()
    {
      Err?
    }

    function PropagateFailure<U>(): Result<U>
      requires Err?
    {
      Err(error)
    }

    function Extract(): T
      requires Ok?
    {
      value
    }
  }

  datatype ArgType =
    | IntType | UIntType | LongLongType | ULongLongType | Int128Type | UInt128Type | BoolType | CharType
    | FloatType | DoubleType | LongDoubleType | CStringType | StringType | PointerType
  {
    predicate Signed()
    {
      IntType? || LongLongType? || Int128Type?
    }

    predicate Floating()
    {
      FloatType? || DoubleType? || LongDoubleType?
    }

    predicate Integral()
    {
      Signed() || UIntType? || ULongLongType? || UInt128Type? || BoolType? || CharType?
    }

    predicate Arithmetic()
    {
      Integral() || Floating()
    }

    /** Integral and neither bool nor char: usable as a width. */
    predicate Integer()
    {
      Integral() && !BoolType? && !CharType?
    }
  }

  datatype Presentation =
    | NoType | Debug | Str | Dec | Hex | Oct | Bin | Chr | Ptr | Exp | FixedPoint | General | HexFloat

  datatype Align = NoAlign | Left | Right | Center | Numeric

  datatype SignSpec = NoSign | Minus | Plus | Space

  /** Where a dynamic width or precision, or a replacement field, takes its argument from. */
  datatype ArgRef = NoRef | Index(id: int) | Name(name: Text)

  datatype Specs = Specs(
    presentation: Presentation, align: Align, sign: SignSpec, upper: bool, alt: bool, localized: bool,
    fill: Text, width: int, precision: int, widthRef: ArgRef, precisionRef: ArgRef)

  function DefaultSpecs(): Specs
  {
    Specs(NoType, NoAlign, NoSign, false, false, false, " ", 0, -1, NoRef, NoRef)
  }

  // ---- Argument counting --------------------------------------------------------------------------

  /**
   * A parse context. At run time nothing but the numbering is checked; a context used during
   * constant evaluation also knows how many arguments there are and, in the checker, their types.
   */
  datatype Context = Context(next: int, checks: bool, numArgs: int, types: Option<seq<ArgType>>)

  function RuntimeContext(next: int): Context
  {
    Context(next, false, 0, None)
  }

  /** The same checks, at most renumbered. */
  predicate Kept(before: Context, after: Context)
  {
    after == before.(next := after.next)
  }

  function CheckId(ctx: Context, id: int): Result<Context>
  {
    if ctx.checks && id >= ctx.numArgs then Err(ArgumentNotFound) else Ok(ctx)
  }

  /** The next automatic argument index. */
  function NextArgId(ctx: Context): Result<(int, Context)>
  {
    if ctx.next < 0 then Err(ManualToAutomatic)
    else
      var c :- CheckId(ctx.(next := ctx.next + 1), ctx.next);
      Ok((ctx.next, c))
  }

  function CheckArgIndex(ctx: Context, id: int): Result<Context>
  {
    if ctx.next > 0 then Err(AutomaticToManual) else CheckId(ctx.(next := -1), id)
  }

  function CheckArgName(ctx: Context): Context
  {
    ctx.(next := -1)
  }

  function CheckDynamicSpec(ctx: Context, id: int): Result<Context>
  {
    if ctx.checks && id < ctx.numArgs && ctx.types.Some? && 0 <= id < |ctx.types.value|
       && !ctx.types.value[id].Integral()
    then Err(NotIntegerSpec)
    else Ok(ctx)
  }

  // ---- Numbers and names ----------------------------------------------------------------------------

  predicate IsDigit(c: Unit)
  {
    '0' <= c <= '9'
  }

  predicate IsNameStart(c: Unit)
  {
    'a' <= c <= 'z' || 'A' <= c <= 'Z' || c == '_'
  }

  /** The first position from p on that does not hold a digit. */
  function DigitsEnd(s: Text, p: nat): (q: nat)
    requires p <= |s|
    ensures p <= q <= |s| && (forall i :: p <= i < q ==> IsDigit(s[i])) && (q < |s| ==> !IsDigit(s[q]))
    decreases |s| - p
  {
    if p < |s| && IsDigit(s[p]) then DigitsEnd(s, p + 1) else p
  }

  function NameEnd(s: Text, p: nat): (q: nat)
    requires p <= |s|
    ensures p <= q <= |s| && (q < |s| ==> !IsNameStart(s[q]) && !IsDigit(s[q]))
    ensures forall i :: p <= i < q ==> IsNameStart(s[i]) || IsDigit(s[i])
    decreases |s| - p
  {
    if p < |s| && (IsNameStart(s[p]) || IsDigit(s[p])) then NameEnd(s, p + 1) else p
  }

  function DigitValue(c: Unit): (d: nat)
    requires IsDigit(c)
    ensures d <= 9
  {
    c as int - '0' as int
  }

  /** The decimal number written in s[p..q]. */
  function Decimal(s: Text, p: nat, q: nat): nat
    requires p <= q <= |s| && forall i :: p <= i < q ==> IsDigit(s[i])
    decreases q - p
  {
    if p == q then 0 else Decimal(s, p, q - 1) * 10 + DigitValue(s[q - 1])
  }

  /** An int read from the digits at p, or onError if it does not fit (or has over ten digits). */
  function ParseInt(s: Text, p: nat, onError: int): (r: (int, nat))
    requires p < |s| && IsDigit(s[p])
    ensures p < r.1 <= |s|
  {
    var q := DigitsEnd(s, p);
    (if q - p <= 10 && Decimal(s, p, q) <= INT_MAX then Decimal(s, p, q) else onError, q)
  }

  /** parse_nonnegative_int: 32-bit arithmetic that wraps, with the check on the last step. */
  method ParseNonnegativeInt(s: Text, begin: nat, onError: int) returns (value: int, end: nat)
    requires begin < |s| && IsDigit(s[begin])
    ensures (value, end) == ParseInt(s, begin, onError)
  {
    var v, prev, p := 0, 0, begin;
    while true
      invariant begin <= p <= |s| && DigitsEnd(s, begin) == DigitsEnd(s, p)
      invariant forall i :: begin <= i < p ==> IsDigit(s[i])
      invariant p == begin ==> IsDigit(s[p])
      invariant 0 <= v < 0x1_0000_0000 && v == Decimal(s, begin, p) % 0x1_0000_0000
      invariant p > begin ==> prev == Decimal(s, begin, p - 1) % 0x1_0000_0000
      decreases |s| - p
    {
      if !(p < |s| && IsDigit(s[p])) {
        break;
      }
      WrapStep(Decimal(s, begin, p), DigitValue(s[p]));
      prev := v;
      v := (v * 10 + DigitValue(s[p])) % 0x1_0000_0000;
      p := p + 1;
    }
    var digits := p - begin;
    end := p;
    Unwrapped(s, begin, p, v, prev);
    if digits <= 9 {
      return v, p;
    }
    return if digits == 10 && prev * 10 + DigitValue(s[p - 1]) <= INT_MAX then v else onError, p;
  }

  /** What the wrapped value and the one before it tell about the number read. */
  lemma Unwrapped(s: Text, p: nat, q: nat, v: int, prev: int)
    requires p < q <= |s| && forall i :: p <= i < q ==> IsDigit(s[i])
    requires v == Decimal(s, p, q) % 0x1_0000_0000 && prev == Decimal(s, p, q - 1) % 0x1_0000_0000
    ensures q - p <= 9 ==> v == Decimal(s, p, q) <= INT_MAX
    ensures q - p == 10 ==> prev * 10 + DigitValue(s[q - 1]) == Decimal(s, p, q)
    ensures Decimal(s, p, q) <= INT_MAX ==> v == Decimal(s, p, q)
  {
    DecimalBound(s, p, q);
    DecimalBound(s, p, q - 1);
    SmallWord(Decimal(s, p, q));
    SmallWord(Decimal(s, p, q - 1));
    assert Decimal(s, p, q) == Decimal(s, p, q - 1) * 10 + DigitValue(s[q - 1]);
    hide Decimal;
  }

  lemma SmallWord(x: nat)
    ensures x < 0x1_0000_0000 ==> x % 0x1_0000_0000 == x
  {
  }

  lemma WrapStep(d: nat, digit: nat)
    ensures (d * 10 + digit) % 0x1_0000_0000 == ((d % 0x1_0000_0000) * 10 + digit) % 0x1_0000_0000
  {
    var q, r := d / 0x1_0000_0000, d % 0x1_0000_0000;
    var x := r * 10 + digit;
    DivModIs(d * 10 + digit, 0x1_0000_0000, 10 * q + x / 0x1_0000_0000, x % 0x1_0000_0000);
  }

  lemma {:induction false} DecimalLess(s: Text, p: nat, q: nat)
    requires p <= q <= |s| && forall i :: p <= i < q ==> IsDigit(s[i])
    ensures Decimal(s, p, q) < Pow(10, q - p)
    decreases q - p
  {
    if p < q {
      DecimalLess(s, p, q - 1);
    }
  }

  /** Nine digits stay below 10^9, so the next step cannot have wrapped unnoticed. */
  lemma DecimalBound(s: Text, p: nat, q: nat)
    requires p <= q <= |s| && forall i :: p <= i < q ==> IsDigit(s[i])
    ensures q - p <= 9 ==> Decimal(s, p, q) < 1000000000
  {
    DecimalLess(s, p, q);
    if q - p <= 9 {
      PowMonotone(10, q - p, 9);
      assert Pow(10, 9) == 10 * Pow(10, 8) && Pow(10, 8) == 10 * Pow(10, 7) && Pow(10, 7) == 10 * Pow(10, 6)
        && Pow(10, 6) == 10 * Pow(10, 5);
      assert Pow(10, 5) == 10 * Pow(10, 4) && Pow(10, 4) == 10 * Pow(10, 3) && Pow(10, 3) == 10 * Pow(10, 2)
        && Pow(10, 2) == 100;
    }
  }

  /** Without a leading zero the length test is implied: the value alone decides. */
  lemma NoLeadingZero(s: Text, p: nat, onError: int)
    requires p < |s| && IsDigit(s[p]) && s[p] != '0'
    ensures var q := DigitsEnd(s, p);
      ParseInt(s, p, onError).0 == if Decimal(s, p, q) <= INT_MAX then Decimal(s, p, q) else onError
  {
    var q := DigitsEnd(s, p);
    if q - p > 10 {
      LeadingDigit(s, p, q);
      PowMonotone(10, 10, q - p - 1);
      assert Pow(10, 10) == 10 * Pow(10, 9) && Pow(10, 9) == 10 * Pow(10, 8) && Pow(10, 8) == 10 * Pow(10, 7)
        && Pow(10, 7) == 10 * Pow(10, 6);
      assert Pow(10, 6) == 10 * Pow(10, 5) && Pow(10, 5) == 10 * Pow(10, 4) && Pow(10, 4) == 10 * Pow(10, 3)
        && Pow(10, 3) == 1000;
    }
  }

  lemma {:induction false} LeadingDigit(s: Text, p: nat, q: nat)
    requires p < q <= |s| && (forall i :: p <= i < q ==> IsDigit(s[i])) && s[p] != '0'
    ensures Decimal(s, p, q) >= Pow(10, q - p - 1)
    decreases q - p
  {
    if q > p + 1 {
      LeadingDigit(s, p, q - 1);
    }
  }

  /** An argument reference, with the position after it. */
  function ParseArgId(s: Text, p: nat): (r: Result<(ArgRef, nat)>)
    requires p < |s|
    ensures r.Err? ==> !r.error.Dynamic()
    ensures r.Ok? ==> p < r.value.1 <= |s| && !r.value.0.NoRef?
    ensures r.Ok? && r.value.0.Index? ==> r.value.1 < |s| && (s[r.value.1] == '}' || s[r.value.1] == ':')
  {
    if IsDigit(s[p]) then
      var (id, q) := if s[p] != '0' then ParseInt(s, p, INT_MAX) else (0, p + 1);
      if q == |s| || (s[q] != '}' && s[q] != ':') then Err(InvalidFormatString) else Ok((Index(id), q))
    else if !IsNameStart(s[p]) then Err(InvalidFormatString)
    else
      var q := NameEnd(s, p + 1);
      Ok((Name(s[p..q]), q))
  }

  // ---- Width, precision ---------------------------------------------------------------------------

  /** A width or precision: a number, or a reference in braces. */
  datatype Amount = Amount(number: Option<int>, ref: ArgRef, ctx: Context, end: nat)

  /** The reference between the braces of a dynamic width or precision. */
  function ParseDynamicRef(s: Text, p: nat, ctx: Context): (r: Result<(ArgRef, Context, nat)>)
    requires p <= |s|
    ensures r.Err? ==> !r.error.Dynamic()
    ensures r.Ok? ==> p <= r.value.2 <= |s| && Kept(ctx, r.value.1)
  {
    if p == |s| then Ok((NoRef, ctx, p))
    else if s[p] == '}' || s[p] == ':' then
      var (id, c) :- NextArgId(ctx);
      var c' :- CheckDynamicSpec(c, id);
      Ok((Index(id), c', p))
    else
      var (ref, q) :- ParseArgId(s, p);
      if ref.Index? then
        var c :- CheckArgIndex(ctx, ref.id);
        var c' :- CheckDynamicSpec(c, ref.id);
        Ok((ref, c', q))
      else
        Ok((ref, CheckArgName(ctx), q))
  }

  function ParseDynamicSpec(s: Text, p: nat, ctx: Context): (r: Result<Amount>)
    requires p < |s|
    ensures r.Err? ==> !r.error.Dynamic()
    ensures r.Ok? ==> p < r.value.end <= |s| && Kept(ctx, r.value.ctx)
  {
    if IsDigit(s[p]) then
      var (v, q) := ParseInt(s, p, -1);
      if v == -1 then Err(NumberTooBig) else Ok(Amount(Some(v), NoRef, ctx, q))
    else if s[p] == '{' then
      var (ref, c, q) :- ParseDynamicRef(s, p + 1, ctx);
      if q < |s| && s[q] == '}' then Ok(Amount(None, ref, c, q + 1)) else Err(InvalidFormatString)
    else Err(InvalidFormatString)
  }

  // ---- Format specifiers --------------------------------------------------------------------------

  datatype State = Start | AlignState | SignState | HashState | ZeroState | WidthState | PrecisionState | LocaleState
  {
    function Rank(): nat
    {
      match this
      case Start => 0
      case AlignState => 1
      case SignState => 2
      case HashState => 3
      case ZeroState => 4
      case WidthState => 5
      case PrecisionState => 6
      case LocaleState => 7
    }
  }

  function ParseAlign(c: Unit): Align
  {
    if c == '<' then Left else if c == '>' then Right else if c == '^' then Center else NoAlign
  }

  /** The number of units in the code point that starts with c, 1 for a malformed lead. */
  function CodePointLength(c: Unit): (n: nat)
    ensures 1 <= n <= 4
  {
    var b := c as int;
    if 0xC0 <= b < 0xE0 then 2 else if 0xE0 <= b < 0xF0 then 3 else if 0xF0 <= b < 0xF8 then 4 else 1
  }

  /** The progress of the specifier parser: where it is, what it entered last and what it collected. */
  datatype Parse = Parse(pos: nat, state: State, specs: Specs, ctx: Context)

  /** Either the loop goes on or the specifiers end here. */
  datatype Step = More(next: Parse) | Done(last: Parse)

  function Enter(p: Parse, state: State, valid: bool): Result<Parse>
  {
    if p.state.Rank() >= state.Rank() || !valid then Err(InvalidSpecifier) else Ok(p.(state := state))
  }

  /** The presentation type a letter stands for, and whether the argument type allows it. */
  function PresentationOf(c: Unit, t: ArgType): Option<(Presentation, bool)>
  {
    match c
    case 'd' => Some((Dec, t.Integral()))
    case 'x' => Some((Hex, t.Integral()))
    case 'X' => Some((Hex, t.Integral()))
    case 'o' => Some((Oct, t.Integral()))
    case 'b' => Some((Bin, t.Integral()))
    case 'B' => Some((Bin, t.Integral()))
    case 'e' => Some((Exp, t.Floating()))
    case 'E' => Some((Exp, t.Floating()))
    case 'f' => Some((FixedPoint, t.Floating()))
    case 'F' => Some((FixedPoint, t.Floating()))
    case 'g' => Some((General, t.Floating()))
    case 'G' => Some((General, t.Floating()))
    case 'a' => Some((HexFloat, t.Floating()))
    case 'A' => Some((HexFloat, t.Floating()))
    case 'c' => Some((Chr, t.Integral() && !t.BoolType?))
    case 's' => Some((Str, t.BoolType? || t.StringType? || t.CStringType?))
    case 'p' => Some((Ptr, t.PointerType? || t.CStringType?))
    case '?' => Some((Debug, t.CharType? || t.StringType? || t.CStringType?))
    case _ => None
  }

  predicate IsUpper(c: Unit)
  {
    c == 'X' || c == 'B' || c == 'E' || c == 'F' || c == 'G' || c == 'A'
  }

  function ParseFill(s: Text, p: Parse): (r: Result<Step>)
    requires p.pos < |s|
    ensures r.Err? ==> !r.error.Dynamic()
    ensures r.Ok? && r.value.More? ==> p.pos < r.value.next.pos <= |s| && Kept(p.ctx, r.value.next.ctx)
    ensures r.Ok? && r.value.Done? ==> p.pos <= r.value.last.pos <= |s| && Kept(p.ctx, r.value.last.ctx)
  {
    if s[p.pos] == '}' then Ok(Done(p))
    else
      var end := p.pos + CodePointLength(s[p.pos]);
      if end >= |s| then Err(InvalidSpecifier)
      else if s[p.pos] == '{' then Err(InvalidFill)
      else
        var a := ParseAlign(s[end]);
        var q :- Enter(p, AlignState, a != NoAlign);
        Ok(More(q.(pos := end + 1, specs := q.specs.(fill := s[p.pos..end], align := a))))
  }

  function CollectWidth(p: Parse, a: Amount): Parse
  {
    var w := if a.number.Some? then a.number.value else p.specs.width;
    p.(pos := a.end, ctx := a.ctx, specs := p.specs.(width := w, widthRef := a.ref))
  }

  function CollectPrecision(p: Parse, a: Amount): Parse
  {
    var v := if a.number.Some? then a.number.value else p.specs.precision;
    p.(pos := a.end, ctx := a.ctx, specs := p.specs.(precision := v, precisionRef := a.ref))
  }

  function WidthStep(s: Text, p: Parse): (r: Result<Step>)
    requires p.pos < |s|
    ensures r.Err? ==> !r.error.Dynamic()
    ensures r.Ok? ==> r.value.More? && p.pos < r.value.next.pos <= |s| && Kept(p.ctx, r.value.next.ctx)
  {
    var q :- Enter(p, WidthState, true);
    var a :- ParseDynamicSpec(s, p.pos, p.ctx);
    Ok(More(CollectWidth(q, a)))
  }

  function PrecisionStep(s: Text, p: Parse, t: ArgType): (r: Result<Step>)
    requires p.pos < |s|
    ensures r.Err? ==> !r.error.Dynamic()
    ensures r.Ok? ==> r.value.More? && p.pos < r.value.next.pos <= |s| && Kept(p.ctx, r.value.next.ctx)
  {
    var q :- Enter(p, PrecisionState, t.Floating() || t.StringType? || t.CStringType?);
    if p.pos + 1 == |s| then Err(InvalidPrecision)
    else
      var a :- ParseDynamicSpec(s, p.pos + 1, p.ctx);
      Ok(More(CollectPrecision(q, a)))
  }

  /** One round of the parser's loop on the character c, which is '\0' to force a fill. */
  function ParseStep(s: Text, p: Parse, c: Unit, t: ArgType): (r: Result<Step>)
    requires p.pos < |s|
    ensures r.Err? ==> !r.error.Dynamic()
    ensures r.Ok? && r.value.More? ==> p.pos < r.value.next.pos <= |s| && Kept(p.ctx, r.value.next.ctx)
    ensures r.Ok? && r.value.Done? ==> p.pos <= r.value.last.pos <= |s| && Kept(p.ctx, r.value.last.ctx)
  {
    var one := p.pos + 1;
    if c == '<' || c == '>' || c == '^' then
      var q :- Enter(p, AlignState, true);
      Ok(More(q.(pos := one, specs := q.specs.(align := ParseAlign(c)))))
    else if c == '+' || c == ' ' || c == '-' then
      var q :- Enter(p, SignState, t.Signed() || t.Floating());
      var sign := if c == '+' then Plus else if c == ' ' then Space else q.specs.sign;
      Ok(More(q.(pos := one, specs := q.specs.(sign := sign))))
    else if c == '#' then
      var q :- Enter(p, HashState, t.Arithmetic());
      Ok(More(q.(pos := one, specs := q.specs.(alt := true))))
    else if c == '0' then
      var q :- Enter(p, ZeroState, true);
      if !t.Arithmetic() then Err(NeedsNumeric)
      else if q.specs.align == NoAlign then
        Ok(More(q.(pos := one, specs := q.specs.(align := Numeric, fill := "0"))))
      else Ok(More(q.(pos := one)))
    else if '1' <= c <= '9' || c == '{' then WidthStep(s, p)
    else if c == '.' then PrecisionStep(s, p, t)
    else if c == 'L' then
      var q :- Enter(p, LocaleState, t.Arithmetic());
      Ok(More(q.(pos := one, specs := q.specs.(localized := true))))
    else
      match PresentationOf(c, t)
      case Some((pres, valid)) =>
        if !valid then Err(InvalidSpecifier)
        else Ok(Done(p.(pos := one, specs := p.specs.(presentation := pres, upper := p.specs.upper || IsUpper(c)))))
      case None => if c == '}' then Ok(Done(p)) else ParseFill(s, p)
  }

  /** The loop from a given state on; after the first round the character is the one at pos. */
  function ParseRest(s: Text, p: Parse, t: ArgType): (r: Result<Parse>)
    requires p.pos <= |s|
    ensures r.Err? ==> !r.error.Dynamic()
    ensures r.Ok? ==> p.pos <= r.value.pos <= |s| && Kept(p.ctx, r.value.ctx)
    decreases |s| - p.pos
  {
    if p.pos == |s| then Ok(p)
    else
      var step :- ParseStep(s, p, s[p.pos], t);
      match step
      case Done(last) => Ok(last)
      case More(next) => ParseRest(s, next, t)
  }

  /** The character the first round looks at: none if the second one is an alignment. */
  function FirstChar(s: Text, p: nat): Unit
    requires p < |s|
  {
    if p + 1 < |s| && ParseAlign(s[p + 1]) != NoAlign then '\0' else s[p]
  }

  function InitialParse(p: nat, ctx: Context): Parse
  {
    Parse(p, Start, DefaultSpecs(), ctx)
  }

  /** parse_format_specs: specifiers from p on for an argument of type t. */
  function ParseSpecs(s: Text, p: nat, ctx: Context, t: ArgType): (r: Result<Parse>)
    requires p <= |s|
    ensures r.Err? ==> !r.error.Dynamic()
    ensures r.Ok? ==> p <= r.value.pos <= |s| && Kept(ctx, r.value.ctx)
  {
    if p == |s| then Ok(InitialParse(p, ctx))
    else
      var step :- ParseStep(s, InitialParse(p, ctx), FirstChar(s, p), t);
      match step
      case Done(last) => Ok(last)
      case More(next) => ParseRest(s, next, t)
  }

  /** The same as a loop that moves begin and collects specs. */
  method ParseFormatSpecs(s: Text, begin: nat, ctx: Context, t: ArgType) returns (r: Result<Parse>)
    requires begin <= |s|
    ensures r == ParseSpecs(s, begin, ctx, t)
  {
    var p := InitialParse(begin, ctx);
    if begin == |s| {
      return Ok(p);
    }
    var c := FirstChar(s, begin);
    while true
      invariant p.pos < |s|
      invariant ParseSpecs(s, begin, ctx, t)
             == match ParseStep(s, p, c, t)
                case Err(e) => Err(e)
                case Ok(Done(last)) => Ok(last)
                case Ok(More(next)) => ParseRest(s, next, t)
      decreases |s| - p.pos
    {
      var step := ParseStep(s, p, c, t);
      match step
      case Err(e) => return Err(e);
      case Ok(Done(last)) => return Ok(last);
      case Ok(More(next)) =>
        p := next;
        if p.pos == |s| {
          return Ok(p);
        }
        c := s[p.pos];
    }
  }

  /** A char argument with a numeric presentation is fine; with a character one it takes no numeric flags. */
  predicate CharSpecsValid(specs: Specs)
  {
    (specs.presentation == NoType || specs.presentation == Chr || specs.presentation == Debug) ==>
      !(specs.align == Numeric || specs.sign != NoSign || specs.alt)
  }

  /** native_formatter::parse: specifiers checked ahead of formatting. */
  function ParseNative(s: Text, p: nat, ctx: Context, t: ArgType): (r: Result<Parse>)
    requires p <= |s|
    ensures r.Ok? ==> p <= r.value.pos <= |s| && Kept(ctx, r.value.ctx)
  {
    if p == |s| || s[p] == '}' then Ok(InitialParse(p, ctx))
    else
      var parse :- ParseSpecs(s, p, ctx, t);
      if t.CharType? && !CharSpecsValid(parse.specs) then Err(InvalidCharSpecifier) else Ok(parse)
  }

  // ---- Two contexts side by side --------------------------------------------------------------------

  /**
   * How the argument counter of constant evaluation (c) may relate to the one at run time (r):
   * they agree, unless the run time has already switched to manual indexing.
   */
  predicate InStep(c: Context, r: Context)
  {
    !r.checks && (r.next == -1 || r.next == c.next)
  }

  /** Both accept the reference: same reference, still in step; and agreeing counters accept alike. */
  lemma RefInStep(s: Text, p: nat, c: Context, r: Context)
    requires p <= |s| && InStep(c, r)
    ensures var a, b := ParseDynamicRef(s, p, c), ParseDynamicRef(s, p, r);
      && (a.Ok? && b.Ok? ==> a.value.0 == b.value.0 && a.value.2 == b.value.2 && InStep(a.value.1, b.value.1))
      && (a.Ok? && c.next == r.next ==> b.Ok? && a.value.1.next == b.value.1.next)
      && (a.Ok? && b.Err? ==> b.error == ManualToAutomatic)
      && (b.Ok? && r.next == -1 ==> b.value.1.next == -1)
  {
  }

  lemma AmountInStep(s: Text, p: nat, c: Context, r: Context)
    requires p < |s| && InStep(c, r)
    ensures var a, b := ParseDynamicSpec(s, p, c), ParseDynamicSpec(s, p, r);
      && (a.Ok? && b.Ok? ==> b.value == a.value.(ctx := b.value.ctx) && InStep(a.value.ctx, b.value.ctx))
      && (a.Ok? && c.next == r.next ==> b.Ok? && a.value.ctx.next == b.value.ctx.next)
      && (a.Ok? && b.Err? ==> b.error == ManualToAutomatic)
      && (b.Ok? && r.next == -1 ==> b.value.ctx.next == -1)
  {
    if !IsDigit(s[p]) && s[p] == '{' {
      RefInStep(s, p + 1, c, r);
    }
  }

  /** Two parses that differ at most in their contexts, which are in step. */
  predicate ParseInStep(a: Parse, b: Parse)
  {
    b == a.(ctx := b.ctx) && InStep(a.ctx, b.ctx)
  }

  predicate StepInStep(a: Step, b: Step)
  {
    match (a, b)
    case (More(x), More(y)) => ParseInStep(x, y)
    case (Done(x), Done(y)) => ParseInStep(x, y)
    case _ => false
  }

  function StepParse(a: Step): Parse
  {
    if a.More? then a.next else a.last
  }

  /** What must hold of one round from counters c and r. */
  predicate RoundsAgree(x: Result<Step>, y: Result<Step>, c: int, r: int)
  {
    && (x.Ok? && y.Ok? ==> StepInStep(x.value, y.value))
    && (x.Ok? && c == r ==> y.Ok? && StepParse(x.value).ctx.next == StepParse(y.value).ctx.next)
    && (x.Ok? && y.Err? ==> y.error == ManualToAutomatic)
    && (y.Ok? && r == -1 ==> StepParse(y.value).ctx.next == -1)
  }

  lemma StepsInStep(s: Text, a: Parse, b: Parse, ch: Unit, t: ArgType)
    requires a.pos < |s| && ParseInStep(a, b)
    ensures RoundsAgree(ParseStep(s, a, ch, t), ParseStep(s, b, ch, t), a.ctx.next, b.ctx.next)
  {
    if '1' <= ch <= '9' || ch == '{' {
      WidthSteps(s, a, b);
    } else if ch == '.' {
      PrecisionSteps(s, a, b, t);
    } else {
      PlainSteps(s, a, b, ch, t);
    }
  }

  lemma WidthSteps(s: Text, a: Parse, b: Parse)
    requires a.pos < |s| && ParseInStep(a, b)
    ensures RoundsAgree(WidthStep(s, a), WidthStep(s, b), a.ctx.next, b.ctx.next)
  {
    hide ParseDynamicSpec;
    AmountInStep(s, a.pos, a.ctx, b.ctx);
  }

  lemma PrecisionSteps(s: Text, a: Parse, b: Parse, t: ArgType)
    requires a.pos < |s| && ParseInStep(a, b)
    ensures RoundsAgree(PrecisionStep(s, a, t), PrecisionStep(s, b, t), a.ctx.next, b.ctx.next)
  {
    hide ParseDynamicSpec;
    if a.pos + 1 < |s| {
      AmountInStep(s, a.pos + 1, a.ctx, b.ctx);
    }
  }

  function Recontext(x: Result<Step>, ctx: Context): Result<Step>
  {
    match x
    case Err(e) => Err(e)
    case Ok(Done(last)) => Ok(Done(last.(ctx := ctx)))
    case Ok(More(next)) => Ok(More(next.(ctx := ctx)))
  }

  predicate IsFlag(ch: Unit)
  {
    ch == '<' || ch == '>' || ch == '^' || ch == '+' || ch == ' ' || ch == '-' || ch == '#' || ch == '0' || ch == 'L'
  }

  /** Every other character is handled without a look at the context. */
  lemma ContextUnused(s: Text, a: Parse, b: Parse, ch: Unit, t: ArgType)
    requires a.pos < |s| && b == a.(ctx := b.ctx)
    requires !('1' <= ch <= '9') && ch != '{' && ch != '.'
    ensures ParseStep(s, b, ch, t) == Recontext(ParseStep(s, a, ch, t), b.ctx)
    ensures var x := ParseStep(s, a, ch, t);
      x.Ok? ==> StepParse(x.value).ctx == a.ctx
  {
    if IsFlag(ch) {
      FlagContext(s, a, b, ch, t);
    } else {
      LetterContext(s, a, b, ch, t);
    }
    hide ParseStep;
  }

  lemma FlagContext(s: Text, a: Parse, b: Parse, ch: Unit, t: ArgType)
    requires a.pos < |s| && b == a.(ctx := b.ctx) && IsFlag(ch)
    ensures ParseStep(s, b, ch, t) == Recontext(ParseStep(s, a, ch, t), b.ctx)
    ensures var x := ParseStep(s, a, ch, t);
      x.Ok? ==> StepParse(x.value).ctx == a.ctx
  {
    hide PresentationOf, IsUpper, ParseAlign, ParseFill, WidthStep, PrecisionStep;
  }

  lemma LetterContext(s: Text, a: Parse, b: Parse, ch: Unit, t: ArgType)
    requires a.pos < |s| && b == a.(ctx := b.ctx)
    requires !('1' <= ch <= '9') && ch != '{' && ch != '.' && !IsFlag(ch)
    ensures ParseStep(s, b, ch, t) == Recontext(ParseStep(s, a, ch, t), b.ctx)
    ensures var x := ParseStep(s, a, ch, t);
      x.Ok? ==> StepParse(x.value).ctx == a.ctx
  {
    hide PresentationOf, IsUpper, ParseFill, WidthStep, PrecisionStep, Enter;
    FillContext(s, a, b);
  }

  /** Which rounds read a size. */
  lemma SizeStep(s: Text, p: Parse, ch: Unit, t: ArgType)
    requires p.pos < |s|
    ensures '1' <= ch <= '9' || ch == '{' ==> ParseStep(s, p, ch, t) == WidthStep(s, p)
    ensures ch == '.' ==> ParseStep(s, p, ch, t) == PrecisionStep(s, p, t)
  {
    hide PresentationOf, IsUpper, ParseFill, WidthStep, PrecisionStep, Enter;
  }

  lemma FillContext(s: Text, a: Parse, b: Parse)
    requires a.pos < |s| && b == a.(ctx := b.ctx)
    ensures ParseFill(s, b) == Recontext(ParseFill(s, a), b.ctx)
    ensures var x := ParseFill(s, a);
      x.Ok? ==> StepParse(x.value).ctx == a.ctx
  {
    hide ParseAlign, CodePointLength;
  }

  lemma PlainSteps(s: Text, a: Parse, b: Parse, ch: Unit, t: ArgType)
    requires a.pos < |s| && ParseInStep(a, b)
    requires !('1' <= ch <= '9') && ch != '{' && ch != '.'
    ensures RoundsAgree(ParseStep(s, a, ch, t), ParseStep(s, b, ch, t), a.ctx.next, b.ctx.next)
  {
    ContextUnused(s, a, b, ch, t);
  }

  /** What must hold of whole parses from counters c and r. */
  predicate ParsesAgree(x: Result<Parse>, y: Result<Parse>, c: int, r: int)
  {
    && (x.Ok? && y.Ok? ==> ParseInStep(x.value, y.value))
    && (x.Ok? && c == r ==> y.Ok? && x.value.ctx.next == y.value.ctx.next)
    && (x.Ok? && y.Err? ==> y.error == ManualToAutomatic)
    && (y.Ok? && r == -1 ==> y.value.ctx.next == -1)
  }

  /** Manual indexing is never left again. */
  lemma {:induction false} ManualStays(s: Text, p: Parse, t: ArgType)
    requires p.pos <= |s| && !p.ctx.checks
    ensures var x := ParseRest(s, p, t);
      x.Ok? && p.ctx.next == -1 ==> x.value.ctx.next == -1
    decreases |s| - p.pos
  {
    if p.pos < |s| {
      StepsInStep(s, p, p, s[p.pos], t);
      var x := ParseStep(s, p, s[p.pos], t);
      if x.Ok? && x.value.More? {
        ManualStays(s, x.value.next, t);
      }
    }
  }

  /** What a round leaves to do. */
  function Resume(s: Text, step: Result<Step>, t: ArgType): Result<Parse>
    requires step.Ok? ==> StepParse(step.value).pos <= |s|
  {
    match step
    case Err(e) => Err(e)
    case Ok(Done(last)) => Ok(last)
    case Ok(More(next)) => ParseRest(s, next, t)
  }

  function Remaining(s: Text, step: Result<Step>): int
  {
    if step.Ok? && step.value.More? then |s| - step.value.next.pos else 0
  }

  lemma {:induction false} ResumeInStep(s: Text, x: Result<Step>, y: Result<Step>, t: ArgType, c: int, r: int)
    requires (x.Ok? ==> StepParse(x.value).pos <= |s|) && (y.Ok? ==> StepParse(y.value).pos <= |s|)
    requires RoundsAgree(x, y, c, r) && (y.Ok? ==> !StepParse(y.value).ctx.checks)
    ensures ParsesAgree(Resume(s, x, t), Resume(s, y, t), c, r)
    decreases Remaining(s, x), 1
  {
    if x.Ok? && x.value.More? && y.Ok? {
      RestInStep(s, x.value.next, y.value.next, t);
    } else if y.Ok? && y.value.More? {
      ManualStays(s, y.value.next, t);
    }
  }

  lemma {:induction false} RestInStep(s: Text, a: Parse, b: Parse, t: ArgType)
    requires a.pos <= |s| && ParseInStep(a, b)
    ensures ParsesAgree(ParseRest(s, a, t), ParseRest(s, b, t), a.ctx.next, b.ctx.next)
    decreases |s| - a.pos, 0
  {
    if a.pos < |s| {
      var x, y := ParseStep(s, a, s[a.pos], t), ParseStep(s, b, s[a.pos], t);
      StepsInStep(s, a, b, s[a.pos], t);
      StepsInStep(s, b, b, s[a.pos], t);
      ResumeInStep(s, x, y, t, a.ctx.next, b.ctx.next);
    }
  }

  /**
   * Parsing the same specifiers in a constant-evaluation context and at run time: if both accept,
   * they collect the same specifiers and stay in step; if the counters agreed at the start, the run
   * time accepts whatever constant evaluation accepts, and otherwise it can only complain about the
   * switch back to automatic indexing.
   */
  lemma SpecsInStep(s: Text, p: nat, c: Context, r: Context, t: ArgType)
    requires p <= |s| && InStep(c, r)
    ensures ParsesAgree(ParseSpecs(s, p, c, t), ParseSpecs(s, p, r, t), c.next, r.next)
  {
    if p < |s| {
      var a, b := InitialParse(p, c), InitialParse(p, r);
      var ch := FirstChar(s, p);
      StepsInStep(s, a, b, ch, t);
      StepsInStep(s, b, b, ch, t);
      ResumeInStep(s, ParseStep(s, a, ch, t), ParseStep(s, b, ch, t), t, c.next, r.next);
    }
  }

  /** At a closing brace there is nothing to parse, so checking ahead sees the same specifiers. */
  lemma NativeIsSpecs(s: Text, p: nat, ctx: Context, t: ArgType)
    requires p <= |s|
    ensures var x, y := ParseNative(s, p, ctx, t), ParseSpecs(s, p, ctx, t);
      && (x.Ok? ==> x == y)
      && (y.Ok? ==> x.Ok? || (x.error == InvalidCharSpecifier && t.CharType? && !CharSpecsValid(y.value.specs)))
      && (x.Ok? ==> !(t.CharType? && !CharSpecsValid(x.value.specs)))
  {
    if p < |s| && s[p] == '}' {
      BraceAtOnce(s, p, ctx, t);
    }
    hide ParseSpecs;
  }

  /** A closing brace ends the specifiers before they begin. */
  lemma BraceAtOnce(s: Text, p: nat, ctx: Context, t: ArgType)
    requires p < |s| && s[p] == '}'
    ensures ParseSpecs(s, p, ctx, t) == Ok(InitialParse(p, ctx))
  {
    assert PresentationOf('}', t) == None && PresentationOf('\0', t) == None;
  }

  /** The same for specifiers checked ahead of formatting. */
  lemma NativeInStep(s: Text, p: nat, c: Context, r: Context, t: ArgType)
    requires p <= |s| && InStep(c, r)
    ensures ParsesAgree(ParseNative(s, p, c, t), ParseSpecs(s, p, r, t), c.next, r.next)
    ensures var x := ParseNative(s, p, c, t);
      x.Ok? ==> !(t.CharType? && !CharSpecsValid(x.value.specs))
  {
    SpecsInStep(s, p, c, r, t);
    NativeIsSpecs(s, p, c, t);
  }

  // ---- What constant evaluation rejects ---------------------------------------------------------------

  /** A reference that the context's extra checks object to, or, if names says so, one by name. */
  predicate BadRef(ctx: Context, ref: ArgRef, names: bool)
  {
    || (names && ref.Name?)
    || (ctx.checks && ref.Index?
        && (ref.id >= ctx.numArgs
            || (ctx.types.Some? && 0 <= ref.id < |ctx.types.value| && !ctx.types.value[ref.id].Integral())))
  }

  /** Counters that agree; a compiler context starts over at 0 where the run time is manual. */
  predicate Level(c: Context, r: Context)
  {
    !r.checks && (c.next == r.next || (c.next == 0 && r.next == -1))
  }

  /** A bad reference the parser has taken in and will not replace. */
  predicate Lost(ctx: Context, p: Parse, names: bool)
  {
    || (p.state.Rank() >= WidthState.Rank() && BadRef(ctx, p.specs.widthRef, names))
    || (p.state.Rank() >= PrecisionState.Rank() && BadRef(ctx, p.specs.precisionRef, names))
  }

  lemma RefLevel(s: Text, p: nat, c: Context, r: Context)
    requires p <= |s| && Level(c, r)
    ensures var a, b := ParseDynamicRef(s, p, c), ParseDynamicRef(s, p, r);
      b.Ok? ==>
        if a.Err? then BadRef(c, b.value.0, false)
        else a.value.0 == b.value.0 && a.value.2 == b.value.2 && Level(a.value.1, b.value.1)
  {
  }

  lemma AmountLevel(s: Text, p: nat, c: Context, r: Context)
    requires p < |s| && Level(c, r)
    ensures var a, b := ParseDynamicSpec(s, p, c), ParseDynamicSpec(s, p, r);
      b.Ok? ==>
        if a.Err? then BadRef(c, b.value.ref, false)
        else b.value == a.value.(ctx := b.value.ctx) && Level(a.value.ctx, b.value.ctx)
  {
    if !IsDigit(s[p]) && s[p] == '{' {
      RefLevel(s, p + 1, c, r);
    }
  }

  predicate ParseLevel(a: Parse, b: Parse)
  {
    b == a.(ctx := b.ctx) && Level(a.ctx, b.ctx)
  }

  /** What one round makes of parses that are level: if only the checked one fails, the other keeps a bad reference. */
  predicate RoundsLevel(x: Result<Step>, y: Result<Step>, c: Context)
  {
    y.Ok? ==>
      if x.Err? then Lost(c, StepParse(y.value), false)
      else
        match (x.value, y.value)
        case (More(a), More(b)) => ParseLevel(a, b)
        case (Done(a), Done(b)) => ParseLevel(a, b)
        case _ => false
  }

  lemma StepsLevel(s: Text, a: Parse, b: Parse, ch: Unit, t: ArgType)
    requires a.pos < |s| && ParseLevel(a, b)
    ensures RoundsLevel(ParseStep(s, a, ch, t), ParseStep(s, b, ch, t), a.ctx)
  {
    if '1' <= ch <= '9' || ch == '{' {
      WidthLevel(s, a, b);
    } else if ch == '.' {
      PrecisionLevel(s, a, b, t);
    } else {
      ContextUnused(s, a, b, ch, t);
      hide ParseStep;
    }
  }

  lemma WidthLevel(s: Text, a: Parse, b: Parse)
    requires a.pos < |s| && ParseLevel(a, b)
    ensures RoundsLevel(WidthStep(s, a), WidthStep(s, b), a.ctx)
  {
    hide ParseDynamicSpec;
    AmountLevel(s, a.pos, a.ctx, b.ctx);
  }

  lemma PrecisionLevel(s: Text, a: Parse, b: Parse, t: ArgType)
    requires a.pos < |s| && ParseLevel(a, b)
    ensures RoundsLevel(PrecisionStep(s, a, t), PrecisionStep(s, b, t), a.ctx)
  {
    hide ParseDynamicSpec;
    if a.pos + 1 < |s| {
      AmountLevel(s, a.pos + 1, a.ctx, b.ctx);
    }
  }

  /** Characters other than those of a width or precision leave the references alone. */
  lemma RefsKept(s: Text, p: Parse, ch: Unit, t: ArgType)
    requires p.pos < |s| && !('1' <= ch <= '9') && ch != '{' && ch != '.'
    ensures var x := ParseStep(s, p, ch, t);
      x.Ok? ==> var q := StepParse(x.value);
        && q.specs.widthRef == p.specs.widthRef && q.specs.precisionRef == p.specs.precisionRef
        && q.state.Rank() >= p.state.Rank()
  {
    hide PresentationOf;
    hide ParseAlign;
    hide CodePointLength;
    hide IsUpper;
  }

  /** Once taken in, a bad reference stays: neither a width nor a precision is parsed twice. */
  lemma StillLost(s: Text, p: Parse, ch: Unit, t: ArgType, c: Context, names: bool)
    requires p.pos < |s| && Lost(c, p, names)
    ensures var x := ParseStep(s, p, ch, t);
      x.Ok? ==> Lost(c, StepParse(x.value), names)
  {
    hide BadRef;
    if '1' <= ch <= '9' || ch == '{' {
      assert WidthStep(s, p).Err?;
    } else if ch == '.' {
      PrecisionLost(s, p, t, c, names);
    } else {
      RefsKept(s, p, ch, t);
      hide ParseStep;
    }
  }

  lemma PrecisionLost(s: Text, p: Parse, t: ArgType, c: Context, names: bool)
    requires p.pos < |s| && Lost(c, p, names)
    ensures var x := PrecisionStep(s, p, t);
      x.Ok? ==> Lost(c, x.value.next, names)
  {
    hide BadRef;
    hide ParseDynamicSpec;
  }

  lemma {:induction false} StaysLost(s: Text, p: Parse, t: ArgType, c: Context, names: bool)
    requires p.pos <= |s| && Lost(c, p, names)
    ensures var x := ParseRest(s, p, t);
      x.Ok? ==> Lost(c, x.value, names)
    decreases |s| - p.pos
  {
    if p.pos < |s| {
      StillLost(s, p, s[p.pos], t, c, names);
      var x := ParseStep(s, p, s[p.pos], t);
      hide ParseStep;
      if x.Ok? && x.value.More? {
        StaysLost(s, x.value.next, t, c, names);
      }
    }
  }

  predicate ParsesLevel(x: Result<Parse>, y: Result<Parse>, c: Context)
  {
    y.Ok? ==> if x.Err? then Lost(c, y.value, false) else ParseLevel(x.value, y.value)
  }

  lemma {:induction false} ResumeLevel(s: Text, x: Result<Step>, y: Result<Step>, t: ArgType, c: Context)
    requires (x.Ok? ==> StepParse(x.value).pos <= |s|) && (y.Ok? ==> StepParse(y.value).pos <= |s|)
    requires RoundsLevel(x, y, c) && (x.Ok? ==> Kept(c, StepParse(x.value).ctx))
    ensures ParsesLevel(Resume(s, x, t), Resume(s, y, t), c)
    decreases Remaining(s, x), 1
  {
    if x.Ok? && x.value.More? && y.Ok? {
      RestLevel(s, x.value.next, y.value.next, t);
    } else if y.Ok? && y.value.More? {
      StaysLost(s, y.value.next, t, c, false);
    }
  }

  lemma {:induction false} RestLevel(s: Text, a: Parse, b: Parse, t: ArgType)
    requires a.pos <= |s| && ParseLevel(a, b)
    ensures ParsesLevel(ParseRest(s, a, t), ParseRest(s, b, t), a.ctx)
    decreases |s| - a.pos, 0
  {
    if a.pos < |s| {
      var x, y := ParseStep(s, a, s[a.pos], t), ParseStep(s, b, s[a.pos], t);
      StepsLevel(s, a, b, s[a.pos], t);
      hide ParseStep;
      ResumeLevel(s, x, y, t, a.ctx);
    }
  }

  /**
   * Where the run time accepts specifiers, a checking context on the same count does too, unless
   * they refer to an argument that does not exist or is no integer.
   */
  lemma SpecsLevel(s: Text, p: nat, c: Context, r: Context, t: ArgType)
    requires p <= |s| && Level(c, r)
    ensures ParsesLevel(ParseSpecs(s, p, c, t), ParseSpecs(s, p, r, t), c)
  {
    if p < |s| {
      var a, b := InitialParse(p, c), InitialParse(p, r);
      var ch := FirstChar(s, p);
      StepsLevel(s, a, b, ch, t);
      var x, y := ParseStep(s, a, ch, t), ParseStep(s, b, ch, t);
      hide ParseStep;
      ResumeLevel(s, x, y, t, c);
    }
  }

  /** The same for specifiers checked ahead of formatting. */
  lemma NativeLevel(s: Text, p: nat, c: Context, r: Context, t: ArgType)
    requires p <= |s| && Level(c, r)
    ensures var x, y := ParseNative(s, p, c, t), ParseSpecs(s, p, r, t);
      y.Ok? ==>
        if x.Err? then Lost(c, y.value, false) || (t.CharType? && !CharSpecsValid(y.value.specs))
        else ParseLevel(x.value, y.value)
  {
    SpecsLevel(s, p, c, r, t);
    NativeIsSpecs(s, p, c, t);
  }

  /** What a context does not object to: an index that it knows of, and that belongs to an integral argument. */
  predicate GoodRef(ctx: Context, ref: ArgRef)
  {
    !BadRef(ctx, ref, false) && (ref.Index? ==> ref.id >= 0)
  }

  predicate GoodRefs(ctx: Context, specs: Specs)
  {
    GoodRef(ctx, specs.widthRef) && GoodRef(ctx, specs.precisionRef)
  }

  lemma AmountGood(s: Text, p: nat, ctx: Context)
    requires p < |s|
    ensures var a := ParseDynamicSpec(s, p, ctx);
      a.Ok? ==> forall n: int :: GoodRef(ctx.(next := n), a.value.ref)
  {
    if !IsDigit(s[p]) && s[p] == '{' && p + 1 < |s| && s[p + 1] != '}' && s[p + 1] != ':' {
      IndexNotNegative(s, p + 1);
    }
    hide ParseArgId;
  }

  lemma IndexNotNegative(s: Text, p: nat)
    requires p < |s|
    ensures var r := ParseArgId(s, p);
      r.Ok? && r.value.0.Index? ==> r.value.0.id >= 0
  {
    hide Decimal, DigitsEnd, NameEnd;
  }

  lemma WidthGood(s: Text, p: Parse, ctx: Context)
    requires p.pos < |s| && GoodRefs(ctx, p.specs) && Kept(ctx, p.ctx)
    ensures var x := WidthStep(s, p);
      x.Ok? ==> GoodRefs(ctx, x.value.next.specs)
  {
    hide ParseDynamicSpec, BadRef;
    AmountGood(s, p.pos, p.ctx);
    assert ctx == p.ctx.(next := ctx.next);
  }

  lemma PrecisionGood(s: Text, p: Parse, t: ArgType, ctx: Context)
    requires p.pos < |s| && GoodRefs(ctx, p.specs) && Kept(ctx, p.ctx)
    ensures var x := PrecisionStep(s, p, t);
      x.Ok? ==> GoodRefs(ctx, x.value.next.specs)
  {
    hide ParseDynamicSpec, BadRef;
    if p.pos + 1 < |s| {
      AmountGood(s, p.pos + 1, p.ctx);
      assert ctx == p.ctx.(next := ctx.next);
    }
  }

  lemma StepGood(s: Text, p: Parse, ch: Unit, t: ArgType, ctx: Context)
    requires p.pos < |s| && GoodRefs(ctx, p.specs) && Kept(ctx, p.ctx)
    ensures var x := ParseStep(s, p, ch, t);
      x.Ok? ==> GoodRefs(ctx, StepParse(x.value).specs) && Kept(ctx, StepParse(x.value).ctx)
  {
    hide ParseStep, GoodRef, BadRef;
    SizeStep(s, p, ch, t);
    if '1' <= ch <= '9' || ch == '{' {
      WidthGood(s, p, ctx);
    } else if ch == '.' {
      PrecisionGood(s, p, t, ctx);
    } else {
      RefsKept(s, p, ch, t);
    }
  }

  lemma {:induction false} RestGood(s: Text, p: Parse, t: ArgType, ctx: Context)
    requires p.pos <= |s| && GoodRefs(ctx, p.specs) && Kept(ctx, p.ctx)
    ensures var x := ParseRest(s, p, t);
      x.Ok? ==> GoodRefs(ctx, x.value.specs)
    decreases |s| - p.pos
  {
    if p.pos < |s| {
      hide ParseStep, GoodRefs;
      StepGood(s, p, s[p.pos], t, ctx);
      var x := ParseStep(s, p, s[p.pos], t);
      if x.Ok? && x.value.More? {
        RestGood(s, x.value.next, t, ctx);
      }
    }
  }

  /**
   * The converse of SpecsLevel: in specifiers that a checking context accepts no size refers to an
   * index that does not exist or to an argument that is not integral.
   */
  lemma SpecsGood(s: Text, p: nat, ctx: Context, t: ArgType)
    requires p <= |s|
    ensures var x := ParseSpecs(s, p, ctx, t);
      x.Ok? ==> GoodRefs(ctx, x.value.specs)
  {
    assert GoodRefs(ctx, DefaultSpecs());
    if p < |s| {
      hide ParseStep, GoodRefs;
      var a, ch := InitialParse(p, ctx), FirstChar(s, p);
      StepGood(s, a, ch, t, ctx);
      var x := ParseStep(s, a, ch, t);
      if x.Ok? && x.value.More? {
        RestGood(s, x.value.next, t, ctx);
      }
    }
  }

  /** Automatic numbering goes up by less than the text read. */
  predicate Counted(p: Parse, q: Parse)
  {
    -1 <= q.ctx.next <= p.ctx.next + (q.pos - p.pos)
  }

  lemma AmountCounted(s: Text, p: nat, ctx: Context)
    requires p < |s| && ctx.next >= -1
    ensures var a := ParseDynamicSpec(s, p, ctx);
      a.Ok? ==> -1 <= a.value.ctx.next <= ctx.next + (a.value.end - p)
  {
  }

  lemma WidthCounted(s: Text, p: Parse)
    requires p.pos < |s| && p.ctx.next >= -1
    ensures var x := WidthStep(s, p);
      x.Ok? ==> Counted(p, x.value.next)
  {
    hide ParseDynamicSpec;
    AmountCounted(s, p.pos, p.ctx);
  }

  lemma PrecisionCounted(s: Text, p: Parse, t: ArgType)
    requires p.pos < |s| && p.ctx.next >= -1
    ensures var x := PrecisionStep(s, p, t);
      x.Ok? ==> Counted(p, x.value.next)
  {
    hide ParseDynamicSpec;
    if p.pos + 1 < |s| {
      AmountCounted(s, p.pos + 1, p.ctx);
    }
  }

  lemma StepCounted(s: Text, p: Parse, ch: Unit, t: ArgType)
    requires p.pos < |s| && p.ctx.next >= -1
    ensures var x := ParseStep(s, p, ch, t);
      x.Ok? ==> Counted(p, StepParse(x.value))
  {
    if '1' <= ch <= '9' || ch == '{' {
      WidthCounted(s, p);
    } else if ch == '.' {
      PrecisionCounted(s, p, t);
    } else {
      ContextUnused(s, p, p, ch, t);
      hide ParseStep;
    }
  }

  lemma {:induction false} RestCounted(s: Text, p: Parse, t: ArgType)
    requires p.pos <= |s| && p.ctx.next >= -1
    ensures var x := ParseRest(s, p, t);
      x.Ok? ==> Counted(p, x.value)
    decreases |s| - p.pos
  {
    if p.pos < |s| {
      StepCounted(s, p, s[p.pos], t);
      var x := ParseStep(s, p, s[p.pos], t);
      hide ParseStep;
      if x.Ok? && x.value.More? {
        RestCounted(s, x.value.next, t);
      }
    }
  }

  lemma SpecsCounted(s: Text, p: nat, ctx: Context, t: ArgType)
    requires p <= |s| && ctx.next >= -1
    ensures var x := ParseSpecs(s, p, ctx, t);
      x.Ok? ==> Counted(InitialParse(p, ctx), x.value)
  {
    if p < |s| {
      var a, ch := InitialParse(p, ctx), FirstChar(s, p);
      StepCounted(s, a, ch, t);
      var x := ParseStep(s, a, ch, t);
      hide ParseStep;
      if x.Ok? && x.value.More? {
        RestCounted(s, x.value.next, t);
      }
    }
  }
}
