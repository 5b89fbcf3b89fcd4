/** The documented grammar of format specifications, and that each of its sentences is parsed to its meaning. */
module FormatGrammar {
  import opened Common
  import opened FormatSpec

  // ---- Sentences ------------------------------------------------------------------------------------

  /** A width or precision as written. */
  datatype Size = NoSize | Number(digits: Text) | Automatic | ByIndex(digits: Text) | ByName(name: Text)

  /** [[fill]align][sign]["#"]["0"][width]["." precision]["L"][type] */
  datatype Sentence = Sentence(
    fill: Text, align: Align, sign: Option<Unit>, alt: bool, zero: bool, width: Size, precision: Size, localized: bool,
    ty: Option<Unit>)

  function AlignChar(a: Align): Unit
  {
    match a
    case Left => '<'
    case Right => '>'
    case Center => '^'
    case _ => '\0'
  }

  function SizeText(size: Size): Text
  {
    match size
    case NoSize => ""
    case Number(digits) => digits
    case Automatic => "{}"
    case ByIndex(digits) => "{" + digits + "}"
    case ByName(name) => "{" + name + "}"
  }

  function AlignText(f: Sentence): Text
  {
    if f.align == NoAlign then "" else f.fill + [AlignChar(f.align)]
  }

  function SignText(f: Sentence): Text
  {
    if f.sign.Some? then [f.sign.value] else ""
  }

  function PrecisionText(f: Sentence): Text
  {
    if f.precision == NoSize then "" else "." + SizeText(f.precision)
  }

  function FlagText(b: bool, c: Unit): Text
  {
    if b then [c] else ""
  }

  function TypeText(f: Sentence): Text
  {
    if f.ty.Some? then [f.ty.value] else ""
  }

  /** The parts from the precision on. */
  function LateText(f: Sentence): Text
  {
    PrecisionText(f) + FlagText(f.localized, 'L') + TypeText(f)
  }

  /** The parts after the alignment. */
  function TailText(f: Sentence): Text
  {
    SignText(f) + FlagText(f.alt, '#') + FlagText(f.zero, '0') + SizeText(f.width) + LateText(f)
  }

  function Write(f: Sentence): Text
  {
    AlignText(f) + TailText(f)
  }

  // ---- Which sentences there are --------------------------------------------------------------------

  /** The number some digits stand for. */
  function NumberOf(d: Text): nat
  {
    if forall i :: 0 <= i < |d| ==> IsDigit(d[i]) then Decimal(d, 0, |d|) else 0
  }

  predicate Digits(d: Text)
  {
    d != [] && forall i :: 0 <= i < |d| ==> IsDigit(d[i])
  }

  /** What the parser takes as a number: at most ten digits that fit an int. */
  predicate Bounded(d: Text)
  {
    |d| <= 10 && NumberOf(d) <= INT_MAX
  }

  /** An index that is too large is taken for the largest int, which no argument has. */
  function IndexOf(d: Text): nat
  {
    if Bounded(d) then NumberOf(d) else INT_MAX
  }

  predicate IsName(n: Text)
  {
    n != [] && IsNameStart(n[0]) && forall i :: 1 <= i < |n| ==> IsNameStart(n[i]) || IsDigit(n[i])
  }

  predicate SizeOk(size: Size)
  {
    match size
    case NoSize => true
    case Number(digits) => Digits(digits)
    case Automatic => true
    case ByIndex(digits) => Digits(digits) && (digits[0] == '0' ==> |digits| == 1)
    case ByName(name) => IsName(name)
  }

  /** A number written as a size is small enough. */
  predicate Fits(size: Size)
  {
    size.Number? ==> Bounded(size.digits)
  }

  predicate Fit(f: Sentence)
  {
    Fits(f.width) && Fits(f.precision)
  }

  /** A code point other than a brace. */
  predicate FillOk(fill: Text)
  {
    fill != [] && fill[0] != '{' && fill[0] != '}' && |fill| == CodePointLength(fill[0])
  }

  // What is allowed for each type of argument.

  predicate TakesSign(t: ArgType)
  {
    match t
    case IntType | LongLongType | Int128Type | FloatType | DoubleType | LongDoubleType => true
    case _ => false
  }

  /** Whether the alternate form, zero padding and the locale make sense: for numbers, bool and char included. */
  predicate TakesFlags(t: ArgType)
  {
    match t
    case StringType | CStringType | PointerType => false
    case _ => true
  }

  predicate TakesPrecision(t: ArgType)
  {
    match t
    case FloatType | DoubleType | LongDoubleType | StringType | CStringType => true
    case _ => false
  }

  /** The presentation types of each type of argument; bool takes s as well, and C strings p. */
  function Letters(t: ArgType): Text
  {
    match t
    case IntType | UIntType | LongLongType | ULongLongType | Int128Type | UInt128Type => "bBcdoxX"
    case BoolType => "bBdosxX"
    case CharType => "bBcdoxX?"
    case FloatType | DoubleType | LongDoubleType => "aAeEfFgG"
    case StringType => "s?"
    case CStringType => "sp?"
    case PointerType => "p"
  }

  /** What the grammar and the argument type allow. */
  predicate SentenceOk(f: Sentence, t: ArgType)
  {
    && f.align != Numeric && (f.fill != [] ==> f.align != NoAlign && FillOk(f.fill))
    && (f.sign.Some? ==> f.sign.value in "+- " && TakesSign(t))
    && ((f.alt || f.zero || f.localized) ==> TakesFlags(t))
    && SizeOk(f.width) && (f.width.Number? ==> f.width.digits[0] != '0')
    && SizeOk(f.precision) && (f.precision != NoSize ==> TakesPrecision(t))
    && (f.ty.Some? ==> f.ty.value in Letters(t))
  }

  // ---- What they mean -------------------------------------------------------------------------------

  /** The reference of a dynamic size and the numbering after it. */
  function SizeRef(size: Size, next: int): Option<(ArgRef, int)>
  {
    match size
    case Automatic => if next < 0 then None else Some((Index(next), next + 1))
    case ByIndex(digits) => if next > 0 then None else Some((Index(IndexOf(digits)), -1))
    case ByName(name) => Some((Name(name), -1))
    case _ => Some((NoRef, next))
  }

  /** The numbering after a size. */
  function NextAfter(size: Size, next: int): int
  {
    var r := SizeRef(size, next);
    if r.Some? then r.value.1 else next
  }

  function SizeNumber(size: Size, none: int): int
  {
    if size.Number? then NumberOf(size.digits) else none
  }

  /** The presentation a type letter asks for. */
  function TypeMeaning(c: Unit): Presentation
  {
    if c in "bB" then Bin
    else if c == 'o' then Oct
    else if c == 'd' then Dec
    else if c in "xX" then Hex
    else if c in "eE" then Exp
    else if c in "fF" then FixedPoint
    else if c in "gG" then General
    else if c in "aA" then HexFloat
    else if c == 'c' then Chr
    else if c == 's' then Str
    else if c == '?' then Debug
    else if c == 'p' then Ptr
    else NoType
  }

  function SignMeaning(sign: Option<Unit>): SignSpec
  {
    if sign == Some('+') then Plus else if sign == Some(' ') then Space else NoSign
  }

  /** What the sentence sets, given the numbers its sizes stand for. */
  function Settings(f: Sentence, width: int, precision: int): Specs
  {
    Specs(
      if f.ty.Some? then TypeMeaning(f.ty.value) else NoType,
      if f.align != NoAlign then f.align else if f.zero then Numeric else NoAlign,
      SignMeaning(f.sign),
      f.ty.Some? && f.ty.value in "XBEFGA",
      f.alt, f.localized,
      if f.fill != [] then f.fill else if f.zero && f.align == NoAlign then "0" else " ",
      width, precision, NoRef, NoRef)
  }

  /** The same while the arguments its sizes refer to are not known. */
  function Meaning(f: Sentence, w: ArgRef, p: ArgRef): Specs
  {
    Settings(f, SizeNumber(f.width, 0), SizeNumber(f.precision, -1)).(widthRef := w, precisionRef := p)
  }

  // ---- Reading what was written -----------------------------------------------------------------------

  predicate At(s: Text, p: nat, text: Text)
  {
    p + |text| <= |s| && s[p..p + |text|] == text
  }

  lemma AtParts(s: Text, p: nat, a: Text, b: Text)
    requires At(s, p, a + b)
    ensures At(s, p, a) && At(s, p + |a|, b)
  {
    assert s[p..p + |a|] == (a + b)[..|a|];
    assert s[p + |a|..p + |a| + |b|] == (a + b)[|a|..];
  }

  lemma {:induction false} DigitsRead(s: Text, p: nat, d: Text, k: nat)
    requires At(s, p, d) && k <= |d| && (forall i :: 0 <= i < |d| ==> IsDigit(d[i]))
    requires p + |d| == |s| || !IsDigit(s[p + |d|])
    ensures DigitsEnd(s, p + k) == p + |d|
    decreases |d| - k
  {
    if k < |d| {
      assert s[p + k] == s[p..p + |d|][k] == d[k];
      DigitsRead(s, p, d, k + 1);
    }
  }

  lemma {:induction false} DecimalRead(s: Text, p: nat, d: Text, k: nat)
    requires At(s, p, d) && k <= |d| && (forall i :: 0 <= i < |d| ==> IsDigit(d[i]))
    ensures (forall i :: p <= i < p + k ==> IsDigit(s[i])) && Decimal(s, p, p + k) == Decimal(d, 0, k)
    decreases k
  {
    if k > 0 {
      DecimalRead(s, p, d, k - 1);
      assert s[p + (k - 1)] == s[p..p + |d|][k - 1] == d[k - 1];
    }
  }

  lemma Head(s: Text, p: nat, text: Text)
    requires At(s, p, text) && text != []
    ensures p < |s| && s[p] == text[0]
  {
    assert s[p] == s[p..p + |text|][0];
  }

  lemma NumberRead(s: Text, p: nat, d: Text, onError: int)
    requires At(s, p, d) && Digits(d) && (p + |d| == |s| || !IsDigit(s[p + |d|]))
    ensures p < |s| && IsDigit(s[p]) && s[p] == d[0]
    ensures ParseInt(s, p, onError) == (if Bounded(d) then NumberOf(d) else onError, p + |d|)
  {
    Head(s, p, d);
    DigitsRead(s, p, d, 0);
    DecimalRead(s, p, d, |d|);
    hide At;
  }

  lemma {:induction false} NameRead(s: Text, p: nat, n: Text, k: nat)
    requires At(s, p, n) && IsName(n) && 1 <= k <= |n| && p + |n| < |s| && (s[p + |n|] == '}' || s[p + |n|] == ':')
    ensures NameEnd(s, p + k) == p + |n|
    decreases |n| - k
  {
    if k < |n| {
      assert s[p + k] == s[p..p + |n|][k] == n[k];
      NameRead(s, p, n, k + 1);
    }
  }

  /** A written argument index is read. */
  lemma IndexRead(s: Text, p: nat, digits: Text)
    requires At(s, p, digits) && Digits(digits) && (digits[0] == '0' ==> |digits| == 1)
    requires p + |digits| < |s| && (s[p + |digits|] == '}' || s[p + |digits|] == ':')
    ensures p < |s| && s[p] != '{' && s[p] != '}' && s[p] != ':'
    ensures ParseArgId(s, p) == Ok((Index(IndexOf(digits)), p + |digits|))
  {
    NumberRead(s, p, digits, INT_MAX);
    if digits[0] == '0' {
      assert Decimal(digits, 0, 1) == Decimal(digits, 0, 0) * 10 + DigitValue('0');
    }
    hide At;
    hide Decimal;
  }

  lemma NamedRead(s: Text, p: nat, name: Text)
    requires At(s, p, name) && IsName(name) && p + |name| < |s| && (s[p + |name|] == '}' || s[p + |name|] == ':')
    ensures p < |s| && s[p] != '{' && s[p] != '}' && s[p] != ':'
    ensures ParseArgId(s, p) == Ok((Name(name), p + |name|))
  {
    Head(s, p, name);
    NameRead(s, p, name, 1);
  }

  /** A written size is read as what it stands for, unless it is too large a number. */
  lemma SizeRead(s: Text, p: nat, size: Size, next: int)
    requires SizeOk(size) && size != NoSize && At(s, p, SizeText(size)) && p + |SizeText(size)| < |s|
    requires size.Number? ==> !IsDigit(s[p + |SizeText(size)|])
    requires SizeRef(size, next).Some?
    ensures p < |s|
    ensures var (ref, n) := SizeRef(size, next).value;
      ParseDynamicSpec(s, p, RuntimeContext(next))
        == if !Fits(size) then Err(NumberTooBig)
           else Ok(Amount(if size.Number? then Some(SizeNumber(size, 0)) else None, ref, RuntimeContext(n),
                          p + |SizeText(size)|))
  {
    hide At, Digits, Bounded, NumberOf, IsName, ParseDynamicSpec;
    match size
    case Number(digits) => NumberSize(s, p, digits, RuntimeContext(next));
    case Automatic => AutomaticSize(s, p, next);
    case ByIndex(digits) => IndexSize(s, p, digits, next);
    case ByName(name) => NameSize(s, p, name, next);
  }

  lemma NumberSize(s: Text, p: nat, digits: Text, ctx: Context)
    requires At(s, p, digits) && Digits(digits) && p + |digits| < |s| && !IsDigit(s[p + |digits|])
    ensures p < |s|
    ensures ParseDynamicSpec(s, p, ctx)
         == if Bounded(digits) then Ok(Amount(Some(NumberOf(digits)), NoRef, ctx, p + |digits|)) else Err(NumberTooBig)
  {
    hide At, Decimal, ParseInt;
    NumberRead(s, p, digits, -1);
    NumberSpec(s, p, ctx);
  }

  lemma AutomaticSize(s: Text, p: nat, next: nat)
    requires At(s, p, "{}")
    ensures p < |s|
    ensures ParseDynamicSpec(s, p, RuntimeContext(next))
         == Ok(Amount(None, Index(next), RuntimeContext(next + 1), p + 2))
  {
    assert s[p] == s[p..p + 2][0] && s[p + 1] == s[p..p + 2][1];
    hide At;
    AutomaticSpec(s, p, next);
  }

  lemma IndexSize(s: Text, p: nat, digits: Text, next: int)
    requires At(s, p, "{" + digits + "}") && Digits(digits) && (digits[0] == '0' ==> |digits| == 1) && next <= 0
    ensures p < |s|
    ensures ParseDynamicSpec(s, p, RuntimeContext(next))
         == Ok(Amount(None, Index(IndexOf(digits)), RuntimeContext(-1), p + |digits| + 2))
  {
    hide At, ParseArgId, ParseDynamicSpec;
    InBraces(s, p, digits);
    IndexRead(s, p + 1, digits);
    ReferenceSpec(s, p, next, Index(IndexOf(digits)), p + 1 + |digits|);
  }

  lemma NameSize(s: Text, p: nat, name: Text, next: int)
    requires At(s, p, "{" + name + "}") && IsName(name)
    ensures p < |s|
    ensures ParseDynamicSpec(s, p, RuntimeContext(next))
         == Ok(Amount(None, Name(name), RuntimeContext(-1), p + |name| + 2))
  {
    hide At, ParseArgId, ParseDynamicSpec;
    InBraces(s, p, name);
    NamedRead(s, p + 1, name);
    ReferenceSpec(s, p, next, Name(name), p + 1 + |name|);
  }

  lemma NumberSpec(s: Text, p: nat, ctx: Context)
    requires p < |s| && IsDigit(s[p])
    ensures var (v, q) := ParseInt(s, p, -1);
      ParseDynamicSpec(s, p, ctx) == if v == -1 then Err(NumberTooBig) else Ok(Amount(Some(v), NoRef, ctx, q))
  {
    hide ParseInt;
  }

  lemma AutomaticSpec(s: Text, p: nat, next: nat)
    requires p + 1 < |s| && s[p] == '{' && s[p + 1] == '}'
    ensures ParseDynamicSpec(s, p, RuntimeContext(next))
         == Ok(Amount(None, Index(next), RuntimeContext(next + 1), p + 2))
  {
    assert ParseDynamicRef(s, p + 1, RuntimeContext(next)) == Ok((Index(next), RuntimeContext(next + 1), p + 1));
  }

  /** What is between the braces was read as a reference up to q. */
  lemma ReferenceSpec(s: Text, p: nat, next: int, ref: ArgRef, q: nat)
    requires p + 1 < |s| && s[p] == '{' && s[p + 1] != '}' && s[p + 1] != ':'
    requires ParseArgId(s, p + 1) == Ok((ref, q)) && q < |s| && s[q] == '}' && (ref.Index? ==> next <= 0)
    ensures ParseDynamicSpec(s, p, RuntimeContext(next)) == Ok(Amount(None, ref, RuntimeContext(-1), q + 1))
  {
    hide ParseArgId;
    assert ParseDynamicRef(s, p + 1, RuntimeContext(next)) == Ok((ref, RuntimeContext(-1), q));
  }

  lemma InBraces(s: Text, p: nat, inner: Text)
    requires At(s, p, "{" + inner + "}")
    ensures p + 1 + |inner| < |s| && s[p] == '{' && At(s, p + 1, inner) && s[p + 1 + |inner|] == '}'
  {
    AtParts(s, p, "{" + inner, "}");
    AtParts(s, p, "{", inner);
    Head(s, p, "{");
    Head(s, p + 1 + |inner|, "}");
  }

  // ---- One part after the other -----------------------------------------------------------------------

  // Where the parser is after each part.

  function AfterSign(q: Parse, f: Sentence): (r: Parse)
    ensures r.ctx == q.ctx && (q.state.Rank() < 2 ==> r.state.Rank() < 3)
  {
    if f.sign.None? then q
    else q.(pos := q.pos + 1, state := SignState, specs := q.specs.(sign := SignMeaning(f.sign)))
  }

  function AfterAlt(q: Parse, f: Sentence): (r: Parse)
    ensures r.ctx == q.ctx && (q.state.Rank() < 3 ==> r.state.Rank() < 4)
  {
    if !f.alt then q else q.(pos := q.pos + 1, state := HashState, specs := q.specs.(alt := true))
  }

  function AfterZero(q: Parse, f: Sentence): (r: Parse)
    ensures r.ctx == q.ctx && (q.state.Rank() < 4 ==> r.state.Rank() < 5)
  {
    if !f.zero then q
    else if q.specs.align == NoAlign then
      q.(pos := q.pos + 1, state := ZeroState, specs := q.specs.(align := Numeric, fill := "0"))
    else q.(pos := q.pos + 1, state := ZeroState)
  }

  function AfterWidth(q: Parse, f: Sentence): (r: Parse)
    ensures q.state.Rank() < 5 ==> r.state.Rank() < 6
    ensures q.ctx == RuntimeContext(q.ctx.next) ==> r.ctx == RuntimeContext(NextAfter(f.width, q.ctx.next))
  {
    var r := SizeRef(f.width, q.ctx.next);
    if f.width == NoSize || r.None? then q
    else
      var (ref, n) := r.value;
      q.(pos := q.pos + |SizeText(f.width)|, state := WidthState, ctx := RuntimeContext(n),
         specs := q.specs.(width := SizeNumber(f.width, q.specs.width), widthRef := ref))
  }

  function AfterPrecision(q: Parse, f: Sentence): (r: Parse)
    ensures q.state.Rank() < 6 ==> r.state.Rank() < 7
    ensures q.ctx == RuntimeContext(q.ctx.next) ==> r.ctx == RuntimeContext(NextAfter(f.precision, q.ctx.next))
  {
    var r := SizeRef(f.precision, q.ctx.next);
    if f.precision == NoSize || r.None? then q
    else
      var (ref, n) := r.value;
      q.(pos := q.pos + |PrecisionText(f)|, state := PrecisionState, ctx := RuntimeContext(n),
         specs := q.specs.(precision := SizeNumber(f.precision, q.specs.precision), precisionRef := ref))
  }

  function AfterLocale(q: Parse, f: Sentence): Parse
  {
    if !f.localized then q else q.(pos := q.pos + 1, state := LocaleState, specs := q.specs.(localized := true))
  }

  lemma SignTaken(s: Text, q: Parse, f: Sentence, t: ArgType)
    requires SentenceOk(f, t) && f.sign.Some? && q.pos < |s| && q.state.Rank() < 2 && q.specs.sign == NoSign
    ensures ParseStep(s, q, f.sign.value, t) == Ok(More(AfterSign(q, f)))
  {
  }

  lemma SignPart(s: Text, q: Parse, f: Sentence, t: ArgType)
    requires SentenceOk(f, t) && At(s, q.pos, SignText(f)) && q.state.Rank() < 2 && q.pos <= |s|
    requires q.specs.sign == NoSign
    ensures AfterSign(q, f).pos == q.pos + |SignText(f)| <= |s|
    ensures ParseRest(s, q, t) == ParseRest(s, AfterSign(q, f), t)
  {
    hide ParseStep;
    hide SentenceOk;
    if f.sign.Some? {
      Head(s, q.pos, SignText(f));
      SignTaken(s, q, f, t);
    }
  }

  lemma AltTaken(s: Text, q: Parse, f: Sentence, t: ArgType)
    requires SentenceOk(f, t) && f.alt && q.pos < |s| && q.state.Rank() < 3
    ensures ParseStep(s, q, '#', t) == Ok(More(AfterAlt(q, f)))
  {
  }

  lemma AltPart(s: Text, q: Parse, f: Sentence, t: ArgType)
    requires SentenceOk(f, t) && At(s, q.pos, FlagText(f.alt, '#')) && q.state.Rank() < 3 && q.pos <= |s|
    ensures AfterAlt(q, f).pos == q.pos + |FlagText(f.alt, '#')| <= |s|
    ensures ParseRest(s, q, t) == ParseRest(s, AfterAlt(q, f), t)
  {
    hide ParseStep;
    hide SentenceOk;
    if f.alt {
      Head(s, q.pos, "#");
      AltTaken(s, q, f, t);
    }
  }

  lemma ZeroTaken(s: Text, q: Parse, f: Sentence, t: ArgType)
    requires SentenceOk(f, t) && f.zero && q.pos < |s| && q.state.Rank() < 4
    ensures ParseStep(s, q, '0', t) == Ok(More(AfterZero(q, f)))
  {
  }

  lemma ZeroPart(s: Text, q: Parse, f: Sentence, t: ArgType)
    requires SentenceOk(f, t) && At(s, q.pos, FlagText(f.zero, '0')) && q.state.Rank() < 4 && q.pos <= |s|
    ensures AfterZero(q, f).pos == q.pos + |FlagText(f.zero, '0')| <= |s|
    ensures ParseRest(s, q, t) == ParseRest(s, AfterZero(q, f), t)
  {
    hide ParseStep;
    hide SentenceOk;
    if f.zero {
      Head(s, q.pos, "0");
      ZeroTaken(s, q, f, t);
    }
  }

  lemma WidthTaken(s: Text, q: Parse, f: Sentence, t: ArgType, c: Unit)
    requires SentenceOk(f, t) && f.width != NoSize && q.state.Rank() < 5 && q.pos < |s| && ('1' <= c <= '9' || c == '{')
    requires SizeRef(f.width, q.ctx.next).Some?
    requires var (ref, n) := SizeRef(f.width, q.ctx.next).value;
      ParseDynamicSpec(s, q.pos, q.ctx)
        == Ok(Amount(if f.width.Number? then Some(SizeNumber(f.width, 0)) else None, ref, RuntimeContext(n),
                     q.pos + |SizeText(f.width)|))
    ensures ParseStep(s, q, c, t) == Ok(More(AfterWidth(q, f)))
  {
    hide ParseDynamicSpec;
    hide SizeText;
    hide Decimal;
    assert ParseStep(s, q, c, t) == WidthStep(s, q);
  }

  lemma WidthPart(s: Text, q: Parse, f: Sentence, t: ArgType)
    requires SentenceOk(f, t) && At(s, q.pos, SizeText(f.width)) && q.state.Rank() < 5
    requires q.pos + |SizeText(f.width)| < |s| && !IsDigit(s[q.pos + |SizeText(f.width)|])
    requires q.ctx == RuntimeContext(q.ctx.next) && SizeRef(f.width, q.ctx.next).Some?
    ensures AfterWidth(q, f).pos == q.pos + |SizeText(f.width)|
    ensures ParseRest(s, q, t) == if Fits(f.width) then ParseRest(s, AfterWidth(q, f), t) else Err(NumberTooBig)
  {
    assert SizeOk(f.width) && (f.width.Number? ==> f.width.digits[0] != '0');
    hide ParseStep, Decimal, ParseDynamicSpec, Bounded, SentenceOk, SizeOk, At;
    if f.width != NoSize {
      SizeRead(s, q.pos, f.width, q.ctx.next);
      Head(s, q.pos, SizeText(f.width));
      WidthChar(f.width, s[q.pos]);
      if Fits(f.width) {
        WidthTaken(s, q, f, t, s[q.pos]);
      } else {
        WidthFails(s, q, t, s[q.pos]);
      }
    }
  }

  lemma WidthFails(s: Text, q: Parse, t: ArgType, c: Unit)
    requires q.pos < |s| && q.state.Rank() < 5 && ('1' <= c <= '9' || c == '{')
    requires ParseDynamicSpec(s, q.pos, q.ctx) == Err(NumberTooBig)
    ensures ParseStep(s, q, c, t) == Err(NumberTooBig)
  {
    assert ParseStep(s, q, c, t) == WidthStep(s, q);
  }

  lemma WidthChar(size: Size, c: Unit)
    requires SizeOk(size) && size != NoSize && c == SizeText(size)[0] && (size.Number? ==> c != '0')
    ensures '1' <= c <= '9' || c == '{'
  {
  }

  lemma PrecisionTaken(s: Text, q: Parse, f: Sentence, t: ArgType)
    requires SentenceOk(f, t) && f.precision != NoSize && q.state.Rank() < 6 && q.pos + 1 < |s|
    requires SizeRef(f.precision, q.ctx.next).Some?
    requires var (ref, n) := SizeRef(f.precision, q.ctx.next).value;
      ParseDynamicSpec(s, q.pos + 1, q.ctx)
        == Ok(Amount(if f.precision.Number? then Some(SizeNumber(f.precision, 0)) else None, ref, RuntimeContext(n),
                     q.pos + 1 + |SizeText(f.precision)|))
    ensures ParseStep(s, q, '.', t) == Ok(More(AfterPrecision(q, f)))
  {
    hide ParseDynamicSpec;
    hide SizeText;
    hide Decimal;
    assert ParseStep(s, q, '.', t) == PrecisionStep(s, q, t);
  }

  lemma PrecisionPart(s: Text, q: Parse, f: Sentence, t: ArgType)
    requires SentenceOk(f, t) && At(s, q.pos, PrecisionText(f)) && q.state.Rank() < 6
    requires q.pos + |PrecisionText(f)| < |s| && !IsDigit(s[q.pos + |PrecisionText(f)|])
    requires q.ctx == RuntimeContext(q.ctx.next) && SizeRef(f.precision, q.ctx.next).Some?
    ensures AfterPrecision(q, f).pos == q.pos + |PrecisionText(f)|
    ensures ParseRest(s, q, t) == if Fits(f.precision) then ParseRest(s, AfterPrecision(q, f), t) else Err(NumberTooBig)
  {
    hide At, ParseStep, Decimal, ParseDynamicSpec, Bounded, SizeRef, SizeText, NumberOf;
    if f.precision != NoSize {
      AtParts(s, q.pos, ".", SizeText(f.precision));
      Head(s, q.pos, ".");
      SizeRead(s, q.pos + 1, f.precision, q.ctx.next);
      if Fits(f.precision) {
        PrecisionTaken(s, q, f, t);
      } else {
        PrecisionFails(s, q, t);
      }
    }
  }

  lemma PrecisionFails(s: Text, q: Parse, t: ArgType)
    requires q.pos + 1 < |s| && q.state.Rank() < 6 && TakesPrecision(t)
    requires ParseDynamicSpec(s, q.pos + 1, q.ctx) == Err(NumberTooBig)
    ensures ParseStep(s, q, '.', t) == Err(NumberTooBig)
  {
    assert ParseStep(s, q, '.', t) == PrecisionStep(s, q, t);
  }

  lemma LocaleTaken(s: Text, q: Parse, f: Sentence, t: ArgType)
    requires SentenceOk(f, t) && f.localized && q.pos < |s| && q.state.Rank() < 7
    ensures ParseStep(s, q, 'L', t) == Ok(More(AfterLocale(q, f)))
  {
  }

  lemma LocalePart(s: Text, q: Parse, f: Sentence, t: ArgType)
    requires SentenceOk(f, t) && At(s, q.pos, FlagText(f.localized, 'L')) && q.state.Rank() < 7 && q.pos <= |s|
    ensures AfterLocale(q, f).pos == q.pos + |FlagText(f.localized, 'L')| <= |s|
    ensures ParseRest(s, q, t) == ParseRest(s, AfterLocale(q, f), t)
  {
    hide ParseStep;
    hide SentenceOk;
    if f.localized {
      Head(s, q.pos, "L");
      LocaleTaken(s, q, f, t);
    }
  }

  function AfterType(q: Parse, c: Unit): Parse
  {
    q.(pos := q.pos + 1, specs := q.specs.(presentation := TypeMeaning(c), upper := q.specs.upper || IsUpper(c)))
  }

  /** The parser's classes of types are the documented ones. */
  lemma TypeTable(t: ArgType)
    ensures TakesSign(t) <==> t.Signed() || t.Floating()
    ensures TakesFlags(t) <==> t.Arithmetic()
    ensures TakesPrecision(t) <==> t.Floating() || t.StringType? || t.CStringType?
  {
  }

  lemma LetterMeaning(c: Unit, t: ArgType)
    ensures var p := PresentationOf(c, t);
      p.Some? ==> p.value.0 == TypeMeaning(c)
  {
    hide ArgType.Integral, ArgType.Floating;
  }

  /** Which types the parser's table allows a letter for. */
  predicate Allowed(c: Unit, t: ArgType)
  {
    || (c in "bBdoxX" && t.Integral()) || (c in "aAeEfFgG" && t.Floating())
    || (c == 'c' && t.Integral() && !t.BoolType?)
    || (c == 's' && (t.BoolType? || t.StringType? || t.CStringType?))
    || (c == 'p' && (t.PointerType? || t.CStringType?))
    || (c == '?' && (t.CharType? || t.StringType? || t.CStringType?))
  }

  lemma TableAllows(c: Unit, t: ArgType)
    ensures Allowed(c, t) <==> PresentationOf(c, t).Some? && PresentationOf(c, t).value.1
  {
    hide ArgType.Integral, ArgType.Floating;
  }

  lemma LettersAllowed(c: Unit, t: ArgType)
    ensures c in Letters(t) <==> Allowed(c, t)
  {
  }

  /** The parser's table of presentation types is the documented one, for every unit and type. */
  lemma LetterTable(c: Unit, t: ArgType)
    ensures var p := PresentationOf(c, t);
      && (c in Letters(t) <==> p.Some? && p.value.1)
      && (p.Some? ==> p.value.0 == TypeMeaning(c))
  {
    hide PresentationOf, Letters, TypeMeaning;
    LetterMeaning(c, t);
    TableAllows(c, t);
    LettersAllowed(c, t);
    hide Allowed;
  }

  lemma TypeTaken(s: Text, q: Parse, c: Unit, t: ArgType)
    requires q.pos < |s| && c in Letters(t)
    ensures ParseStep(s, q, c, t) == Ok(Done(AfterType(q, c)))
  {
    LetterTable(c, t);
    TypeChar(c, t);
    hide Letters, TypeMeaning;
    hide PresentationOf;
    hide ParseAlign;
    hide ParseFill;
    hide IsUpper;
  }

  /** A type letter starts no other part. */
  lemma TypeChar(c: Unit, t: ArgType)
    requires PresentationOf(c, t).Some?
    ensures c != '<' && c != '>' && c != '^' && c != '+' && c != ' ' && c != '-' && c != '#' && c != '.' && c != 'L'
    ensures !('0' <= c <= '9') && c != '{'
  {
  }

  lemma BraceTaken(s: Text, q: Parse, t: ArgType)
    requires q.pos < |s|
    ensures ParseStep(s, q, '}', t) == Ok(Done(q))
  {
    assert PresentationOf('}', t) == None;
  }

  /** The type ends the specification, or the closing brace does. */
  lemma TypePart(s: Text, q: Parse, f: Sentence, t: ArgType)
    requires SentenceOk(f, t) && At(s, q.pos, TypeText(f))
    requires q.pos + |TypeText(f)| < |s| && s[q.pos + |TypeText(f)|] == '}'
    ensures ParseRest(s, q, t) == Ok(if f.ty.None? then q else AfterType(q, f.ty.value))
  {
    hide PresentationOf;
    hide ParseStep;
    if f.ty.Some? {
      Head(s, q.pos, TypeText(f));
      TypeTaken(s, q, f.ty.value, t);
    } else {
      BraceTaken(s, q, t);
    }
  }

  // ---- The first character ----------------------------------------------------------------------------

  predicate NoAligns(text: Text)
  {
    forall i :: 0 <= i < |text| ==> ParseAlign(text[i]) == NoAlign
  }

  lemma NoAlignsAppend(a: Text, b: Text)
    requires NoAligns(a) && NoAligns(b)
    ensures NoAligns(a + b)
  {
  }

  lemma SizeNoAligns(size: Size)
    requires SizeOk(size)
    ensures NoAligns(SizeText(size))
  {
    match size
    case NoSize =>
    case Number(digits) =>
    case Automatic =>
    case ByIndex(digits) =>
      NoAlignsAppend("{", digits);
      NoAlignsAppend("{" + digits, "}");
    case ByName(name) =>
      assert forall i :: 0 <= i < |name| ==> IsNameStart(name[i]) || IsDigit(name[i]);
      NoAlignsAppend("{", name);
      NoAlignsAppend("{" + name, "}");
  }

  lemma PiecesNoAligns(f: Sentence, t: ArgType)
    requires SentenceOk(f, t)
    ensures NoAligns(SignText(f)) && NoAligns(FlagText(f.alt, '#')) && NoAligns(FlagText(f.zero, '0'))
    ensures NoAligns(FlagText(f.localized, 'L')) && NoAligns(TypeText(f)) && NoAligns(".")
  {
    hide SizeOk;
    if f.ty.Some? {
      LetterTable(f.ty.value, t);
      TypeNoAlign(f.ty.value, t);
    }
    hide PresentationOf, Letters, TypeMeaning;
  }

  lemma TypeNoAlign(c: Unit, t: ArgType)
    ensures PresentationOf(c, t).Some? ==> ParseAlign(c) == NoAlign
  {
  }

  /** No part but the first holds an alignment character. */
  lemma TailNoAligns(f: Sentence, t: ArgType)
    requires SentenceOk(f, t)
    ensures NoAligns(TailText(f))
  {
    PiecesNoAligns(f, t);
    SizeNoAligns(f.width);
    SizeNoAligns(f.precision);
    hide NoAligns;
    hide SizeText;
    hide SignText;
    hide FlagText;
    hide TypeText;
    var a, b, c := SignText(f), FlagText(f.alt, '#'), FlagText(f.zero, '0');
    var d, e := SizeText(f.width), PrecisionText(f);
    var g, h := FlagText(f.localized, 'L'), TypeText(f);
    NoAlignsAppend(".", SizeText(f.precision));
    if f.precision == NoSize {
      assert e == SizeText(f.precision) by {
        NoSizeText();
      }
    }
    NoAlignsAppend(e, g);
    NoAlignsAppend(e + g, h);
    NoAlignsAppend(a, b);
    NoAlignsAppend(a + b, c);
    NoAlignsAppend(a + b + c, d);
    NoAlignsAppend(a + b + c + d, LateText(f));
  }

  lemma NoSizeText()
    ensures SizeText(NoSize) == ""
  {
  }

  // ---- Whole sentences --------------------------------------------------------------------------------

  /** No digit follows a size: what may come after it starts with another character. */
  lemma AfterSizes(s: Text, p: nat, f: Sentence, t: ArgType)
    requires SentenceOk(f, t)
    ensures var text := FlagText(f.localized, 'L') + TypeText(f);
      At(s, p, text) && p + |text| < |s| && s[p + |text|] == '}' ==> !IsDigit(s[p])
    ensures var text := LateText(f);
      At(s, p, text) && p + |text| < |s| && s[p + |text|] == '}' ==> !IsDigit(s[p])
  {
    var rest, late := FlagText(f.localized, 'L') + TypeText(f), LateText(f);
    LateStart(f, t);
    if At(s, p, rest) && rest != [] {
      Head(s, p, rest);
    }
    if At(s, p, late) && late != [] {
      Head(s, p, late);
    }
  }

  lemma LateStart(f: Sentence, t: ArgType)
    requires SentenceOk(f, t)
    ensures var text := FlagText(f.localized, 'L') + TypeText(f);
      text != [] ==> !IsDigit(text[0])
    ensures LateText(f) != [] ==> !IsDigit(LateText(f)[0])
  {
    hide SizeOk;
    hide SizeText;
    if f.ty.Some? {
      LetterTable(f.ty.value, t);
      NoDigitType(f.ty.value, t);
    }
    hide PresentationOf, Letters, TypeMeaning;
    hide IsDigit;
  }

  lemma NoDigitType(c: Unit, t: ArgType)
    ensures PresentationOf(c, t).Some? ==> !IsDigit(c)
  {
  }

  /** The numbering is good for both sizes. */
  predicate Numbered(f: Sentence, next: int)
  {
    SizeRef(f.width, next).Some? && SizeRef(f.precision, NextAfter(f.width, next)).Some?
  }

  /** Where the parser is before the width, and after the locale. */
  function BeforeWidth(q: Parse, f: Sentence): Parse
  {
    AfterZero(AfterAlt(AfterSign(q, f), f), f)
  }

  function AfterTail(q: Parse, f: Sentence): Parse
  {
    AfterLocale(AfterPrecision(AfterWidth(BeforeWidth(q, f), f), f), f)
  }

  lemma FlagsRead(s: Text, q: Parse, f: Sentence, t: ArgType)
    requires SentenceOk(f, t) && q.state.Rank() < 2 && q.specs.sign == NoSign
    requires At(s, q.pos, SignText(f) + FlagText(f.alt, '#') + FlagText(f.zero, '0'))
    ensures var w := BeforeWidth(q, f);
      && w.pos == q.pos + |SignText(f) + FlagText(f.alt, '#') + FlagText(f.zero, '0')| <= |s|
      && w.state.Rank() < 5 && w.ctx == q.ctx && ParseRest(s, q, t) == ParseRest(s, w, t)
  {
    hide ParseRest, AfterSign, AfterAlt, AfterZero, SentenceOk, At, SignText, FlagText;
    AtParts(s, q.pos, SignText(f) + FlagText(f.alt, '#'), FlagText(f.zero, '0'));
    AtParts(s, q.pos, SignText(f), FlagText(f.alt, '#'));
    SignPart(s, q, f, t);
    AltPart(s, AfterSign(q, f), f, t);
    ZeroPart(s, AfterAlt(AfterSign(q, f), f), f, t);
  }

  /** Where the parts from the precision on lie. */
  lemma LateAt(s: Text, p: nat, f: Sentence)
    requires At(s, p, LateText(f))
    ensures var b, c, d := PrecisionText(f), FlagText(f.localized, 'L'), TypeText(f);
      && |LateText(f)| == |b| + |c| + |d|
      && At(s, p, b) && At(s, p + |b|, c) && At(s, p + |b| + |c|, d) && At(s, p + |b|, c + d)
  {
    hide PrecisionText;
    hide FlagText;
    hide TypeText;
    var b, c, d := PrecisionText(f), FlagText(f.localized, 'L'), TypeText(f);
    assert LateText(f) == b + (c + d);
    hide LateText;
    AtParts(s, p, b, c + d);
    AtParts(s, p + |b|, c, d);
  }

  lemma LateRead(s: Text, q: Parse, f: Sentence, t: ArgType)
    requires SentenceOk(f, t) && q.state.Rank() < 6 && q.ctx == RuntimeContext(q.ctx.next)
    requires SizeRef(f.precision, q.ctx.next).Some?
    requires At(s, q.pos, LateText(f)) && q.pos + |LateText(f)| < |s| && s[q.pos + |LateText(f)|] == '}'
    ensures var w := AfterLocale(AfterPrecision(q, f), f);
      && w.pos + |TypeText(f)| == q.pos + |LateText(f)|
      && At(s, w.pos, TypeText(f))
      && ParseRest(s, q, t) == if Fits(f.precision) then ParseRest(s, w, t) else Err(NumberTooBig)
  {
    hide ParseRest;
    hide Fits;
    hide SentenceOk;
    hide SizeRef;
    hide SizeText;
    hide PrecisionText;
    hide FlagText;
    hide TypeText;
    hide At;
    hide IsDigit;
    hide AfterWidth;
    hide AfterPrecision;
    hide AfterLocale;
    hide LateText;
    LateAt(s, q.pos, f);
    AfterSizes(s, q.pos + |PrecisionText(f)|, f, t);
    PrecisionPart(s, q, f, t);
    LocalePart(s, AfterPrecision(q, f), f, t);
  }

  lemma SizeThenLate(s: Text, p: nat, f: Sentence)
    requires At(s, p, SizeText(f.width) + LateText(f))
    ensures At(s, p, SizeText(f.width)) && At(s, p + |SizeText(f.width)|, LateText(f))
    ensures |SizeText(f.width) + LateText(f)| == |SizeText(f.width)| + |LateText(f)|
  {
    hide SizeText;
    hide LateText;
    AtParts(s, p, SizeText(f.width), LateText(f));
  }

  lemma SizesRead(s: Text, q: Parse, f: Sentence, t: ArgType)
    requires SentenceOk(f, t) && q.state.Rank() < 5 && q.ctx == RuntimeContext(q.ctx.next) && Numbered(f, q.ctx.next)
    requires var text := SizeText(f.width) + LateText(f);
      At(s, q.pos, text) && q.pos + |text| < |s| && s[q.pos + |text|] == '}'
    ensures var w := AfterLocale(AfterPrecision(AfterWidth(q, f), f), f);
      && w.pos + |TypeText(f)| == q.pos + |SizeText(f.width) + LateText(f)|
      && At(s, w.pos, TypeText(f))
      && ParseRest(s, q, t) == if Fit(f) then ParseRest(s, w, t) else Err(NumberTooBig)
  {
    hide ParseRest;
    hide Fits;
    hide SentenceOk;
    hide SizeRef;
    hide SizeText;
    hide PrecisionText;
    hide FlagText;
    hide TypeText;
    hide At;
    hide IsDigit;
    hide AfterWidth;
    hide AfterPrecision;
    hide AfterLocale;
    hide LateText;
    SizeThenLate(s, q.pos, f);
    AfterSizes(s, q.pos + |SizeText(f.width)|, f, t);
    WidthPart(s, q, f, t);
    LateRead(s, AfterWidth(q, f), f, t);
  }

  /** From the width on. */
  lemma EndRead(s: Text, q: Parse, f: Sentence, t: ArgType)
    requires SentenceOk(f, t) && q.state.Rank() < 5 && q.ctx == RuntimeContext(q.ctx.next) && Numbered(f, q.ctx.next)
    requires var text := SizeText(f.width) + LateText(f);
      At(s, q.pos, text) && q.pos + |text| < |s| && s[q.pos + |text|] == '}'
    ensures var w := AfterLocale(AfterPrecision(AfterWidth(q, f), f), f);
      && ParseRest(s, q, t) == (if Fit(f) then Ok(if f.ty.None? then w else AfterType(w, f.ty.value))
                                else Err(NumberTooBig))
      && w.pos + |TypeText(f)| == q.pos + |SizeText(f.width) + LateText(f)|
  {
    hide ParseRest;
    hide Fit;
    hide SentenceOk;
    hide SizeRef;
    hide SizeText;
    hide LateText;
    hide SignText;
    hide FlagText;
    hide TypeText;
    hide At;
    hide AfterType;
    hide AfterWidth;
    hide AfterPrecision;
    hide AfterLocale;
    SizesRead(s, q, f, t);
    var w := AfterLocale(AfterPrecision(AfterWidth(q, f), f), f);
    TypePart(s, w, f, t);
  }

  lemma TailAt(s: Text, p: nat, f: Sentence)
    requires At(s, p, TailText(f))
    ensures var a, b := SignText(f) + FlagText(f.alt, '#') + FlagText(f.zero, '0'), SizeText(f.width) + LateText(f);
      At(s, p, a) && At(s, p + |a|, b) && |TailText(f)| == |a| + |b|
  {
    hide SizeText;
    hide LateText;
    hide SignText;
    hide FlagText;
    var a, b := SignText(f) + FlagText(f.alt, '#') + FlagText(f.zero, '0'), SizeText(f.width) + LateText(f);
    assert TailText(f) == a + b;
    AtParts(s, p, a, b);
  }

  /** Everything after the alignment. */
  lemma TailRead(s: Text, q: Parse, f: Sentence, t: ArgType)
    requires SentenceOk(f, t) && q.state.Rank() < 2 && q.specs.sign == NoSign
    requires q.ctx == RuntimeContext(q.ctx.next) && Numbered(f, q.ctx.next)
    requires var text := TailText(f);
      At(s, q.pos, text) && q.pos + |text| < |s| && s[q.pos + |text|] == '}'
    ensures var w := AfterTail(q, f);
      && ParseRest(s, q, t) == (if Fit(f) then Ok(if f.ty.None? then w else AfterType(w, f.ty.value))
                                else Err(NumberTooBig))
      && w.pos + |TypeText(f)| == q.pos + |TailText(f)|
  {
    hide ParseRest;
    hide Fit;
    hide SentenceOk;
    hide SizeRef;
    hide SizeText;
    hide LateText;
    hide SignText;
    hide FlagText;
    hide TypeText;
    hide At;
    hide AfterType;
    hide AfterWidth;
    hide AfterPrecision;
    hide AfterLocale;
    hide TailText;
    hide BeforeWidth;
    hide Numbered;
    TailAt(s, q.pos, f);
    FlagsRead(s, q, f, t);
    EndRead(s, BeforeWidth(q, f), f, t);
  }

  // ---- The start ------------------------------------------------------------------------------------

  /** Where the parser is after the alignment. */
  function AfterAlign(p: nat, f: Sentence, next: int): Parse
  {
    var q := InitialParse(p, RuntimeContext(next));
    if f.align == NoAlign then q
    else
      Parse(p + |f.fill| + 1, AlignState,
            DefaultSpecs().(align := f.align, fill := if f.fill == [] then " " else f.fill), RuntimeContext(next))
  }

  /** An alignment with a fill in front of it. */
  lemma FillStart(s: Text, p: nat, f: Sentence, t: ArgType, next: int)
    requires SentenceOk(f, t) && f.fill != [] && At(s, p, f.fill + [AlignChar(f.align)])
    ensures p + |f.fill| < |s| && ParseSpecs(s, p, RuntimeContext(next), t) == ParseRest(s, AfterAlign(p, f, next), t)
  {
    var a := AlignChar(f.align);
    AtParts(s, p, f.fill, [a]);
    Head(s, p, f.fill);
    Head(s, p + |f.fill|, [a]);
    assert FirstChar(s, p) == '\0' || (FirstChar(s, p) == s[p] && s[p] >= 0xC0 as char);
    var q := InitialParse(p, RuntimeContext(next));
    assert ParseFill(s, q) == Ok(More(AfterAlign(p, f, next)));
    FillTaken(s, q, FirstChar(s, p), t);
    hide ParseStep;
    hide ParseFill;
    hide ParseRest;
  }

  /** What no part begins with starts a fill. */
  lemma FillTaken(s: Text, q: Parse, c: Unit, t: ArgType)
    requires q.pos < |s| && (c == '\0' || c >= 0xC0 as char)
    ensures ParseStep(s, q, c, t) == ParseFill(s, q)
  {
    assert PresentationOf(c, t) == None;
    hide ParseFill;
  }

  lemma AlignTaken(s: Text, q: Parse, f: Sentence, t: ArgType)
    requires q.pos < |s| && f.align != NoAlign && f.align != Numeric && q.state == Start
    ensures ParseAlign(AlignChar(f.align)) == f.align
    ensures ParseStep(s, q, AlignChar(f.align), t)
         == Ok(More(q.(pos := q.pos + 1, state := AlignState, specs := q.specs.(align := f.align))))
  {
  }

  /** An alignment alone. */
  lemma AlignStart(s: Text, p: nat, f: Sentence, t: ArgType, next: int)
    requires SentenceOk(f, t) && f.align != NoAlign && f.fill == [] && At(s, p, [AlignChar(f.align)])
    requires p + 1 < |s| && ParseAlign(s[p + 1]) == NoAlign
    ensures ParseSpecs(s, p, RuntimeContext(next), t) == ParseRest(s, AfterAlign(p, f, next), t)
  {
    assert f.align != Numeric;
    hide SentenceOk, PresentationOf, WidthStep, PrecisionStep, ParseFill, IsUpper, ParseRest;
    Head(s, p, [AlignChar(f.align)]);
    var q := InitialParse(p, RuntimeContext(next));
    AlignTaken(s, q, f, t);
    hide ParseStep;
  }

  /** No alignment at all. */
  lemma PlainStart(s: Text, p: nat, t: ArgType, next: int)
    requires p < |s| && (s[p] == '}' || p + 1 == |s| || ParseAlign(s[p + 1]) == NoAlign)
    ensures ParseSpecs(s, p, RuntimeContext(next), t) == ParseRest(s, InitialParse(p, RuntimeContext(next)), t)
  {
    hide ParseStep;
    hide ParseFill;
    hide PresentationOf;
    var q := InitialParse(p, RuntimeContext(next));
    if s[p] == '}' {
      BraceTaken(s, q, t);
      FillTaken(s, q, '\0', t);
      BraceFill(s, q);
    }
  }

  lemma BraceFill(s: Text, q: Parse)
    requires q.pos < |s| && s[q.pos] == '}'
    ensures ParseFill(s, q) == Ok(Done(q))
  {
  }

  // ---- The meaning ----------------------------------------------------------------------------------

  /** The specifiers collected before the width. */
  function Flags(f: Sentence): Specs
  {
    Specs(NoType, if f.align != NoAlign then f.align else if f.zero then Numeric else NoAlign, SignMeaning(f.sign),
          false, f.alt, false,
          if f.fill != [] && f.align != NoAlign then f.fill else if f.zero && f.align == NoAlign then "0" else " ",
          0, -1, NoRef, NoRef)
  }

  lemma FlagsCollected(p: nat, f: Sentence, next: int)
    ensures var q := BeforeWidth(AfterAlign(p, f, next), f);
      q.specs == Flags(f) && q.ctx == RuntimeContext(next)
  {
  }

  lemma SizesCollected(q: Parse, f: Sentence)
    requires q.specs.width == 0 && q.specs.precision == -1 && !q.specs.localized && q.ctx == RuntimeContext(q.ctx.next)
    requires q.specs.widthRef == q.specs.precisionRef == NoRef && Numbered(f, q.ctx.next)
    ensures var width, n := SizeRef(f.width, q.ctx.next).value.0, NextAfter(f.width, q.ctx.next);
      var precision, m := SizeRef(f.precision, n).value.0, NextAfter(f.precision, n);
      var w := AfterLocale(AfterPrecision(AfterWidth(q, f), f), f);
      && w.ctx == RuntimeContext(m)
      && w.specs == q.specs.(width := SizeNumber(f.width, 0), widthRef := width,
                             precision := SizeNumber(f.precision, -1), precisionRef := precision,
                             localized := f.localized)
  {
    hide NumberOf;
    hide SizeText;
    hide PrecisionText;
  }

  /** What the parser collected is what the sentence means. */
  lemma Collected(p: nat, f: Sentence, t: ArgType, next: int)
    requires SentenceOk(f, t) && Numbered(f, next)
    ensures var w := AfterTail(AfterAlign(p, f, next), f);
      var width, n := SizeRef(f.width, next).value.0, NextAfter(f.width, next);
      var precision, m := SizeRef(f.precision, n).value.0, NextAfter(f.precision, n);
      var last := if f.ty.None? then w else AfterType(w, f.ty.value);
      last.specs == Meaning(f, width, precision) && last.ctx == RuntimeContext(m)
  {
    assert f.fill != [] ==> f.align != NoAlign;
    hide SentenceOk, TypeMeaning, BeforeWidth, AfterWidth, AfterPrecision, AfterLocale, SizeNumber, AfterAlign,
         AfterTail, SizeRef, NextAfter, IsUpper, Meaning, Flags;
    TailCollected(p, f, next);
    var width, n := SizeRef(f.width, next).value.0, NextAfter(f.width, next);
    MeaningIs(f, width, SizeRef(f.precision, n).value.0);
  }

  /** The presentation type added to what was collected before it. */
  lemma MeaningIs(f: Sentence, width: ArgRef, precision: ArgRef)
    requires f.fill != [] ==> f.align != NoAlign
    ensures var x := Flags(f).(width := SizeNumber(f.width, 0), widthRef := width,
                               precision := SizeNumber(f.precision, -1), precisionRef := precision,
                               localized := f.localized);
      (if f.ty.None? then x
       else x.(presentation := TypeMeaning(f.ty.value), upper := x.upper || IsUpper(f.ty.value)))
        == Meaning(f, width, precision)
  {
    hide TypeMeaning, SizeNumber, SignMeaning, IsUpper;
    if f.ty.Some? {
      UpperTypes(f.ty.value);
    }
  }

  lemma TailCollected(p: nat, f: Sentence, next: int)
    requires Numbered(f, next)
    ensures var w := AfterTail(AfterAlign(p, f, next), f);
      var width, n := SizeRef(f.width, next).value.0, NextAfter(f.width, next);
      var precision, m := SizeRef(f.precision, n).value.0, NextAfter(f.precision, n);
      && w.ctx == RuntimeContext(m)
      && w.specs == Flags(f).(width := SizeNumber(f.width, 0), widthRef := width,
                              precision := SizeNumber(f.precision, -1), precisionRef := precision,
                              localized := f.localized)
  {
    hide BeforeWidth, AfterWidth, AfterPrecision, AfterLocale, SizeNumber, AfterAlign, SizeRef, NextAfter;
    FlagsCollected(p, f, next);
    SizesCollected(BeforeWidth(AfterAlign(p, f, next), f), f);
  }

  lemma UpperTypes(c: Unit)
    ensures IsUpper(c) <==> c in "XBEFGA"
  {
  }

  /**
   * Every sentence of the documented grammar that suits the argument type is parsed, up to the
   * closing brace, to exactly what it means, if its numbers fit; else they are too big.
   */
  lemma SentenceParsed(s: Text, p: nat, f: Sentence, t: ArgType, next: int)
    requires SentenceOk(f, t) && Numbered(f, next)
    requires At(s, p, Write(f)) && p + |Write(f)| < |s| && s[p + |Write(f)|] == '}'
    ensures var width, n := SizeRef(f.width, next).value.0, NextAfter(f.width, next);
      var precision, m := SizeRef(f.precision, n).value.0, NextAfter(f.precision, n);
      var x := ParseSpecs(s, p, RuntimeContext(next), t);
      if !Fit(f) then x == Err(NumberTooBig)
      else
        && x.Ok? && x.value.pos == p + |Write(f)|
        && x.value.specs == Meaning(f, width, precision) && x.value.ctx == RuntimeContext(m)
  {
    hide ParseRest;
    hide Fit;
    hide ParseSpecs;
    hide SentenceOk;
    hide SizeRef;
    hide AfterTail;
    hide AfterType;
    hide Meaning;
    hide TailText;
    hide AlignText;
    hide TypeText;
    StartRead(s, p, f, t, next);
    Collected(p, f, t, next);
    AtParts(s, p, AlignText(f), TailText(f));
    hide At;
    FinalRead(s, p, f, t, next);
  }

  /** The position and the result at the end. */
  lemma FinalRead(s: Text, p: nat, f: Sentence, t: ArgType, next: int)
    requires SentenceOk(f, t) && Numbered(f, next)
    requires var q, text := p + |AlignText(f)|, TailText(f);
      At(s, q, text) && q + |text| < |s| && s[q + |text|] == '}' && AfterAlign(p, f, next).pos == q
    ensures var w := AfterTail(AfterAlign(p, f, next), f);
      var last := if f.ty.None? then w else AfterType(w, f.ty.value);
      && ParseRest(s, AfterAlign(p, f, next), t) == (if Fit(f) then Ok(last) else Err(NumberTooBig))
      && last.pos == p + |AlignText(f)| + |TailText(f)|
  {
    hide ParseRest;
    hide Fit;
    hide SentenceOk;
    hide AfterTail;
    hide At;
    hide AlignText;
    hide TailText;
    hide SizeRef;
    hide TypeMeaning;
    TailRead(s, AfterAlign(p, f, next), f, t);
  }

  lemma StartRead(s: Text, p: nat, f: Sentence, t: ArgType, next: int)
    requires SentenceOk(f, t) && At(s, p, Write(f)) && p + |Write(f)| < |s| && s[p + |Write(f)|] == '}'
    ensures ParseSpecs(s, p, RuntimeContext(next), t) == ParseRest(s, AfterAlign(p, f, next), t)
    ensures AfterAlign(p, f, next).pos == p + |AlignText(f)|
  {
    hide ParseSpecs;
    hide ParseRest;
    hide TailText;
    hide NoAligns;
    AtParts(s, p, AlignText(f), TailText(f));
    TailNoAligns(f, t);
    var q := p + |AlignText(f)|;
    NextNoAlign(s, q, TailText(f), 0);
    NextNoAlign(s, q, TailText(f), 1);
    TextOrBrace(s, q, TailText(f));
    hide ParseAlign;
    hide At;
    if f.align == NoAlign {
      PlainStart(s, p, t, next);
    } else if f.fill == [] {
      assert AlignText(f) == [AlignChar(f.align)];
      AlignStart(s, p, f, t, next);
    } else {
      FillStart(s, p, f, t, next);
    }
  }

  lemma TextOrBrace(s: Text, p: nat, text: Text)
    requires At(s, p, text) && p + |text| < |s| && s[p + |text|] == '}'
    ensures |text| >= 1 || s[p] == '}'
  {
  }

  /** Neither the text nor the brace after it is an alignment character. */
  lemma NextNoAlign(s: Text, p: nat, text: Text, k: nat)
    requires At(s, p, text) && NoAligns(text) && p + |text| < |s| && s[p + |text|] == '}'
    ensures k <= |text| ==> p + k < |s| && ParseAlign(s[p + k]) == NoAlign
  {
    if k < |text| {
      assert s[p + k] == s[p..p + |text|][k] == text[k];
    }
  }

  // ---- What is parsed is a sentence -------------------------------------------------------------------

  lemma AtJoin(s: Text, p: nat, a: Text, b: Text)
    requires At(s, p, a) && At(s, p + |a|, b)
    ensures At(s, p, a + b)
  {
    assert s[p..p + |a + b|] == s[p..p + |a|] + s[p + |a|..p + |a| + |b|];
  }

  lemma AtOne(s: Text, p: nat)
    requires p < |s|
    ensures At(s, p, [s[p]])
  {
  }

  lemma AtChar(s: Text, p: nat, c: Unit)
    requires p < |s| && s[p] == c
    ensures At(s, p, [c])
  {
  }

  lemma {:induction false} DecimalSlice(s: Text, p: nat, q: nat, k: nat)
    requires p + k <= q <= |s| && forall i :: p <= i < q ==> IsDigit(s[i])
    ensures Decimal(s[p..q], 0, k) == Decimal(s, p, p + k)
  {
    if k > 0 {
      DecimalSlice(s, p, q, k - 1);
    }
  }

  /** Digits that are read are a number. */
  lemma DigitsBack(s: Text, p: nat) returns (d: Text)
    requires p < |s| && IsDigit(s[p])
    ensures Digits(d) && At(s, p, d) && p + |d| == DigitsEnd(s, p) && d[0] == s[p]
    ensures forall onError :: ParseInt(s, p, onError).0 == if Bounded(d) then NumberOf(d) else onError
  {
    var q := DigitsEnd(s, p);
    d := s[p..q];
    DecimalSlice(s, p, q, q - p);
    assert d[0] == s[p] && IsDigit(d[0]);
    assert forall i :: 0 <= i < |d| ==> IsDigit(d[i]);
  }

  /** An argument reference that is read is an index or a name. */
  lemma ArgIdBack(s: Text, p: nat) returns (size: Size)
    requires p < |s| && ParseArgId(s, p).Ok?
    ensures var (ref, q) := ParseArgId(s, p).value;
      && SizeOk(size) && q <= |s| && (size.ByIndex? || size.ByName?)
      && (size.ByIndex? ==> ref == Index(IndexOf(size.digits)) && At(s, p, size.digits) && q == p + |size.digits|)
      && (size.ByName? ==> ref == Name(size.name) && At(s, p, size.name) && q == p + |size.name|)
  {
    if IsDigit(s[p]) {
      if s[p] == '0' {
        size := ByIndex("0");
        AtOne(s, p);
        assert Decimal("0", 0, 1) == Decimal("0", 0, 0) * 10 + DigitValue('0');
        assert IsDigit("0"[0]);
      } else {
        var d := DigitsBack(s, p);
        size := ByIndex(d);
        assert ParseInt(s, p, INT_MAX).0 == IndexOf(d);
      }
      hide Decimal;
    } else {
      var q := NameEnd(s, p + 1);
      size := ByName(s[p..q]);
    }
  }

  lemma BracesJoin(s: Text, p: nat, inner: Text)
    requires p < |s| && s[p] == '{' && At(s, p + 1, inner) && p + 1 + |inner| < |s| && s[p + 1 + |inner|] == '}'
    ensures At(s, p, "{" + inner + "}")
  {
    AtOne(s, p);
    AtOne(s, p + 1 + |inner|);
    AtJoin(s, p, "{", inner);
    AtJoin(s, p, "{" + inner, "}");
  }

  lemma NumberBack(s: Text, p: nat, next: int) returns (size: Size)
    requires p < |s| && IsDigit(s[p]) && ParseDynamicSpec(s, p, RuntimeContext(next)).Ok?
    ensures SizeGot(s, p, size, next, ParseDynamicSpec(s, p, RuntimeContext(next)).value)
  {
    var d := DigitsBack(s, p);
    size := Number(d);
    assert ParseInt(s, p, -1).0 == if Bounded(d) then NumberOf(d) else -1;
    hide Decimal, NumberOf, At, ParseInt;
  }

  lemma AutomaticBack(s: Text, p: nat, next: int)
    requires p < |s| && !IsDigit(s[p]) && ParseDynamicSpec(s, p, RuntimeContext(next)).Ok?
    requires p + 1 < |s| && s[p + 1] == '}'
    ensures SizeGot(s, p, Automatic, next, ParseDynamicSpec(s, p, RuntimeContext(next)).value)
  {
    AtOne(s, p);
    AtOne(s, p + 1);
    AtJoin(s, p, "{", "}");
    hide At;
  }

  /** What a size in braces is made of. */
  lemma BraceParts(s: Text, p: nat, next: int)
    requires p < |s| && !IsDigit(s[p]) && ParseDynamicSpec(s, p, RuntimeContext(next)).Ok?
    ensures s[p] == '{' && p + 1 < |s|
    ensures s[p + 1] != '}' ==>
      var a, ref := ParseDynamicSpec(s, p, RuntimeContext(next)).value, ParseArgId(s, p + 1);
      && ref.Ok? && a.number == None && a.ref == ref.value.0 && a.end == ref.value.1 + 1
      && ref.value.1 < |s| && s[ref.value.1] == '}' && a.ctx == RuntimeContext(-1)
      && (ref.value.0.Index? ==> next <= 0) && (ref.value.0.Index? || ref.value.0.Name?)
  {
    hide ParseArgId;
  }

  lemma ReferenceBack(s: Text, p: nat, next: int) returns (size: Size)
    requires p < |s| && !IsDigit(s[p]) && ParseDynamicSpec(s, p, RuntimeContext(next)).Ok?
    requires p + 1 < |s| && s[p + 1] != '}'
    ensures SizeGot(s, p, size, next, ParseDynamicSpec(s, p, RuntimeContext(next)).value)
  {
    BraceParts(s, p, next);
    size := ArgIdBack(s, p + 1);
    hide Decimal, NumberOf, ParseArgId, ParseInt, Bounded, ParseDynamicSpec, IsName, Digits;
    BracesJoin(s, p, if size.ByIndex? then size.digits else size.name);
    hide At;
  }

  /** The size that stands at p, and that was read as a. */
  predicate SizeGot(s: Text, p: nat, size: Size, next: int, a: Amount)
    requires p < |s|
  {
    && size != NoSize && SizeOk(size) && Fits(size) && At(s, p, SizeText(size)) && a.end == p + |SizeText(size)|
    && SizeRef(size, next) == Some((a.ref, a.ctx.next)) && a.ctx == RuntimeContext(a.ctx.next)
    && (size.Number? ==> size.digits[0] == s[p])
  }

  /** A size that is read was written. */
  lemma SizeBack(s: Text, p: nat, next: int) returns (size: Size)
    requires p < |s| && ParseDynamicSpec(s, p, RuntimeContext(next)).Ok?
    ensures SizeGot(s, p, size, next, ParseDynamicSpec(s, p, RuntimeContext(next)).value)
  {
    hide SizeGot, ParseDynamicSpec;
    if IsDigit(s[p]) {
      size := NumberBack(s, p, next);
    } else {
      BraceParts(s, p, next);
      if s[p + 1] == '}' {
        size := Automatic;
        AutomaticBack(s, p, next);
      } else {
        size := ReferenceBack(s, p, next);
      }
    }
  }

  const EMPTY := Sentence("", NoAlign, None, false, false, NoSize, NoSize, false, None)

  /** A sentence without the parts up to the given state. */
  predicate From(f: Sentence, rank: nat)
  {
    && f.fill == "" && f.align == NoAlign
    && (rank >= 2 ==> f.sign.None?) && (rank >= 3 ==> !f.alt) && (rank >= 4 ==> !f.zero)
    && (rank >= 5 ==> f.width == NoSize) && (rank >= 6 ==> f.precision == NoSize) && (rank >= 7 ==> !f.localized)
  }

  /** The rest of the text that the parser reads from q on, as a sentence. */
  predicate Rest(s: Text, q: Parse, end: nat, f: Sentence, t: ArgType)
  {
    && SentenceOk(f, t) && Fit(f) && From(f, q.state.Rank()) && Numbered(f, q.ctx.next)
    && At(s, q.pos, TailText(f)) && end == q.pos + |TailText(f)|
  }

  /** The characters a part after the alignment begins with, or the closing brace. */
  predicate Begins(c: Unit, t: ArgType)
  {
    || c == '+' || c == '-' || c == ' ' || c == '#' || '0' <= c <= '9' || c == '{' || c == '.' || c == 'L' || c == '}'
    || PresentationOf(c, t).Some?
  }

  // How each part extends the text.

  lemma SignJoin(f: Sentence, c: Unit)
    requires f.sign.None?
    ensures TailText(f.(sign := Some(c))) == [c] + TailText(f)
  {
    hide LateText, SizeText, FlagText;
    var g := f.(sign := Some(c));
    assert LateText(g) == LateText(f) by {
      LateSame(f, g);
    }
    var a, b, w, l := FlagText(f.alt, '#'), FlagText(f.zero, '0'), SizeText(f.width), LateText(f);
    assert "" + a == a;
    assert ([c] + a + b + w) + l == [c] + (a + b + w + l);
  }

  lemma LateSame(f: Sentence, g: Sentence)
    requires f.precision == g.precision && f.localized == g.localized && f.ty == g.ty
    ensures LateText(f) == LateText(g)
  {
  }

  lemma AltJoin(f: Sentence)
    requires From(f, 3)
    ensures TailText(f.(alt := true)) == "#" + TailText(f)
  {
    hide LateText, SizeText;
    LateSame(f, f.(alt := true));
    var b, w, l := FlagText(f.zero, '0'), SizeText(f.width), LateText(f);
    assert "" + "" + b + w + l == b + w + l;
    assert "" + "#" + b + w + l == "#" + (b + w + l);
  }

  lemma ZeroJoin(f: Sentence)
    requires From(f, 4)
    ensures TailText(f.(zero := true)) == "0" + TailText(f)
  {
    hide LateText, SizeText;
    LateSame(f, f.(zero := true));
    var w, l := SizeText(f.width), LateText(f);
    assert "" + "" + "" + w + l == w + l;
    assert "" + "" + "0" + w + l == "0" + (w + l);
  }

  lemma WidthJoin(f: Sentence, size: Size)
    requires From(f, 5)
    ensures TailText(f.(width := size)) == SizeText(size) + TailText(f)
  {
    hide LateText;
    LateSame(f, f.(width := size));
    var w, l := SizeText(size), LateText(f);
    assert "" + "" + "" + "" + l == l;
    assert "" + "" + "" + w + l == w + l;
  }

  lemma TailIsLate(f: Sentence)
    requires From(f, 5)
    ensures TailText(f) == LateText(f)
  {
    hide LateText;
    assert "" + "" + "" + "" + LateText(f) == LateText(f);
  }

  lemma PrecisionJoin(f: Sentence, size: Size)
    requires From(f, 6) && size != NoSize
    ensures TailText(f.(precision := size)) == "." + SizeText(size) + TailText(f)
  {
    var g := f.(precision := size);
    TailIsLate(f);
    TailIsLate(g);
    TypeSame(f, g);
    LateIs(f);
    LateIs(g);
    assert PrecisionText(f) == "" && PrecisionText(g) == "." + SizeText(size);
    hide SizeText, TailText, LateText, PrecisionText, FlagText, TypeText;
    JoinLate("." + SizeText(size), FlagText(f.localized, 'L'), TypeText(f));
  }

  lemma LateIs(f: Sentence)
    ensures LateText(f) == PrecisionText(f) + FlagText(f.localized, 'L') + TypeText(f)
  {
  }

  lemma JoinLate(a: Text, l: Text, y: Text)
    ensures a + l + y == a + ("" + l + y)
  {
  }

  lemma TypeSame(f: Sentence, g: Sentence)
    requires f.ty == g.ty
    ensures TypeText(f) == TypeText(g)
  {
  }

  lemma LocaleJoin(f: Sentence)
    requires From(f, 7)
    ensures TailText(f.(localized := true)) == "L" + TailText(f)
  {
    var g := f.(localized := true);
    TailIsLate(f);
    TailIsLate(g);
    TypeSame(f, g);
    LateIs(f);
    LateIs(g);
    assert PrecisionText(f) == PrecisionText(g) == "" && FlagText(false, 'L') == "" && FlagText(true, 'L') == "L";
    hide TailText, LateText, PrecisionText, FlagText, TypeText;
    var y := TypeText(f);
    assert "" + "L" + y == "L" + ("" + "" + y);
  }

  lemma TypeJoin(c: Unit)
    ensures TailText(EMPTY.(ty := Some(c))) == [c] && TailText(EMPTY) == ""
  {
    TailIsLate(EMPTY);
    TailIsLate(EMPTY.(ty := Some(c)));
    hide TailText;
  }

  // ---- One part in front of the rest --------------------------------------------------------------------

  /** A piece of text and a rest make a longer rest. */
  lemma PieceJoin(s: Text, q: Parse, n: Parse, piece: Text, f: Sentence, g: Sentence, end: nat, t: ArgType)
    requires Rest(s, n, end, f, t) && At(s, q.pos, piece) && n.pos == q.pos + |piece|
    requires TailText(g) == piece + TailText(f)
    requires SentenceOk(g, t) && Fit(g) && From(g, q.state.Rank()) && Numbered(g, q.ctx.next)
    ensures Rest(s, q, end, g, t)
  {
    hide At, TailText, SentenceOk, Fit, Numbered, From;
    AtJoin(s, q.pos, piece, TailText(f));
  }

  lemma SignBack(s: Text, q: Parse, t: ArgType, f: Sentence, end: nat) returns (g: Sentence)
    requires q.pos < |s| && (s[q.pos] == '+' || s[q.pos] == '-' || s[q.pos] == ' ')
    requires q.state.Rank() < 2 && TakesSign(t)
    requires Rest(s, q.(pos := q.pos + 1, state := SignState), end, f, t)
    ensures Rest(s, q, end, g, t)
  {
    hide At, TailText, SizeOk, FillOk, SizeRef, Letters, Fits;
    var c := s[q.pos];
    g := f.(sign := Some(c));
    AtChar(s, q.pos, c);
    SignJoin(f, c);
    PieceJoin(s, q, q.(pos := q.pos + 1, state := SignState), [c], f, g, end, t);
  }

  lemma AltBack(s: Text, q: Parse, t: ArgType, f: Sentence, end: nat) returns (g: Sentence)
    requires q.pos < |s| && s[q.pos] == '#' && q.state.Rank() < 3 && TakesFlags(t)
    requires Rest(s, q.(pos := q.pos + 1, state := HashState), end, f, t)
    ensures Rest(s, q, end, g, t)
  {
    hide At, TailText, SizeOk, FillOk, SizeRef, Letters, Fits;
    g := f.(alt := true);
    AtChar(s, q.pos, '#');
    AltJoin(f);
    PieceJoin(s, q, q.(pos := q.pos + 1, state := HashState), "#", f, g, end, t);
  }

  lemma ZeroBack(s: Text, q: Parse, t: ArgType, f: Sentence, end: nat) returns (g: Sentence)
    requires q.pos < |s| && s[q.pos] == '0' && q.state.Rank() < 4 && TakesFlags(t)
    requires Rest(s, q.(pos := q.pos + 1, state := ZeroState), end, f, t)
    ensures Rest(s, q, end, g, t)
  {
    hide At, TailText, SizeOk, FillOk, SizeRef, Letters, Fits;
    g := f.(zero := true);
    AtChar(s, q.pos, '0');
    ZeroJoin(f);
    PieceJoin(s, q, q.(pos := q.pos + 1, state := ZeroState), "0", f, g, end, t);
  }

  lemma LocaleBack(s: Text, q: Parse, t: ArgType, f: Sentence, end: nat) returns (g: Sentence)
    requires q.pos < |s| && s[q.pos] == 'L' && q.state.Rank() < 7 && TakesFlags(t)
    requires Rest(s, q.(pos := q.pos + 1, state := LocaleState), end, f, t)
    ensures Rest(s, q, end, g, t)
  {
    hide At, TailText, SizeOk, FillOk, SizeRef, Letters, Fits;
    g := f.(localized := true);
    AtChar(s, q.pos, 'L');
    LocaleJoin(f);
    PieceJoin(s, q, q.(pos := q.pos + 1, state := LocaleState), "L", f, g, end, t);
  }

  lemma WidthBack(s: Text, q: Parse, t: ArgType, a: Amount, f: Sentence, end: nat) returns (g: Sentence)
    requires q.pos < |s| && ('1' <= s[q.pos] <= '9' || s[q.pos] == '{') && q.state.Rank() < 5
    requires q.ctx == RuntimeContext(q.ctx.next) && ParseDynamicSpec(s, q.pos, q.ctx) == Ok(a)
    requires Rest(s, q.(pos := a.end, state := WidthState, ctx := a.ctx), end, f, t)
    ensures Rest(s, q, end, g, t)
  {
    hide ParseDynamicSpec, At, TailText, SizeOk, FillOk, Letters, Fits, SizeText;
    var size := SizeBack(s, q.pos, q.ctx.next);
    g := f.(width := size);
    WidthJoin(f, size);
    PieceJoin(s, q, q.(pos := a.end, state := WidthState, ctx := a.ctx), SizeText(size), f, g, end, t);
  }

  lemma PrecisionBack(s: Text, q: Parse, t: ArgType, a: Amount, f: Sentence, end: nat) returns (g: Sentence)
    requires q.pos + 1 < |s| && s[q.pos] == '.' && q.state.Rank() < 6 && TakesPrecision(t)
    requires q.ctx == RuntimeContext(q.ctx.next) && ParseDynamicSpec(s, q.pos + 1, q.ctx) == Ok(a)
    requires Rest(s, q.(pos := a.end, state := PrecisionState, ctx := a.ctx), end, f, t)
    ensures Rest(s, q, end, g, t)
  {
    hide ParseDynamicSpec, At, TailText, SizeOk, FillOk, Letters, Fits, SizeText;
    var size := SizeBack(s, q.pos + 1, q.ctx.next);
    g := f.(precision := size);
    PrecisionJoin(f, size);
    AtChar(s, q.pos, '.');
    AtJoin(s, q.pos, ".", SizeText(size));
    PieceJoin(s, q, q.(pos := a.end, state := PrecisionState, ctx := a.ctx), "." + SizeText(size), f, g, end, t);
  }

  /** What one round does that goes on, part by part. */
  lemma RoundIs(s: Text, q: Parse, t: ArgType)
    requires q.pos < |s| && (q.state.Rank() >= 1 || Begins(s[q.pos], t))
    ensures var c, x := s[q.pos], ParseStep(s, q, s[q.pos], t);
      x.Ok? && x.value.More? ==> FlagMoved(s, q, x.value.next, t) || SizeMoved(s, q, x.value.next, t)
  {
    hide ParseDynamicSpec, PresentationOf, CodePointLength;
    var c := s[q.pos];
    if c == '{' || '1' <= c <= '9' {
      assert ParseStep(s, q, c, t) == WidthStep(s, q);
    } else if c == '.' {
      assert ParseStep(s, q, c, t) == PrecisionStep(s, q, t);
    } else {
      FlagRound(s, q, t);
    }
  }

  lemma FlagRound(s: Text, q: Parse, t: ArgType)
    requires q.pos < |s| && (q.state.Rank() >= 1 || Begins(s[q.pos], t))
    requires s[q.pos] != '{' && s[q.pos] != '.' && !('1' <= s[q.pos] <= '9')
    ensures var x := ParseStep(s, q, s[q.pos], t);
      x.Ok? && x.value.More? ==> FlagMoved(s, q, x.value.next, t)
  {
    TypeNoAlign(s[q.pos], t);
    TypeTable(t);
    hide PresentationOf, CodePointLength, WidthStep, PrecisionStep, IsUpper, TakesSign, TakesFlags, TakesPrecision,
         ArgType.Signed, ArgType.Floating, ArgType.Arithmetic;
  }

  predicate FlagMoved(s: Text, q: Parse, n: Parse, t: ArgType)
    requires q.pos < |s|
  {
    var c := s[q.pos];
    || ((c == '+' || c == '-' || c == ' ') && q.state.Rank() < 2 && TakesSign(t)
        && Moved(n, q, q.pos + 1, SignState, q.ctx))
    || (c == '#' && q.state.Rank() < 3 && TakesFlags(t) && Moved(n, q, q.pos + 1, HashState, q.ctx))
    || (c == '0' && q.state.Rank() < 4 && TakesFlags(t) && Moved(n, q, q.pos + 1, ZeroState, q.ctx))
    || (c == 'L' && q.state.Rank() < 7 && TakesFlags(t) && Moved(n, q, q.pos + 1, LocaleState, q.ctx))
  }

  predicate SizeMoved(s: Text, q: Parse, n: Parse, t: ArgType)
    requires q.pos < |s|
  {
    var c := s[q.pos];
    if c == '.' then
      && q.state.Rank() < 6 && TakesPrecision(t) && q.pos + 1 < |s|
      && var a := ParseDynamicSpec(s, q.pos + 1, q.ctx);
         a.Ok? && Moved(n, q, a.value.end, PrecisionState, a.value.ctx)
    else
      && ('1' <= c <= '9' || c == '{') && q.state.Rank() < 5
      && var a := ParseDynamicSpec(s, q.pos, q.ctx);
         a.Ok? && Moved(n, q, a.value.end, WidthState, a.value.ctx)
  }

  /** n is q in another state and place. */
  predicate Moved(n: Parse, q: Parse, pos: nat, state: State, ctx: Context)
  {
    n.pos == pos && n.state == state && n.ctx == ctx
  }

  /** The rest does not depend on the specifiers collected. */
  lemma RestMoved(s: Text, n: Parse, q: Parse, end: nat, f: Sentence, t: ArgType, pos: nat, state: State, ctx: Context)
    requires Rest(s, n, end, f, t) && Moved(n, q, pos, state, ctx)
    ensures Rest(s, q.(pos := pos, state := state, ctx := ctx), end, f, t)
  {
    hide SentenceOk, Fit, Numbered, At, TailText;
  }

  lemma PartBack(s: Text, q: Parse, t: ArgType, n: Parse, f: Sentence, end: nat) returns (g: Sentence)
    requires q.pos < |s| && q.ctx == RuntimeContext(q.ctx.next) && (q.state.Rank() >= 1 || Begins(s[q.pos], t))
    requires ParseStep(s, q, s[q.pos], t) == Ok(More(n)) && Rest(s, n, end, f, t)
    ensures Rest(s, q, end, g, t)
  {
    hide Rest, ParseStep, ParseDynamicSpec, Begins;
    RoundIs(s, q, t);
    var c := s[q.pos];
    RestMoved(s, n, q, end, f, t, n.pos, n.state, n.ctx);
    if c == '+' || c == '-' || c == ' ' {
      g := SignBack(s, q, t, f, end);
    } else if c == '#' {
      g := AltBack(s, q, t, f, end);
    } else if c == '0' {
      g := ZeroBack(s, q, t, f, end);
    } else if c == '.' {
      g := PrecisionBack(s, q, t, ParseDynamicSpec(s, q.pos + 1, q.ctx).value, f, end);
    } else if c == 'L' {
      g := LocaleBack(s, q, t, f, end);
    } else {
      g := WidthBack(s, q, t, ParseDynamicSpec(s, q.pos, q.ctx).value, f, end);
    }
  }

  /** A round that ends the specifiers: a type or the brace. */
  lemma DoneBack(s: Text, q: Parse, t: ArgType) returns (f: Sentence)
    requires q.pos < |s|
    requires var x := ParseStep(s, q, s[q.pos], t);
      x.Ok? && x.value.Done? && x.value.last.pos < |s| && s[x.value.last.pos] == '}'
    ensures Rest(s, q, ParseStep(s, q, s[q.pos], t).value.last.pos, f, t)
  {
    hide ParseStep, TailText, PresentationOf, Rest, At;
    var c := s[q.pos];
    DoneIs(s, q, t);
    if c == '}' {
      f := EMPTY;
      BraceRest(s, q, t);
    } else {
      f := EMPTY.(ty := Some(c));
      TypeRest(s, q, t);
    }
  }

  lemma BraceRest(s: Text, q: Parse, t: ArgType)
    requires q.pos < |s|
    ensures Rest(s, q, q.pos, EMPTY, t)
  {
    TypeJoin('d');
    hide TailText;
  }

  lemma TypeRest(s: Text, q: Parse, t: ArgType)
    requires q.pos < |s| && s[q.pos] in Letters(t)
    ensures Rest(s, q, q.pos + 1, EMPTY.(ty := Some(s[q.pos])), t)
  {
    TypeJoin(s[q.pos]);
    AtOne(s, q.pos);
    hide TailText, Letters, At;
  }

  lemma DoneIs(s: Text, q: Parse, t: ArgType)
    requires q.pos < |s|
    ensures var c, x := s[q.pos], ParseStep(s, q, s[q.pos], t);
      x.Ok? && x.value.Done? ==>
        if c == '}' then x.value.last.pos == q.pos
        else x.value.last.pos == q.pos + 1 && c in Letters(t)
  {
    LetterTable(s[q.pos], t);
    hide Letters, TypeMeaning;
    BraceTaken(s, q, t);
    hide PresentationOf, CodePointLength, IsUpper, WidthStep, PrecisionStep;
  }

  lemma {:induction false} RestBack(s: Text, q: Parse, t: ArgType, last: Parse) returns (f: Sentence)
    requires q.pos < |s| && q.ctx == RuntimeContext(q.ctx.next) && (q.state.Rank() >= 1 || Begins(s[q.pos], t))
    requires ParseRest(s, q, t) == Ok(last) && last.pos < |s| && s[last.pos] == '}'
    ensures Rest(s, q, last.pos, f, t)
    decreases |s| - q.pos
  {
    hide Rest, ParseStep, ParseDynamicSpec, Begins;
    var step := ParseStep(s, q, s[q.pos], t);
    if step.value.Done? {
      f := DoneBack(s, q, t);
    } else {
      RoundIs(s, q, t);
      StepRuntime(s, q, t);
      var n := step.value.next;
      RankUp(s, q, n, t);
      var r := RestBack(s, n, t, last);
      f := PartBack(s, q, t, n, r, last.pos);
    }
  }

  lemma RankUp(s: Text, q: Parse, n: Parse, t: ArgType)
    requires q.pos < |s| && (FlagMoved(s, q, n, t) || SizeMoved(s, q, n, t))
    ensures n.state.Rank() >= 1
  {
    hide ParseDynamicSpec;
  }

  lemma StepRuntime(s: Text, q: Parse, t: ArgType)
    requires q.pos < |s| && q.ctx == RuntimeContext(q.ctx.next)
    ensures var x := ParseStep(s, q, s[q.pos], t);
      x.Ok? && x.value.More? ==>
        x.value.next.ctx == RuntimeContext(x.value.next.ctx.next) && x.value.next.pos <= |s|
  {
    hide ParseStep;
  }

  // ---- The alignment in front -------------------------------------------------------------------------

  /** How the first round of the parser can end. */
  lemma FirstIs(s: Text, p: nat, t: ArgType, next: int)
    requires p < |s|
    ensures var q, c := InitialParse(p, RuntimeContext(next)), FirstChar(s, p);
      var x := ParseStep(s, q, c, t);
      x.Ok? ==>
        || (x.value.Done? && x.value.last.pos == p && s[p] == '}')
        || (c == s[p] && Begins(c, t))
        || (c == s[p] && ParseAlign(c) != NoAlign && x.value.More? && Moved(x.value.next, q, p + 1, AlignState, q.ctx))
        || (x.value.More? && s[p] != '{' && s[p] != '}'
            && p + CodePointLength(s[p]) < |s| && ParseAlign(s[p + CodePointLength(s[p])]) != NoAlign
            && Moved(x.value.next, q, p + CodePointLength(s[p]) + 1, AlignState, q.ctx))
  {
    BraceTaken(s, InitialParse(p, RuntimeContext(next)), t);
    FillTaken(s, InitialParse(p, RuntimeContext(next)), '\0', t);
    hide PresentationOf, CodePointLength, ParseDynamicSpec;
  }

  lemma AlignBack(s: Text, p: nat, a: nat, t: ArgType, next: int, r: Sentence, n: Parse, end: nat) returns (f: Sentence)
    requires p <= a < |s| && ParseAlign(s[a]) != NoAlign && (a == p || FillOk(s[p..a]))
    requires n.pos == a + 1 && n.state == AlignState && n.ctx == RuntimeContext(next) && Rest(s, n, end, r, t)
    ensures SentenceOk(f, t) && Fit(f) && Numbered(f, next) && At(s, p, Write(f)) && end == p + |Write(f)|
  {
    hide At, TailText, SizeOk, FillOk, SizeRef, Letters, Fits, AlignText;
    f := r.(fill := s[p..a], align := ParseAlign(s[a]));
    TailSame(f, r);
    AlignAt(s, p, a, f);
    AtJoin(s, p, AlignText(f), TailText(f));
  }

  lemma AlignAt(s: Text, p: nat, a: nat, f: Sentence)
    requires p <= a < |s| && ParseAlign(s[a]) != NoAlign && f.fill == s[p..a] && f.align == ParseAlign(s[a])
    ensures At(s, p, AlignText(f)) && |AlignText(f)| == a + 1 - p
  {
    AtOne(s, a);
    AtJoin(s, p, s[p..a], [s[a]]);
    assert AlignChar(f.align) == s[a];
  }

  lemma TailSame(f: Sentence, g: Sentence)
    requires g == f.(fill := g.fill, align := g.align)
    ensures TailText(f) == TailText(g)
  {
    LateSame(f, g);
    hide LateText, SizeText;
  }

  /**
   * The converse: whatever the parser accepts up to a closing brace is a sentence of the documented
   * grammar that suits the argument type, with numbers that fit, and is taken for what it means.
   */
  lemma ParsedIsSentence(s: Text, p: nat, t: ArgType, next: int, x: Parse) returns (f: Sentence)
    requires p <= |s| && ParseSpecs(s, p, RuntimeContext(next), t) == Ok(x) && x.pos < |s| && s[x.pos] == '}'
    ensures SentenceOk(f, t) && Fit(f) && Numbered(f, next) && s[p..x.pos] == Write(f)
    ensures var width, n := SizeRef(f.width, next).value.0, NextAfter(f.width, next);
      var precision, m := SizeRef(f.precision, n).value.0, NextAfter(f.precision, n);
      x.specs == Meaning(f, width, precision) && x.ctx == RuntimeContext(m)
  {
    hide ParseSpecs, Write, SentenceOk, Fit, At, Meaning, SizeRef, NextAfter;
    f := TextBack(s, p, t, next, x);
    WrittenAt(s, p, Write(f));
    SentenceParsed(s, p, f, t, next);
  }

  lemma WrittenAt(s: Text, p: nat, text: Text)
    requires At(s, p, text)
    ensures s[p..p + |text|] == text
  {
  }

  /** The sentence that the accepted text writes. */
  lemma TextBack(s: Text, p: nat, t: ArgType, next: int, x: Parse) returns (f: Sentence)
    requires p <= |s| && ParseSpecs(s, p, RuntimeContext(next), t) == Ok(x) && x.pos < |s| && s[x.pos] == '}'
    ensures SentenceOk(f, t) && Fit(f) && Numbered(f, next) && At(s, p, Write(f)) && x.pos == p + |Write(f)|
  {
    hide ParseStep, Rest, Begins, SentenceOk, Fit, Numbered, At, Write, ParseDynamicSpec;
    FirstIs(s, p, t, next);
    var q, c := InitialParse(p, RuntimeContext(next)), FirstChar(s, p);
    var step := ParseStep(s, q, c, t);
    if c == s[p] && Begins(c, t) {
      BeginsPlain(s, p, t, next);
      f := RestBack(s, q, t, x);
      PlainText(s, q, x.pos, f, t);
    } else if step.value.Done? {
      f := EMPTY;
      EmptyText(s, p, t, next);
    } else {
      f := AlignedText(s, p, t, next, step.value.next, x);
    }
  }

  lemma AlignedText(s: Text, p: nat, t: ArgType, next: int, n: Parse, x: Parse) returns (f: Sentence)
    requires p < |s| && x.pos < |s| && s[x.pos] == '}' && n.pos <= |s| && ParseRest(s, n, t) == Ok(x)
    requires Moved(n, InitialParse(p, RuntimeContext(next)), n.pos, AlignState, RuntimeContext(next))
    requires p < n.pos && ParseAlign(s[n.pos - 1]) != NoAlign
    requires n.pos == p + 1 || FillOk(s[p..n.pos - 1])
    ensures SentenceOk(f, t) && Fit(f) && Numbered(f, next) && At(s, p, Write(f)) && x.pos == p + |Write(f)|
  {
    hide SentenceOk, Fit, Numbered, At, Write, ParseDynamicSpec, Rest, ParseRest, FillOk;
    var r := RestBack(s, n, t, x);
    f := AlignBack(s, p, n.pos - 1, t, next, r, n, x.pos);
  }

  /** Without an alignment the first round is like the others. */
  lemma BeginsPlain(s: Text, p: nat, t: ArgType, next: int)
    requires p < |s| && FirstChar(s, p) == s[p]
    ensures ParseSpecs(s, p, RuntimeContext(next), t) == ParseRest(s, InitialParse(p, RuntimeContext(next)), t)
  {
    hide ParseStep;
  }

  lemma PlainText(s: Text, q: Parse, end: nat, f: Sentence, t: ArgType)
    requires Rest(s, q, end, f, t)
    ensures SentenceOk(f, t) && Fit(f) && Numbered(f, q.ctx.next) && At(s, q.pos, Write(f)) && end == q.pos + |Write(f)|
  {
    hide TailText, SentenceOk, Fit, Numbered, At, Write;
    PlainWrite(f);
  }

  lemma EmptyText(s: Text, p: nat, t: ArgType, next: int)
    requires p <= |s|
    ensures Write(EMPTY) == "" && At(s, p, "") && SentenceOk(EMPTY, t) && Fit(EMPTY) && Numbered(EMPTY, next)
  {
    TypeJoin('d');
    assert "" + TailText(EMPTY) == TailText(EMPTY);
    hide TailText;
  }

  const ELEVEN := "00000000001"

  /** Leading zeros count as digits: eleven of them make the number one too big. */
  lemma LeadingZeros()
    ensures NumberOf(ELEVEN) == 1
    ensures ParseSpecs("." + ELEVEN + "}", 0, RuntimeContext(0), DoubleType) == Err(NumberTooBig)
  {
    ElevenDigits();
    PrecisionTooBig(ELEVEN, DoubleType, 0);
  }

  /** A precision alone, of digits the parser does not take. */
  lemma PrecisionTooBig(d: Text, t: ArgType, next: int)
    requires Digits(d) && !Bounded(d) && TakesPrecision(t)
    ensures ParseSpecs("." + d + "}", 0, RuntimeContext(next), t) == Err(NumberTooBig)
  {
    var f, s := EMPTY.(precision := Number(d)), "." + d + "}";
    PrecisionWritten(d, f);
    hide Write, NumberOf, Decimal, ParseSpecs, Digits;
    assert s[0..|d| + 1] == "." + d;
    SentenceParsed(s, 0, f, t, next);
  }

  lemma PrecisionWritten(d: Text, f: Sentence)
    requires f == EMPTY.(precision := Number(d))
    ensures Write(f) == "." + d
  {
    PrecisionJoin(EMPTY, Number(d));
    TypeJoin('d');
    PlainWrite(f);
    hide Write, TailText;
    assert "." + d + "" == "." + d;
  }

  lemma ElevenDigits()
    ensures NumberOf(ELEVEN) == 1 && Digits(ELEVEN) && |ELEVEN| == 11
  {
    var d := ELEVEN;
    assert forall i :: 0 <= i < 10 ==> d[i] == '0';
    ZerosRead(d, 10);
    assert Decimal(d, 0, 11) == Decimal(d, 0, 10) * 10 + DigitValue(d[10]);
  }

  lemma PlainWrite(f: Sentence)
    requires f.align == NoAlign
    ensures Write(f) == TailText(f)
  {
    hide TailText;
    assert "" + TailText(f) == TailText(f);
  }

  lemma {:induction false} ZerosRead(d: Text, k: nat)
    requires k <= |d| && forall i :: 0 <= i < k ==> d[i] == '0'
    ensures Decimal(d, 0, k) == 0
  {
    if k > 0 {
      ZerosRead(d, k - 1);
    }
  }
}
