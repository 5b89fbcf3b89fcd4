/** What a format string means, piece by piece, and that formatting yields exactly that. */
module FormatMeaning {
  import opened Common
  import opened FormatSpec
  import opened FormatGrammar
  import opened FormatRun

  // ---- Format strings -------------------------------------------------------------------------------

  /** Literal text, or a replacement field: a reference to its argument, and specifications if there are any. */
  datatype Piece = Literal(text: Text) | Field(ref: Size, spec: Option<Sentence>)

  function RefText(ref: Size): Text
  {
    match ref
    case ByIndex(digits) => digits
    case ByName(name) => name
    case _ => ""
  }

  function SpecText(spec: Option<Sentence>): Text
  {
    match spec
    case None => ""
    case Some(f) => ":" + Write(f)
  }

  function PieceText(piece: Piece): Text
  {
    match piece
    case Literal(text) => Escape(text)
    case Field(ref, spec) => "{" + RefText(ref) + SpecText(spec) + "}"
  }

  function WriteAll(pieces: seq<Piece>): Text
  {
    if pieces == [] then "" else PieceText(pieces[0]) + WriteAll(pieces[1..])
  }

  predicate RefOk(ref: Size)
  {
    (ref.Automatic? || ref.ByIndex? || ref.ByName?) && SizeOk(ref)
  }

  // ---- What they mean -------------------------------------------------------------------------------

  /** The argument a reference stands for; of several with the same name the first. */
  function Referred(args: seq<Arg>, ref: ArgRef): Option<Arg>
  {
    match ref
    case NoRef => None
    case Index(id) => if 0 <= id < |args| then Some(args[id]) else None
    case Name(name) =>
      var i := FindName(args, name, 0);
      if i.None? then None else Some(args[i.value])
  }

  /** The argument of a field, and the numbering after its reference. */
  function FieldArg(args: seq<Arg>, ref: Size, next: int): Result<(Arg, int)>
  {
    var r := SizeRef(ref, next);
    if r.None? then Err(if ref.Automatic? then ManualToAutomatic else AutomaticToManual)
    else
      var arg := Referred(args, r.value.0);
      if arg.None? then Err(ArgumentNotFound) else Ok((arg.value, r.value.1))
  }

  predicate CountsAsSize(t: ArgType)
  {
    match t
    case IntType | UIntType | LongLongType | ULongLongType | Int128Type | UInt128Type => true
    case _ => false
  }

  /** The number a size stands for: the one written, the value of the argument it refers to, or none. */
  function SizeValue(args: seq<Arg>, size: Size, next: int, none: int): Result<int>
    requires SizeRef(size, next).Some?
  {
    match size
    case NoSize => Ok(none)
    case Number(digits) => Ok(NumberOf(digits))
    case _ =>
      var arg := Referred(args, SizeRef(size, next).value.0);
      if arg.None? then Err(DynamicNotFound)
      else if !CountsAsSize(arg.value.ty) then Err(DynamicNotInteger)
      else if !(0 <= arg.value.number <= INT_MAX) then Err(DynamicOutOfRange)
      else Ok(arg.value.number)
  }

  /** A char printed as a character does not go with what makes sense for numbers only. */
  predicate ForNumbers(f: Sentence, t: ArgType)
  {
    t.CharType? && (f.ty.None? || f.ty.value in "c?") && (f.alt || (f.zero && f.align == NoAlign))
  }

  /** The output of an argument under specifications. */
  function SpecMeaning(r: Renderer, args: seq<Arg>, arg: Arg, f: Sentence, next: int): Result<Text>
    requires Numbered(f, next)
  {
    if !Fit(f) then Err(NumberTooBig)
    else
      var width :- SizeValue(args, f.width, next, 0);
      var precision :- SizeValue(args, f.precision, NextAfter(f.width, next), -1);
      if ForNumbers(f, arg.ty) then Err(InvalidCharSpecifier)
      else Ok(r.spec(arg, Settings(f, width, precision)))
  }

  function NumberingAfter(spec: Option<Sentence>, next: int): int
  {
    match spec
    case None => next
    case Some(f) => NextAfter(f.precision, NextAfter(f.width, next))
  }

  /** A piece of the documented grammar: specifications suit the argument they are for. */
  predicate PieceOk(args: seq<Arg>, piece: Piece, next: int)
  {
    match piece
    case Literal(_) => true
    case Field(ref, spec) =>
      && RefOk(ref)
      && var a := FieldArg(args, ref, next);
         a.Ok? && spec.Some? ==> SentenceOk(spec.value, a.value.0.ty) && Numbered(spec.value, a.value.1)
  }

  /** The output of a piece, and the numbering after it. */
  function PieceMeaning(r: Renderer, args: seq<Arg>, piece: Piece, next: int): Result<(Text, int)>
    requires PieceOk(args, piece, next)
  {
    match piece
    case Literal(text) => Ok((text, next))
    case Field(ref, spec) =>
      var (arg, n) :- FieldArg(args, ref, next);
      if spec.None? then Ok((r.plain(arg), n))
      else
        var out :- SpecMeaning(r, args, arg, spec.value, n);
        Ok((out, NumberingAfter(spec, n)))
  }

  /** Whether the pieces are of the grammar, up to a field without an argument. */
  predicate PiecesOk(args: seq<Arg>, pieces: seq<Piece>, next: int)
  {
    pieces == [] ||
    (PieceOk(args, pieces[0], next)
     && match pieces[0]
        case Literal(_) => PiecesOk(args, pieces[1..], next)
        case Field(ref, spec) =>
          var a := FieldArg(args, ref, next);
          a.Ok? ==> PiecesOk(args, pieces[1..], NumberingAfter(spec, a.value.1)))
  }

  /** The outputs of the pieces one after the other, or the first error. */
  function AllMean(r: Renderer, args: seq<Arg>, pieces: seq<Piece>, next: int): Result<Text>
    requires PiecesOk(args, pieces, next)
  {
    if pieces == [] then Ok("")
    else
      var (out, n) :- PieceMeaning(r, args, pieces[0], next);
      var rest :- AllMean(r, args, pieces[1..], n);
      Ok(out + rest)
  }

  // ---- Formatting yields it ---------------------------------------------------------------------------

  lemma ResolvedIs(args: seq<Arg>, size: Size, next: int, none: int)
    requires SizeRef(size, next).Some?
    ensures ResolveDynamic(args, SizeRef(size, next).value.0, SizeNumber(size, none))
         == SizeValue(args, size, next, none)
  {
    hide FindName, NumberOf, IndexOf;
  }

  lemma CharRule(f: Sentence, w: ArgRef, p: ArgRef)
    requires SentenceOk(f, CharType)
    ensures CharSpecsValid(Meaning(f, w, p)) <==> !ForNumbers(f, CharType)
  {
    hide SizeOk, NumberOf, FillOk;
  }

  /** Rendering with what the parser collected is rendering with the sentence's settings. */
  lemma ArgFormatted(r: Renderer, args: seq<Arg>, arg: Arg, f: Sentence, next: int)
    requires SentenceOk(f, arg.ty) && Numbered(f, next) && Fit(f)
    ensures var w, p := SizeRef(f.width, next).value.0, SizeRef(f.precision, NextAfter(f.width, next)).value.0;
      FormatArg(r, args, arg, Meaning(f, w, p)) == SpecMeaning(r, args, arg, f, next)
  {
    var n := NextAfter(f.width, next);
    var w, p := SizeRef(f.width, next).value.0, SizeRef(f.precision, n).value.0;
    ResolvedIs(args, f.width, next, 0);
    ResolvedIs(args, f.precision, n, -1);
    if arg.ty.CharType? {
      CharRule(f, w, p);
    }
    hide SentenceOk, Fit, SizeValue, ResolveDynamic, CharSpecsValid, SizeRef, NextAfter, NumberOf, TypeMeaning,
         SignMeaning;
  }

  /** The reference of a field is read, up to the brace or colon after it. */
  lemma RefRead(s: Text, p: nat, ref: Size, args: seq<Arg>, next: int)
    requires RefOk(ref) && At(s, p, RefText(ref))
    requires p + |RefText(ref)| < |s| && (s[p + |RefText(ref)|] == '}' || s[p + |RefText(ref)|] == ':')
    ensures s[p] != '{'
    ensures var x, r := ParseFieldId(s, p, args, next), SizeRef(ref, next);
      if r.None? then x == Err(if ref.Automatic? then ManualToAutomatic else AutomaticToManual)
      else
        && (x.Ok? ==> x.value.1 == r.value.1 && x.value.2 == p + |RefText(ref)|)
        && (x.Ok? ==> ArgAt(args, x.value.0) == Referred(args, r.value.0))
        && (x.Err? ==> x == Err(ArgumentNotFound) && Referred(args, r.value.0).None?)
  {
    hide At, ParseArgId, Digits, IndexOf, IsName, FindName;
    match ref
    case Automatic =>
    case ByIndex(digits) => IndexRead(s, p, digits);
    case ByName(name) => NamedRead(s, p, name);
  }

  /** The specifications of a field are read, and its argument is rendered with them. */
  lemma SpecRead(r: Renderer, s: Text, q: nat, args: seq<Arg>, id: nat, f: Sentence, next: int)
    requires q < |s| && s[q] == ':' && id < |args| && SentenceOk(f, args[id].ty) && Numbered(f, next)
    requires At(s, q + 1, Write(f)) && q + 1 + |Write(f)| < |s| && s[q + 1 + |Write(f)|] == '}'
    ensures var out := SpecMeaning(r, args, args[id], f, next);
      FinishField(r, s, q, args, id, next)
        == if out.Err? then Err(out.error) else Ok((out.value, NumberingAfter(Some(f), next), q + 2 + |Write(f)|))
  {
    hide At, SentenceOk, Write, ParseSpecs, FormatArg, Meaning, SizeRef, NextAfter, SizeValue, Settings, FinishField;
    SentenceParsed(s, q + 1, f, args[id].ty, next);
    FinishSpecs(r, s, q, args, id, next);
    if Fit(f) {
      ArgFormatted(r, args, args[id], f, next);
    }
    hide Fit;
  }

  /** Where the parts of a field lie. */
  lemma FieldAt(s: Text, p: nat, ref: Size, spec: Option<Sentence>)
    requires At(s, p, PieceText(Field(ref, spec)))
    ensures var a, b := RefText(ref), SpecText(spec);
      && |PieceText(Field(ref, spec))| == |a| + |b| + 2
      && s[p] == '{' && At(s, p + 1, a) && At(s, p + 1 + |a|, b)
      && p + 1 + |a| + |b| < |s| && s[p + 1 + |a| + |b|] == '}'
  {
    PartsAt(s, p, RefText(ref), SpecText(spec));
    hide At, RefText, SpecText;
  }

  lemma PartsAt(s: Text, p: nat, a: Text, b: Text)
    requires At(s, p, "{" + a + b + "}")
    ensures s[p] == '{' && At(s, p + 1, a) && At(s, p + 1 + |a|, b)
    ensures p + 1 + |a| + |b| < |s| && s[p + 1 + |a| + |b|] == '}'
  {
    hide At;
    AtParts(s, p, "{" + a + b, "}");
    AtParts(s, p, "{" + a, b);
    AtParts(s, p, "{", a);
    Head(s, p, "{");
    Head(s, p + 1 + |a| + |b|, "}");
  }

  lemma PlainRead(r: Renderer, s: Text, q: nat, args: seq<Arg>, id: int, next: int)
    requires q < |s|
    ensures ArgAt(args, id).None? ==> FinishField(r, s, q, args, id, next) == Err(ArgumentNotFound)
    ensures ArgAt(args, id).Some? && s[q] == '}' ==>
      FinishField(r, s, q, args, id, next) == Ok((r.plain(args[id]), next, q + 1))
  {
  }

  /** A written field is formatted to what it means. */
  lemma FieldFormatted(r: Renderer, s: Text, p: nat, args: seq<Arg>, ref: Size, spec: Option<Sentence>, next: int)
    requires At(s, p, PieceText(Field(ref, spec))) && PieceOk(args, Field(ref, spec), next)
    ensures p + 1 < |s| && s[p] == '{' && s[p + 1] != '{'
    ensures var out := PieceMeaning(r, args, Field(ref, spec), next);
      RunField(r, s, p + 1, args, next)
        == if out.Err? then Err(out.error)
           else Ok((out.value.0, out.value.1, p + |PieceText(Field(ref, spec))|))
  {
    hide PieceText, At, SentenceOk, Numbered, Write, ParseFieldId, FinishField, RunField, SpecMeaning, SizeRef,
         Referred, RefText, NextAfter;
    FieldAt(s, p, ref, spec);
    var q := p + 1 + |RefText(ref)|;
    SpecStart(s, q, spec);
    RefRead(s, p + 1, ref, args, next);
    RunIs(r, s, p + 1, args, next);
    var field := ParseFieldId(s, p + 1, args, next);
    if field.Ok? {
      var (id, n, _) := field.value;
      PlainRead(r, s, q, args, id, n);
      if ArgAt(args, id).Some? && spec.Some? {
        SpecRead(r, s, q, args, id, spec.value, n);
      }
    }
  }

  /** A field's reference ends at the colon of its specifications or at its brace. */
  lemma SpecStart(s: Text, q: nat, spec: Option<Sentence>)
    requires At(s, q, SpecText(spec)) && q + |SpecText(spec)| < |s| && s[q + |SpecText(spec)|] == '}'
    ensures spec.None? ==> s[q] == '}' && |SpecText(spec)| == 0
    ensures spec.Some? ==> s[q] == ':' && At(s, q + 1, Write(spec.value)) && |SpecText(spec)| == 1 + |Write(spec.value)|
  {
    hide At, Write;
    if spec.Some? {
      AtParts(s, q, ":", Write(spec.value));
      Head(s, q, ":");
    }
  }

  /** Literal text in front of something else. */
  lemma {:induction false} LiteralFormatted(r: Renderer, s: Text, p: nat, text: Text, args: seq<Arg>, next: int)
    requires At(s, p, Escape(text))
    ensures Run(r, s, p, args, next) == Prepend(text, Run(r, s, p + |Escape(text)|, args, next))
    decreases |text|
  {
    hide At, Run, Escape, Prepend;
    EscapeStep(text);
    AtEnd(s, p, Escape(text));
    if text == [] {
      PrependEmpty(Run(r, s, p, args, next));
    } else {
      var head := EscapeUnit(text[0]);
      AtParts(s, p, head, Escape(text[1..]));
      UnitFormatted(r, s, p, text[0], args, next);
      LiteralFormatted(r, s, p + |head|, text[1..], args, next);
      PrependTwice([text[0]], text[1..], Run(r, s, p + |Escape(text)|, args, next));
      assert [text[0]] + text[1..] == text;
    }
  }

  function EscapeUnit(c: Unit): Text
  {
    if c == '{' || c == '}' then [c, c] else [c]
  }

  lemma EscapeStep(text: Text)
    ensures Escape(text) == if text == [] then "" else EscapeUnit(text[0]) + Escape(text[1..])
  {
  }

  lemma UnitFormatted(r: Renderer, s: Text, p: nat, c: Unit, args: seq<Arg>, next: int)
    requires At(s, p, EscapeUnit(c))
    ensures Run(r, s, p, args, next) == Prepend([c], Run(r, s, p + |EscapeUnit(c)|, args, next))
  {
    hide RunField;
    var head := EscapeUnit(c);
    assert s[p] == s[p..p + |head|][0] && s[p + |head| - 1] == s[p..p + |head|][|head| - 1];
  }

  /** The numbering after the pieces, where they mean something. */
  function NumberingAll(r: Renderer, args: seq<Arg>, pieces: seq<Piece>, next: int): int
    requires PiecesOk(args, pieces, next)
  {
    if pieces == [] then next
    else
      var out := PieceMeaning(r, args, pieces[0], next);
      if out.Err? then next else NumberingAll(r, args, pieces[1..], out.value.1)
  }

  /** Pieces in front of something else: their output and then that of the rest, or the first error among them. */
  lemma {:induction false} PiecesThen(r: Renderer, s: Text, p: nat, args: seq<Arg>, pieces: seq<Piece>, next: int)
    requires At(s, p, WriteAll(pieces)) && PiecesOk(args, pieces, next)
    ensures var out := AllMean(r, args, pieces, next);
      Run(r, s, p, args, next)
        == if out.Err? then Err(out.error)
           else Prepend(out.value, Run(r, s, p + |WriteAll(pieces)|, args, NumberingAll(r, args, pieces, next)))
    decreases |pieces|
  {
    hide At, PieceText, PieceOk, RunField;
    AtEnd(s, p, WriteAll(pieces));
    if pieces == [] {
      PrependEmpty(Run(r, s, p, args, next));
    } else {
      var piece, rest := pieces[0], pieces[1..];
      AtParts(s, p, PieceText(piece), WriteAll(rest));
      PieceStep(r, s, p, args, piece, next);
      var out := PieceMeaning(r, args, piece, next);
      if out.Ok? {
        OkAfter(r, args, pieces, next);
        PiecesThen(r, s, p + |PieceText(piece)|, args, rest, out.value.1);
        var more := AllMean(r, args, rest, out.value.1);
        if more.Ok? {
          PrependTwice(out.value.0, more.value,
                       Run(r, s, p + |WriteAll(pieces)|, args, NumberingAll(r, args, pieces, next)));
        }
      }
      hide PieceMeaning, Run, PiecesOk;
    }
  }

  /** Every format string made of pieces is formatted to what they mean, errors included. */
  lemma PiecesFormatted(r: Renderer, args: seq<Arg>, pieces: seq<Piece>)
    requires PiecesOk(args, pieces, 0)
    ensures Format(r, WriteAll(pieces), args) == AllMean(r, args, pieces, 0)
  {
    hide Run, AllMean, WriteAll, PiecesOk, NumberingAll;
    var s, out := WriteAll(pieces), AllMean(r, args, pieces, 0);
    AtAll(s);
    PiecesThen(r, s, 0, args, pieces, 0);
    NothingToRun(r, s, args, NumberingAll(r, args, pieces, 0));
    if out.Ok? {
      PrependLast(out.value);
    }
  }

  lemma AtAll(s: Text)
    ensures At(s, 0, s)
  {
    assert s[0..|s|] == s;
  }

  lemma NothingToRun(r: Renderer, s: Text, args: seq<Arg>, next: int)
    ensures Run(r, s, |s|, args, next) == Ok("")
  {
  }

  /** Behind pieces that mean something, a brace that nothing matches is an error. */
  lemma BraceFails(r: Renderer, args: seq<Arg>, pieces: seq<Piece>, rest: Text)
    requires PiecesOk(args, pieces, 0) && AllMean(r, args, pieces, 0).Ok?
    ensures rest != [] && rest[0] == '}' && (|rest| > 1 ==> rest[1] != '}') ==>
      Format(r, WriteAll(pieces) + rest, args) == Err(UnmatchedBrace)
    ensures rest == "{" ==> Format(r, WriteAll(pieces) + rest, args) == Err(InvalidFormatString)
  {
    hide AllMean, WriteAll, PiecesOk, NumberingAll;
    var text := WriteAll(pieces);
    var s := text + rest;
    AtAll(s);
    AtParts(s, 0, text, rest);
    PiecesThen(r, s, 0, args, pieces, 0);
  }

  lemma OkAfter(r: Renderer, args: seq<Arg>, pieces: seq<Piece>, next: int)
    requires pieces != [] && PiecesOk(args, pieces, next)
    ensures PieceOk(args, pieces[0], next)
    ensures var out := PieceMeaning(r, args, pieces[0], next);
      out.Ok? ==> PiecesOk(args, pieces[1..], out.value.1)
  {
    hide FieldArg, SpecMeaning, SentenceOk, Numbered, NextAfter;
  }

  /** One piece in front of something else. */
  lemma PieceStep(r: Renderer, s: Text, p: nat, args: seq<Arg>, piece: Piece, next: int)
    requires PieceOk(args, piece, next) && At(s, p, PieceText(piece))
    ensures var out := PieceMeaning(r, args, piece, next);
      Run(r, s, p, args, next)
        == if out.Err? then Err(out.error)
           else Prepend(out.value.0, Run(r, s, p + |PieceText(piece)|, args, out.value.1))
  {
    hide At, RunField, Escape, FieldArg, Run, PieceOk;
    match piece
    case Literal(text) => LiteralFormatted(r, s, p, text, args, next);
    case Field(ref, spec) => FieldStep(r, s, p, args, ref, spec, next);
  }

  lemma FieldStep(r: Renderer, s: Text, p: nat, args: seq<Arg>, ref: Size, spec: Option<Sentence>, next: int)
    requires PieceOk(args, Field(ref, spec), next) && At(s, p, PieceText(Field(ref, spec)))
    ensures var out := PieceMeaning(r, args, Field(ref, spec), next);
      Run(r, s, p, args, next)
        == if out.Err? then Err(out.error)
           else Prepend(out.value.0, Run(r, s, p + |PieceText(Field(ref, spec))|, args, out.value.1))
  {
    hide At, RunField, Run, PieceOk, PieceText, PieceMeaning;
    FieldFormatted(r, s, p, args, ref, spec, next);
    FieldRun(r, s, p, args, next);
  }

  lemma FieldRun(r: Renderer, s: Text, p: nat, args: seq<Arg>, next: int)
    requires p + 1 < |s| && s[p] == '{' && s[p + 1] != '{'
    ensures var out := RunField(r, s, p + 1, args, next);
      Run(r, s, p, args, next)
        == if out.Err? then Err(out.error) else Prepend(out.value.0, Run(r, s, out.value.2, args, out.value.1))
  {
    hide RunField;
  }

  // ---- What formats is made of pieces -----------------------------------------------------------------

  /** A reference that is read was written. */
  lemma RefBack(s: Text, p: nat, args: seq<Arg>, next: int) returns (ref: Size)
    requires p < |s| && ParseFieldId(s, p, args, next).Ok?
    requires ArgAt(args, ParseFieldId(s, p, args, next).value.0).Some?
    ensures var (id, n, q) := ParseFieldId(s, p, args, next).value;
      RefOk(ref) && At(s, p, RefText(ref)) && q == p + |RefText(ref)| && FieldArg(args, ref, next) == Ok((args[id], n))
  {
    hide At, ParseArgId, Digits, IndexOf, IsName, FindName;
    if s[p] == '}' || s[p] == ':' {
      ref := Automatic;
      AtNothing(s, p);
    } else {
      ref := ArgIdBack(s, p);
    }
    RefRead(s, p, ref, args, next);
  }

  lemma AtNothing(s: Text, p: nat)
    requires p <= |s|
    ensures At(s, p, "")
  {
  }

  /** The specifications of a field that was formatted are a sentence. */
  lemma SpecBack(r: Renderer, s: Text, q: nat, args: seq<Arg>, id: nat, next: int) returns (f: Sentence)
    requires q < |s| && s[q] == ':' && id < |args| && FinishField(r, s, q, args, id, next).Ok?
    ensures SentenceOk(f, args[id].ty) && Numbered(f, next) && At(s, q, SpecText(Some(f)))
    ensures var (_, n, end) := FinishField(r, s, q, args, id, next).value;
      n == NumberingAfter(Some(f), next) && end == q + |SpecText(Some(f))| + 1 && s[end - 1] == '}'
  {
    hide At, SentenceOk, Write, ParseSpecs, FormatArg, Meaning, SizeRef, NextAfter, FinishField, Fit, Numbered;
    FinishSpecs(r, s, q, args, id, next);
    var x := ParseSpecs(s, q + 1, RuntimeContext(next), args[id].ty).value;
    f := ParsedIsSentence(s, q + 1, args[id].ty, next, x);
    WriteAt(s, q + 1, x.pos, Write(f));
    AtChar(s, q, ':');
    AtJoin(s, q, ":", Write(f));
  }

  lemma WriteAt(s: Text, p: nat, q: nat, text: Text)
    requires p <= q <= |s| && s[p..q] == text
    ensures At(s, p, text) && q == p + |text|
  {
  }

  /** A field that was formatted is one of the grammar. */
  lemma FieldBack(r: Renderer, s: Text, p: nat, args: seq<Arg>, next: int) returns (piece: Piece)
    requires p + 1 < |s| && s[p] == '{' && RunField(r, s, p + 1, args, next).Ok?
    ensures piece.Field? && PieceOk(args, piece, next) && At(s, p, PieceText(piece))
  {
    hide At, ParseFieldId, FinishField, RunField, RefOk, RefText, SpecText, SentenceOk, Numbered, FieldArg,
         NumberingAfter, Write;
    RunIs(r, s, p + 1, args, next);
    var (id, n, q) := ParseFieldId(s, p + 1, args, next).value;
    PlainRead(r, s, q, args, id, n);
    var ref := RefBack(s, p + 1, args, next);
    AtChar(s, p, '{');
    AtJoin(s, p, "{", RefText(ref));
    if s[q] == '}' {
      piece := Field(ref, None);
      AtChar(s, q, '}');
      AtJoin(s, p, "{" + RefText(ref), "}");
      NoSpec("{" + RefText(ref));
    } else {
      var f := SpecBack(r, s, q, args, id, n);
      piece := Field(ref, Some(f));
      var t := SpecText(Some(f));
      AtJoin(s, p, "{" + RefText(ref), t);
      AtChar(s, q + |t|, '}');
      AtJoin(s, p, "{" + RefText(ref) + t, "}");
    }
  }

  lemma NoSpec(text: Text)
    ensures text + SpecText(None) == text
  {
    assert text + "" == text;
  }

  /** Whatever formats is made of pieces of the grammar. */
  lemma {:induction false} PiecesBack(r: Renderer, s: Text, p: nat, args: seq<Arg>, next: int)
    returns (pieces: seq<Piece>)
    requires p <= |s| && Run(r, s, p, args, next).Ok?
    ensures s[p..] == WriteAll(pieces) && PiecesOk(args, pieces, next)
    decreases |s| - p
  {
    if p == |s| {
      pieces := [];
    } else {
      hide At, Run, PieceText, PieceMeaning, PieceOk, PiecesOk, WriteAll;
      var piece := FirstPiece(r, s, p, args, next);
      PieceStep(r, s, p, args, piece, next);
      AtEnd(s, p, PieceText(piece));
      var rest := PiecesBack(r, s, p + |PieceText(piece)|, args, PieceMeaning(r, args, piece, next).value.1);
      pieces := [piece] + rest;
      PutFirst(r, args, piece, rest, next);
      FrontAt(s, p, PieceText(piece), WriteAll(rest));
    }
  }

  lemma AtEnd(s: Text, p: nat, text: Text)
    requires At(s, p, text)
    ensures p + |text| <= |s|
  {
  }

  lemma PutFirst(r: Renderer, args: seq<Arg>, piece: Piece, rest: seq<Piece>, next: int)
    requires PieceOk(args, piece, next) && PieceMeaning(r, args, piece, next).Ok?
    requires PiecesOk(args, rest, PieceMeaning(r, args, piece, next).value.1)
    ensures PiecesOk(args, [piece] + rest, next) && WriteAll([piece] + rest) == PieceText(piece) + WriteAll(rest)
  {
    hide FieldArg, SpecMeaning, SentenceOk, Numbered, NextAfter, PieceText;
    assert ([piece] + rest)[1..] == rest;
  }

  lemma FrontAt(s: Text, p: nat, a: Text, b: Text)
    requires At(s, p, a) && s[p + |a|..] == b
    ensures s[p..] == a + b
  {
    assert s[p..] == s[p..p + |a|] + s[p + |a|..];
  }

  /** The first piece of what formats: a field, or one character of text. */
  lemma FirstPiece(r: Renderer, s: Text, p: nat, args: seq<Arg>, next: int) returns (piece: Piece)
    requires p < |s| && Run(r, s, p, args, next).Ok?
    ensures PieceOk(args, piece, next) && At(s, p, PieceText(piece)) && |PieceText(piece)| > 0
  {
    hide RunField;
    if s[p] == '{' && s[p + 1] != '{' {
      FieldRun(r, s, p, args, next);
      piece := FieldBack(r, s, p, args, next);
      FieldNotEmpty(piece);
    } else {
      piece := Literal([s[p]]);
      EscapeOne(s[p]);
      if s[p] == '{' || s[p] == '}' {
        assert s[p..p + 2] == [s[p], s[p]];
      } else {
        assert s[p..p + 1] == [s[p]];
      }
    }
  }

  lemma FieldNotEmpty(piece: Piece)
    ensures piece.Field? ==> |PieceText(piece)| > 0
  {
    hide RefText, SpecText;
  }

  lemma EscapeOne(c: Unit)
    ensures Escape([c]) == if c == '{' || c == '}' then [c, c] else [c]
  {
    assert Escape([]) == [];
  }

  /** The format string is written as these pieces, which mean out. */
  ghost predicate Says(r: Renderer, s: Text, args: seq<Arg>, pieces: seq<Piece>, out: Text)
  {
    s == WriteAll(pieces) && PiecesOk(args, pieces, 0) && AllMean(r, args, pieces, 0) == Ok(out)
  }

  /** A format string formats to out if and only if it is made of pieces that mean out. */
  lemma FormatsExactly(r: Renderer, s: Text, args: seq<Arg>, out: Text)
    ensures Format(r, s, args) == Ok(out) <==> exists pieces :: Says(r, s, args, pieces, out)
  {
    hide Run, AllMean, WriteAll, PiecesOk;
    assert s[0..] == s;
    if Format(r, s, args) == Ok(out) {
      var pieces := PiecesBack(r, s, 0, args, 0);
      PiecesFormatted(r, args, pieces);
      assert Says(r, s, args, pieces, out);
    }
    if pieces: seq<Piece> :| Says(r, s, args, pieces, out) {
      PiecesFormatted(r, args, pieces);
    }
  }

  /**
   * "{:...}" with any sentence that suits the argument: the argument is rendered with the sentence's
   * settings, its width and precision being the numbers written or the values of the arguments they
   * refer to.
   */
  lemma SentenceFormatted(r: Renderer, args: seq<Arg>, f: Sentence)
    requires args != [] && SentenceOk(f, args[0].ty) && Numbered(f, 1)
    ensures Format(r, "{:" + Write(f) + "}", args) == SpecMeaning(r, args, args[0], f, 1)
  {
    var pieces := [Field(Automatic, Some(f))];
    hide SentenceOk, Numbered, Write, SpecMeaning, Run, NextAfter;
    assert FieldArg(args, Automatic, 0) == Ok((args[0], 1));
    assert pieces[1..] == [];
    OneField(f);
    PiecesFormatted(r, args, pieces);
    var out := SpecMeaning(r, args, args[0], f, 1);
    if out.Ok? {
      assert out.value + "" == out.value;
    }
  }

  lemma OneField(f: Sentence)
    ensures WriteAll([Field(Automatic, Some(f))]) == "{:" + Write(f) + "}"
  {
    hide Write;
    var piece := Field(Automatic, Some(f));
    assert [piece][1..] == [] && WriteAll([]) == "";
    assert PieceText(piece) == "{" + "" + (":" + Write(f)) + "}";
    assert "{" + "" + (":" + Write(f)) + "}" + "" == "{:" + Write(f) + "}";
  }
}
