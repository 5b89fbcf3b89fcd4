/** Run-time formatting: the format string parser driving format_handler. */
module FormatRun {
  import opened Common
  import opened FormatSpec

  /** A formatting argument: its type, its value as an integer or as text, and its name if it has one. */
  datatype Arg = Arg(ty: ArgType, number: int, text: Text, name: Option<Text>, isStatic: bool)

  /** How a single argument is rendered is left open: without specifiers, and with resolved ones. */
  datatype Renderer = Renderer(plain: Arg -> Text, spec: (Arg, Specs) -> Text)

  /** The index of the first argument of that name from i on. */
  function FindName(args: seq<Arg>, name: Text, i: nat): (r: Option<nat>)
    requires i <= |args|
    ensures r.Some? ==> i <= r.value < |args| && args[r.value].name == Some(name)
    ensures forall j :: i <= j < |args| && (r.Some? ==> j < r.value) ==> args[j].name != Some(name)
    decreases |args| - i
  {
    if i == |args| then None
    else if args[i].name == Some(name) then Some(i)
    else FindName(args, name, i + 1)
  }

  function ArgAt(args: seq<Arg>, id: int): Option<Arg>
  {
    if 0 <= id < |args| then Some(args[id]) else None
  }

  function RefArg(args: seq<Arg>, ref: ArgRef): Option<Arg>
  {
    match ref
    case NoRef => None
    case Index(id) => ArgAt(args, id)
    case Name(name) =>
      var i := FindName(args, name, 0);
      if i.Some? then Some(args[i.value]) else None
  }

  /** handle_dynamic_spec: the int to use instead of value. */
  function ResolveDynamic(args: seq<Arg>, ref: ArgRef, value: int): Result<int>
  {
    if ref.NoRef? then Ok(value)
    else
      var arg := RefArg(args, ref);
      if arg.None? then Err(DynamicNotFound)
      else if !arg.value.ty.Integer() then Err(DynamicNotInteger)
      else if !(0 <= arg.value.number <= INT_MAX) then Err(DynamicOutOfRange)
      else Ok(arg.value.number)
  }

  /** Width and precision resolved, the argument written. */
  function FormatArg(r: Renderer, args: seq<Arg>, arg: Arg, specs: Specs): Result<Text>
  {
    var width :- ResolveDynamic(args, specs.widthRef, specs.width);
    var precision :- ResolveDynamic(args, specs.precisionRef, specs.precision);
    if arg.ty.CharType? && !CharSpecsValid(specs) then Err(InvalidCharSpecifier)
    else Ok(r.spec(arg, specs.(width := width, precision := precision, widthRef := NoRef, precisionRef := NoRef)))
  }

  /** The argument of a replacement field, the numbering after it and the position behind its reference. */
  function ParseFieldId(s: Text, p: nat, args: seq<Arg>, next: int): (r: Result<(int, int, nat)>)
    requires p < |s|
    ensures r.Err? ==> !r.error.Dynamic()
    ensures r.Ok? ==> p <= r.value.2 < |s| && (s[r.value.2] == '}' || s[r.value.2] == ':')
  {
    if s[p] == '}' || s[p] == ':' then
      var (id, ctx) :- NextArgId(RuntimeContext(next));
      Ok((id, ctx.next, p))
    else
      var (ref, q) :- ParseArgId(s, p);
      if ref.Index? then
        var ctx :- CheckArgIndex(RuntimeContext(next), ref.id);
        Ok((ref.id, ctx.next, q))
      else
        var i := FindName(args, ref.name, 0);
        if i.None? then Err(ArgumentNotFound)
        else if q == |s| || (s[q] != '}' && s[q] != ':') then Err(MissingBrace)
        else Ok((i.value, CheckArgName(RuntimeContext(next)).next, q))
  }

  /** A replacement field once its argument is known: its output, the numbering and the position after it. */
  function FinishField(r: Renderer, s: Text, q: nat, args: seq<Arg>, id: int, next: int)
    : (res: Result<(Text, int, nat)>)
    requires q < |s|
    ensures res.Ok? ==> q < res.value.2 <= |s|
  {
    var arg := ArgAt(args, id);
    if arg.None? then Err(ArgumentNotFound)
    else if s[q] == '}' then Ok((r.plain(arg.value), next, q + 1))
    else
      var parse :- ParseSpecs(s, q + 1, RuntimeContext(next), arg.value.ty);
      var out :- FormatArg(r, args, arg.value, parse.specs);
      if parse.pos == |s| || s[parse.pos] != '}' then Err(UnknownSpecifier)
      else Ok((out, parse.ctx.next, parse.pos + 1))
  }

  lemma FinishSpecs(r: Renderer, s: Text, q: nat, args: seq<Arg>, id: nat, next: int)
    requires q < |s| && s[q] != '}' && id < |args|
    ensures var y := ParseSpecs(s, q + 1, RuntimeContext(next), args[id].ty);
      if y.Err? then FinishField(r, s, q, args, id, next) == Err(y.error)
      else
        var out := FormatArg(r, args, args[id], y.value.specs);
        FinishField(r, s, q, args, id, next)
          == if out.Err? then Err(out.error)
             else if y.value.pos == |s| || s[y.value.pos] != '}' then Err(UnknownSpecifier)
             else Ok((out.value, y.value.ctx.next, y.value.pos + 1))
  {
  }

  /** One replacement field whose brace is at p - 1. */
  function RunField(r: Renderer, s: Text, p: nat, args: seq<Arg>, next: int): (res: Result<(Text, int, nat)>)
    requires p < |s|
    ensures res.Ok? ==> p < res.value.2 <= |s|
  {
    var (id, n, q) :- ParseFieldId(s, p, args, next);
    FinishField(r, s, q, args, id, n)
  }

  lemma RunIs(r: Renderer, s: Text, p: nat, args: seq<Arg>, next: int)
    requires p < |s|
    ensures var field := ParseFieldId(s, p, args, next);
      if field.Err? then RunField(r, s, p, args, next) == Err(field.error)
      else RunField(r, s, p, args, next) == FinishField(r, s, field.value.2, args, field.value.0, field.value.1)
  {
  }

  function Prepend(out: Text, rest: Result<Text>): Result<Text>
  {
    if rest.Ok? then Ok(out + rest.value) else rest
  }

  /** The output of the format string from p on. */
  function Run(r: Renderer, s: Text, p: nat, args: seq<Arg>, next: int): Result<Text>
    requires p <= |s|
    decreases |s| - p
  {
    if p == |s| then Ok("")
    else if s[p] == '{' then
      if p + 1 == |s| then Err(InvalidFormatString)
      else if s[p + 1] == '{' then Prepend("{", Run(r, s, p + 2, args, next))
      else
        var (out, n, q) :- RunField(r, s, p + 1, args, next);
        Prepend(out, Run(r, s, q, args, n))
    else if s[p] == '}' then
      if p + 1 == |s| || s[p + 1] != '}' then Err(UnmatchedBrace)
      else Prepend("}", Run(r, s, p + 2, args, next))
    else Prepend([s[p]], Run(r, s, p + 1, args, next))
  }

  /** The output of formatting s with args: fmt::format. */
  function Format(r: Renderer, s: Text, args: seq<Arg>): Result<Text>
  {
    Run(r, s, 0, args, 0)
  }

  /** Text with its braces doubled. */
  function Escape(text: Text): Text
  {
    if text == [] then []
    else (if text[0] == '{' || text[0] == '}' then [text[0], text[0]] else [text[0]]) + Escape(text[1..])
  }

  /** Escaped text is output as it was. */
  lemma {:induction false} EscapedText(r: Renderer, s: Text, p: nat, text: Text, args: seq<Arg>, next: int)
    requires p <= |s| && s[p..] == Escape(text)
    ensures Run(r, s, p, args, next) == Ok(text)
    decreases |text|
  {
    if text != [] {
      var n := if text[0] == '{' || text[0] == '}' then 2 else 1;
      assert s[p] == s[p..][0] == text[0];
      assert n == 2 ==> s[p + 1] == s[p..][1] == text[0];
      assert s[p + n..] == s[p..][n..] == Escape(text[1..]);
      EscapedText(r, s, p + n, text[1..], args, next);
      assert text == [text[0]] + text[1..];
    }
  }

  // ---- Arguments known ahead ---------------------------------------------------------------------

  /** What is known of an argument before its value. */
  datatype ArgInfo = ArgInfo(ty: ArgType, name: Option<Text>, isStatic: bool)

  /** The first statically named argument of that name from i on. */
  function FindStatic(infos: seq<ArgInfo>, name: Text, i: nat): (r: Option<nat>)
    requires i <= |infos|
    ensures r.Some? ==> i <= r.value < |infos| && infos[r.value].name == Some(name) && infos[r.value].isStatic
    ensures r.None? ==> forall j :: i <= j < |infos| ==> !(infos[j].isStatic && infos[j].name == Some(name))
    decreases |infos| - i
  {
    if i == |infos| then None
    else if infos[i].isStatic && infos[i].name == Some(name) then Some(i)
    else FindStatic(infos, name, i + 1)
  }

  function Types(infos: seq<ArgInfo>): (ts: seq<ArgType>)
    ensures |ts| == |infos| && forall i :: 0 <= i < |infos| ==> ts[i] == infos[i].ty
  {
    if infos == [] then [] else [infos[0].ty] + Types(infos[1..])
  }

  /** No argument is named. */
  predicate Unnamed(infos: seq<ArgInfo>)
  {
    forall i :: 0 <= i < |infos| ==> infos[i].name.None?
  }

  predicate Describes(infos: seq<ArgInfo>, args: seq<Arg>)
  {
    |infos| == |args| && forall i :: 0 <= i < |args| ==> infos[i] == ArgInfo(args[i].ty, args[i].name, args[i].isStatic)
  }

  /** No two arguments have the same name; the argument store reports duplicates. */
  predicate DistinctNames(args: seq<Arg>)
  {
    forall i, j :: 0 <= i < j < |args| && args[i].name.Some? ==> args[i].name != args[j].name
  }

  lemma {:induction false} StaticIsFirst(infos: seq<ArgInfo>, args: seq<Arg>, name: Text, i: nat)
    requires i <= |args| && Describes(infos, args) && DistinctNames(args)
    ensures var st, any := FindStatic(infos, name, i), FindName(args, name, i);
      st.Some? ==> any == st
    decreases |args| - i
  {
    if i < |args| {
      StaticIsFirst(infos, args, name, i + 1);
    }
  }

  lemma {:induction false} NothingNamed(infos: seq<ArgInfo>, args: seq<Arg>, name: Text, i: nat)
    requires i <= |args| && Unnamed(infos) && Describes(infos, args)
    ensures FindName(args, name, i).None?
    decreases |args| - i
  {
    if i < |args| {
      NothingNamed(infos, args, name, i + 1);
    }
  }

  /** The run time got past parsing: it produced output or failed on a dynamic value. */
  predicate Parsed(outcome: Result<Text>)
  {
    outcome.Ok? || outcome.error.Dynamic()
  }

  /** A width or precision from an argument that does not exist or is no integer cannot be formatted. */
  lemma LostFails(r: Renderer, ctx: Context, parse: Parse, args: seq<Arg>, infos: seq<ArgInfo>, arg: Arg)
    requires Lost(ctx, parse, false) && Describes(infos, args) && |args| <= ctx.numArgs
    requires ctx.types.Some? ==> ctx.types.value == Types(infos)
    ensures FormatArg(r, args, arg, parse.specs).Err?
  {
  }

  /** Nor can one from an argument by name if no argument has a name. */
  lemma NamedSizeFails(r: Renderer, ctx: Context, parse: Parse, args: seq<Arg>, infos: seq<ArgInfo>, arg: Arg)
    requires Lost(ctx, parse, true) && !ctx.checks && Describes(infos, args) && Unnamed(infos)
    ensures FormatArg(r, args, arg, parse.specs).Err?
  {
    if parse.specs.widthRef.Name? {
      NothingNamed(infos, args, parse.specs.widthRef.name, 0);
    }
    if parse.specs.precisionRef.Name? {
      NothingNamed(infos, args, parse.specs.precisionRef.name, 0);
    }
  }

  // ---- The parser's callbacks --------------------------------------------------------------------

  lemma PrependTwice(a: Text, b: Text, rest: Result<Text>)
    ensures Prepend(a, Prepend(b, rest)) == Prepend(a + b, rest)
  {
    if rest.Ok? {
      assert a + (b + rest.value) == (a + b) + rest.value;
    }
  }

  lemma PrependLast(text: Text)
    ensures Prepend(text, Ok("")) == Ok(text)
  {
    assert text + "" == text;
  }

  lemma PrependError(text: Text, e: Error)
    ensures Prepend(text, Err(e)) == Err(e)
  {
  }

  /** The next character joins the text that is still to be passed on. */
  lemma PrependNext(out: Text, s: Text, begin: nat, p: nat, rest: Result<Text>)
    requires begin <= p < |s|
    ensures Prepend(out + s[begin..p], Prepend([s[p]], rest)) == Prepend(out + s[begin..p + 1], rest)
  {
    PrependTwice(out + s[begin..p], [s[p]], rest);
    assert s[begin..p + 1] == s[begin..p] + [s[p]];
    assert out + s[begin..p + 1] == (out + s[begin..p]) + [s[p]];
  }

  lemma PrependEmpty(rest: Result<Text>)
    ensures Prepend([], rest) == rest
  {
    if rest.Ok? {
      assert [] + rest.value == rest.value;
    }
  }

  /** format_handler: the output buffer and the argument counter that the parser's callbacks move. */
  class FormatHandler {
    var out: Text
    var next: int

    constructor ()
      ensures out == [] && next == 0
    {
      out, next := [], 0;
    }

    method OnText(s: Text, begin: nat, end: nat)
      requires begin <= end <= |s|
      modifies this
      ensures out == old(out) + s[begin..end] && next == old(next)
    {
      out := out + s[begin..end];
    }

    /** A replacement field or an escaped brace at p; yields the position after it. */
    method ParseReplacementField(r: Renderer, s: Text, p: nat, args: seq<Arg>) returns (end: Result<nat>)
      requires p < |s| && s[p] == '{'
      modifies this
      ensures end.Ok? ==> p < end.value <= |s|
      ensures Prepend(old(out), Run(r, s, p, args, old(next)))
           == if end.Err? then Err(end.error) else Prepend(out, Run(r, s, end.value, args, next))
    {
      if p + 1 == |s| {
        return Err(InvalidFormatString);
      }
      if s[p + 1] == '{' {
        PrependTwice(out, "{", Run(r, s, p + 2, args, next));
        assert s[p + 1..p + 2] == "{";
        OnText(s, p + 1, p + 2);
        return Ok(p + 2);
      }
      var field := RunField(r, s, p + 1, args, next);
      match field
      case Err(e) => return Err(e);
      case Ok((text, n, q)) =>
        PrependTwice(out, text, Run(r, s, q, args, n));
        out := out + text;
        next := n;
        return Ok(q);
    }

    /** parse_format_string: literal text is passed on in runs, from begin up to the next brace. */
    method ParseFormatString(r: Renderer, s: Text, args: seq<Arg>) returns (error: Option<Error>)
      requires out == [] && next == 0
      modifies this
      ensures Format(r, s, args) == if error.Some? then Err(error.value) else Ok(out)
    {
      hide RunField, Prepend;
      var begin, p := 0, 0;
      assert out + s[0..0] == [];
      PrependEmpty(Format(r, s, args));
      while p < |s|
        invariant 0 <= begin <= p <= |s|
        invariant Format(r, s, args) == Prepend(out + s[begin..p], Run(r, s, p, args, next))
      {
        var c := s[p];
        p := p + 1;
        if c == '{' {
          OnText(s, begin, p - 1);
          var end := ParseReplacementField(r, s, p - 1, args);
          if end.Err? {
            return Some(end.error);
          }
          begin, p := end.value, end.value;
          assert out + s[begin..p] == out;
        } else if c == '}' {
          if p == |s| || s[p] != '}' {
            PrependError(out + s[begin..p - 1], UnmatchedBrace);
            return Some(UnmatchedBrace);
          }
          PrependNext(out, s, begin, p - 1, Run(r, s, p + 1, args, next));
          OnText(s, begin, p);
          p := p + 1;
          begin := p;
          assert out + s[begin..p] == out;
        } else {
          PrependNext(out, s, begin, p - 1, Run(r, s, p, args, next));
        }
      }
      PrependLast(out + s[begin..p]);
      OnText(s, begin, |s|);
      return None;
    }
  }
}
