/** Format strings compiled ahead of time into programs. */
module FormatCompile {
  import opened Common
  import opened FormatSpec
  import opened FormatRun
  import opened FormatFields

  const MANUAL := -1

  datatype Program =
    | Literal(data: Text)
    | CodeUnit(value: Unit)
    | Field(index: nat)
    | NamedField(name: Text)
    | SpecField(index: nat, specs: Specs)
    | Concat(lhs: Program, rhs: Program)

  /** A program, or none where the format needs run-time formatting. */
  type Compiled = Option<Program>

  function ParseText(s: Text, p: nat): (q: nat)
    requires p <= |s|
    ensures p <= q <= |s| && forall i :: p <= i < q ==> s[i] != '{' && s[i] != '}'
    decreases |s| - p
  {
    if p == |s| || s[p] == '{' || s[p] == '}' then p else ParseText(s, p + 1)
  }

  /** parse_specs: the specifiers, where they end, and the numbering to go on with. */
  function CompileSpecs(s: Text, p: nat, t: ArgType, nextId: nat): (r: Result<(Specs, nat, int)>)
    requires p <= |s|
    ensures r.Ok? ==> p <= r.value.1 <= |s|
  {
    var parse :- ParseNative(s, p, Context(nextId, true, INT_MAX, None), t);
    if nextId == 0 then Ok((parse.specs, parse.pos, MANUAL))
    else
      var (id, ctx) :- NextArgId(parse.ctx);
      Ok((parse.specs, parse.pos, id))
  }

  /** The rest of the program after head. */
  function CompileTail(head: Program, s: Text, p: nat, id: int, infos: seq<ArgInfo>): Result<Compiled>
    requires p <= |s|
    decreases |s| - p, 1
  {
    if p == |s| then Ok(Some(head))
    else
      var tail :- Compile(s, p, id, infos);
      if tail.None? then Ok(None) else Ok(Some(Concat(head, tail.value)))
  }

  /** Specifiers in manual mode are parsed from a fresh numbering. */
  function Restart(id: int): nat
  {
    if id < 0 then 0 else id
  }

  /** parse_replacement_field_then_tail. */
  function CompileField(s: Text, p: nat, index: nat, id: int, infos: seq<ArgInfo>): Result<Compiled>
    requires p <= |s|
    decreases |s| - p, 2
  {
    if index >= |infos| then Err(ArgumentNotFound)
    else if p == |s| then Err(UnknownSpecifier)
    else if s[p] == '}' then CompileTail(Field(index), s, p + 1, id, infos)
    else if s[p] != ':' then Err(UnknownSpecifier)
    else
      var (specs, end, next) :- CompileSpecs(s, p + 1, infos[index].ty, Restart(id));
      if end >= |s| || s[end] != '}' then Err(UnknownSpecifier)
      else CompileTail(SpecField(index, specs), s, end + 1, next, infos)
  }

  /** compile_format_string on the non-empty rest of s from p on; id counts the automatic arguments. */
  function Compile(s: Text, p: nat, id: int, infos: seq<ArgInfo>): Result<Compiled>
    requires p < |s|
    decreases |s| - p, 0
  {
    if s[p] == '{' then
      if p + 1 == |s| then Err(UnmatchedBrace)
      else if s[p + 1] == '{' then CompileTail(Literal(s[p..p + 1]), s, p + 2, id, infos)
      else if s[p + 1] == '}' || s[p + 1] == ':' then
        if id < 0 then Err(ManualToAutomatic)
        else CompileField(s, p + 1, id, id + 1, infos)
      else
        var (ref, q) :- ParseArgId(s, p + 1);
        if q == |s| || (s[q] != '}' && s[q] != ':') then Err(MissingBrace)
        else if ref.Index? then
          if id > 0 then Err(AutomaticToManual)
          else if ref.id < 0 then Err(ArgumentNotFound)
          else CompileField(s, q, ref.id, MANUAL, infos)
        else
          var i := FindStatic(infos, ref.name, 0);
          if i.Some? then CompileField(s, q, i.value, if id < 0 then MANUAL else id + 1, infos)
          else if s[q] == '}' then CompileTail(NamedField(ref.name), s, q + 1, id, infos)
          else Ok(None)
    else if s[p] == '}' then
      if p + 1 == |s| then Err(UnmatchedBrace)
      else CompileTail(Literal(s[p..p + 1]), s, p + 2, id, infos)
    else
      var end := ParseText(s, p + 1);
      CompileTail(if end - p > 1 then Literal(s[p..end]) else CodeUnit(s[p]), s, end, id, infos)
  }

  /** compile: the empty string is an empty text. */
  function CompileFormat(s: Text, infos: seq<ArgInfo>): Result<Compiled>
  {
    if s == [] then Ok(Some(Literal([]))) else Compile(s, 0, 0, infos)
  }

  /** Running a program. */
  function Execute(r: Renderer, program: Program, args: seq<Arg>): Result<Text>
  {
    match program
    case Literal(data) => Ok(data)
    case CodeUnit(value) => Ok([value])
    case Field(index) =>
      if index < |args| then Ok(r.plain(args[index])) else Err(ArgumentNotFound)
    case NamedField(name) =>
      var i := FindName(args, name, 0);
      if i.Some? then Ok(r.plain(args[i.value])) else Err(ArgumentNotFound)
    case SpecField(index, specs) =>
      if index < |args| then FormatArg(r, args, args[index], specs) else Err(ArgumentNotFound)
    case Concat(lhs, rhs) =>
      var out :- Execute(r, lhs, args);
      Prepend(out, Execute(r, rhs, args))
  }

  // ---- Compiler correctness ---------------------------------------------------------------------------

  /** The compiler's numbering next to the run time's: equal, unless the run time is manual already. */
  predicate Numbering(id: int, next: int)
  {
    next == -1 || next == id >= 0
  }

  /** Text without braces is output as it stands. */
  lemma {:induction false} RunText(r: Renderer, s: Text, p: nat, q: nat, args: seq<Arg>, next: int)
    requires p <= q <= |s| && forall i :: p <= i < q ==> s[i] != '{' && s[i] != '}'
    ensures Run(r, s, p, args, next) == Prepend(s[p..q], Run(r, s, q, args, next))
    decreases q - p
  {
    if p < q {
      RunText(r, s, p + 1, q, args, next);
      PrependTwice([s[p]], s[p + 1..q], Run(r, s, q, args, next));
      assert s[p..q] == [s[p]] + s[p + 1..q];
    } else {
      assert s[p..q] == [];
      PrependEmpty(Run(r, s, q, args, next));
    }
  }

  /** Specifiers compiled ahead are those parsed at run time, and the numbering stays in step. */
  lemma CompiledSpecs(s: Text, p: nat, t: ArgType, id: int, next: int)
    requires p <= |s| && Numbering(id, next) && id != 0
    ensures var x := CompileSpecs(s, p, t, Restart(id));
      var y := ParseSpecs(s, p, RuntimeContext(next), t);
      x.Ok? && y.Ok? ==>
        && x.value.0 == y.value.specs && x.value.1 == y.value.pos && Numbering(x.value.2, y.value.ctx.next)
        && !(t.CharType? && !CharSpecsValid(x.value.0))
  {
    var c := Context(Restart(id), true, INT_MAX, None);
    NativeInStep(s, p, c, RuntimeContext(next), t);
  }

  /** Executing a program does what the run time does from p on, as far as the run time parses. */
  ghost predicate Agrees(r: Renderer, program: Program, s: Text, p: nat, args: seq<Arg>, next: int)
    requires p <= |s|
  {
    Parsed(Run(r, s, p, args, next)) ==> Execute(r, program, args) == Run(r, s, p, args, next)
  }

  /** The program for a head and the rest: the head's outcome, then the run time's from q on. */
  lemma {:induction false} TailCorrect(r: Renderer, head: Program, s: Text, q: nat, id: int, next: int,
                                       infos: seq<ArgInfo>, args: seq<Arg>, program: Program)
    requires q <= |s| && Describes(infos, args) && DistinctNames(args) && Numbering(id, next)
    requires CompileTail(head, s, q, id, infos) == Ok(Some(program))
    ensures var out := Execute(r, head, args);
      && (out.Err? ==> Execute(r, program, args) == out)
      && (out.Ok? && Parsed(Run(r, s, q, args, next)) ==>
            Execute(r, program, args) == Prepend(out.value, Run(r, s, q, args, next)))
    decreases |s| - q, 2
  {
    var out := Execute(r, head, args);
    if q == |s| {
      if out.Ok? {
        assert out.value + [] == out.value;
      }
    } else {
      CompileCorrect(r, s, q, id, next, infos, args, program.rhs);
    }
  }

  /** What a compiled field owes the run time: the same dynamic error, or its output and then the rest. */
  ghost predicate FieldAgrees(r: Renderer, program: Program, s: Text, args: seq<Arg>, field: Result<(Text, int, nat)>)
    requires field.Ok? ==> field.value.2 <= |s|
  {
    && (field.Err? && field.error.Dynamic() ==> Execute(r, program, args) == Err(field.error))
    && (field.Ok? && Parsed(Run(r, s, field.value.2, args, field.value.1)) ==>
          Execute(r, program, args) == Prepend(field.value.0, Run(r, s, field.value.2, args, field.value.1)))
  }

  /** A compiled replacement field and what follows it. */
  lemma {:induction false} FieldCorrect(r: Renderer, s: Text, q: nat, index: nat, id: int, next: int,
                                        infos: seq<ArgInfo>, args: seq<Arg>, program: Program)
    requires q < |s| && Describes(infos, args) && DistinctNames(args) && Numbering(id, next) && id != 0
    requires CompileField(s, q, index, id, infos) == Ok(Some(program))
    ensures FieldAgrees(r, program, s, args, FinishField(r, s, q, args, index, next))
    decreases |s| - q, 3
  {
    if s[q] == '}' {
      PlainFieldCorrect(r, s, q, index, id, next, infos, args, program);
    } else {
      hide CompileField;
      hide CompileTail;
      hide CompileSpecs;
      hide FinishField;
      hide ParseSpecs;
      hide FormatArg;
      hide FieldAgrees;
      var x := SpecsCompiled(s, q, index, id, infos, program);
      CompiledSpecs(s, q + 1, infos[index].ty, id, next);
      FinishSpecs(r, s, q, args, index, next);
      var y := ParseSpecs(s, q + 1, RuntimeContext(next), args[index].ty);
      if y.Err? {
        NothingOwed(r, program, s, args, y.error);
      } else {
        SpecTailCorrect(r, s, q, index, x, y.value.ctx.next, infos, args, program);
      }
    }
  }

  lemma {:induction false} PlainFieldCorrect(r: Renderer, s: Text, q: nat, index: nat, id: int, next: int,
                                             infos: seq<ArgInfo>, args: seq<Arg>, program: Program)
    requires q < |s| && s[q] == '}' && Describes(infos, args) && DistinctNames(args) && Numbering(id, next)
    requires CompileField(s, q, index, id, infos) == Ok(Some(program))
    ensures FieldAgrees(r, program, s, args, FinishField(r, s, q, args, index, next))
    decreases |s| - q, 2
  {
    hide ParseSpecs;
    hide CompileSpecs;
    TailCorrect(r, Field(index), s, q + 1, id, next, infos, args, program);
  }

  lemma NothingOwed(r: Renderer, program: Program, s: Text, args: seq<Arg>, error: Error)
    requires !error.Dynamic()
    ensures FieldAgrees(r, program, s, args, Err(error))
  {
  }

  /** A field whose specifiers x were compiled, with the numbering next after them at run time. */
  lemma {:induction false} SpecTailCorrect(r: Renderer, s: Text, q: nat, index: nat, x: (Specs, nat, int), next: int,
                                           infos: seq<ArgInfo>, args: seq<Arg>, program: Program)
    requires q <= x.1 < |s| && index < |args| && Describes(infos, args) && DistinctNames(args) && Numbering(x.2, next)
    requires CompileTail(SpecField(index, x.0), s, x.1 + 1, x.2, infos) == Ok(Some(program))
    ensures var out := FormatArg(r, args, args[index], x.0);
      FieldAgrees(r, program, s, args, if out.Err? then Err(out.error) else Ok((out.value, next, x.1 + 1)))
    decreases |s| - q, 2
  {
    TailCorrect(r, SpecField(index, x.0), s, x.1 + 1, x.2, next, infos, args, program);
  }

  /** What a compiled field with specifiers is made of. */
  lemma SpecsCompiled(s: Text, q: nat, index: nat, id: int, infos: seq<ArgInfo>, program: Program)
    returns (x: (Specs, nat, int))
    requires q < |s| && s[q] != '}' && CompileField(s, q, index, id, infos) == Ok(Some(program))
    ensures index < |infos| && s[q] == ':' && q < x.1 < |s| && s[x.1] == '}'
    ensures CompileSpecs(s, q + 1, infos[index].ty, Restart(id)) == Ok(x)
    ensures CompileTail(SpecField(index, x.0), s, x.1 + 1, x.2, infos) == Ok(Some(program))
  {
    hide CompileTail, CompileSpecs;
    x := CompileSpecs(s, q + 1, infos[index].ty, Restart(id)).value;
  }

  /**
   * Compiler correctness: whatever the compiler makes a program of, the program does what run-time
   * formatting does, output or failed dynamic value, wherever the run time accepts the format.
   */
  lemma {:induction false} CompileCorrect(r: Renderer, s: Text, p: nat, id: int, next: int,
                                          infos: seq<ArgInfo>, args: seq<Arg>, program: Program)
    requires p < |s| && Describes(infos, args) && DistinctNames(args) && Numbering(id, next)
    requires Compile(s, p, id, infos) == Ok(Some(program))
    ensures Agrees(r, program, s, p, args, next)
    decreases |s| - p, 1
  {
    if s[p] == '{' && s[p + 1] != '{' {
      ReferenceCorrect(r, s, p + 1, id, next, infos, args, program);
    } else {
      hide ParseFieldId, FinishField, CompileField, ParseArgId, FindStatic, Describes, DistinctNames;
      TextCorrect(r, s, p, id, next, infos, args, program);
    }
  }

  lemma {:induction false} ReferenceCorrect(r: Renderer, s: Text, p: nat, id: int, next: int,
                                            infos: seq<ArgInfo>, args: seq<Arg>, program: Program)
    requires 0 < p < |s| && s[p - 1] == '{' && s[p] != '{'
    requires Describes(infos, args) && DistinctNames(args) && Numbering(id, next)
    requires Compile(s, p - 1, id, infos) == Ok(Some(program))
    ensures Agrees(r, program, s, p - 1, args, next)
    decreases |s| - p, 4
  {
    hide Compile, CompileField, FinishField, Describes, DistinctNames, ParseArgId, FindStatic;
    var field := ParseFieldId(s, p, args, next);
    if field.Ok? {
      FieldStart(s, p, id, next, infos, args, program);
      var start := CompileStart(s, p, id, infos);
      if start.Some? {
        FieldCorrect(r, s, start.value.2, start.value.0, start.value.1, field.value.1, infos, args, program);
      } else {
        NamedCorrect(r, s, p, id, next, infos, args, program);
      }
    }
  }

  /** Escaped braces and stretches of text. */
  lemma {:induction false} TextCorrect(r: Renderer, s: Text, p: nat, id: int, next: int,
                                       infos: seq<ArgInfo>, args: seq<Arg>, program: Program)
    requires p < |s| && (s[p] == '{' && p + 1 < |s| ==> s[p + 1] == '{')
    requires Describes(infos, args) && DistinctNames(args) && Numbering(id, next)
    requires Compile(s, p, id, infos) == Ok(Some(program))
    ensures Agrees(r, program, s, p, args, next)
    decreases |s| - p, 0
  {
    hide ParseFieldId, FinishField, CompileField, ParseArgId, FindStatic, Describes, DistinctNames;
    if s[p] == '{' {
      assert s[p..p + 1] == "{";
      TailCorrect(r, Literal(s[p..p + 1]), s, p + 2, id, next, infos, args, program);
    } else if s[p] == '}' {
      assert s[p..p + 1] == "}";
      TailCorrect(r, Literal(s[p..p + 1]), s, p + 2, id, next, infos, args, program);
    } else {
      var end := ParseText(s, p + 1);
      RunText(r, s, p, end, args, next);
      var head := if end - p > 1 then Literal(s[p..end]) else CodeUnit(s[p]);
      assert Execute(r, head, args) == Ok(s[p..end]) by {
        if end - p == 1 {
          assert s[p..end] == [s[p]];
        }
      }
      TailCorrect(r, head, s, end, id, next, infos, args, program);
    }
  }

  /** The argument a compiled field refers to by index: its number, the numbering and the position after it. */
  function CompileStart(s: Text, p: nat, id: int, infos: seq<ArgInfo>): (r: Option<(nat, int, nat)>)
    requires p < |s|
    ensures r.Some? ==> p <= r.value.2 <= |s|
  {
    if s[p] == '}' || s[p] == ':' then
      if id < 0 then None else Some((id, id + 1, p))
    else
      var ref := ParseArgId(s, p);
      if ref.Err? then None
      else if ref.value.0.Index? then
        if ref.value.0.id < 0 then None else Some((ref.value.0.id, MANUAL, ref.value.1))
      else
        var i := FindStatic(infos, ref.value.0.name, 0);
        if i.None? then None else Some((i.value, if id < 0 then MANUAL else id + 1, ref.value.1))
  }

  /** Compiler and run time resolve the reference alike and number on in step. */
  lemma FieldStart(s: Text, p: nat, id: int, next: int, infos: seq<ArgInfo>, args: seq<Arg>, program: Program)
    requires 0 < p < |s| && s[p - 1] == '{' && s[p] != '{'
    requires Describes(infos, args) && DistinctNames(args) && Numbering(id, next)
    requires Compile(s, p - 1, id, infos) == Ok(Some(program))
    requires ParseFieldId(s, p, args, next).Ok?
    ensures var start, field := CompileStart(s, p, id, infos), ParseFieldId(s, p, args, next).value;
      if start.Some? then
        && field.0 == start.value.0 && field.2 == start.value.2 && Numbering(start.value.1, field.1)
        && start.value.1 != 0
        && CompileField(s, start.value.2, start.value.0, start.value.1, infos) == Ok(Some(program))
      else
        var ref := ParseArgId(s, p);
        && s[p] != '}' && s[p] != ':' && ref.Ok? && ref.value.0.Name? && field.2 == ref.value.1 && s[field.2] == '}'
        && CompileTail(NamedField(ref.value.0.name), s, field.2 + 1, id, infos) == Ok(Some(program))
  {
    if s[p] != '}' && s[p] != ':' {
      var ref := ParseArgId(s, p);
      if ref.Ok? && ref.value.0.Name? {
        StaticIsFirst(infos, args, ref.value.0.name, 0);
      }
    }
  }

  /** A field named at run time only. */
  lemma {:induction false} NamedCorrect(r: Renderer, s: Text, p: nat, id: int, next: int,
                                        infos: seq<ArgInfo>, args: seq<Arg>, program: Program)
    requires 0 < p < |s| && s[p - 1] == '{' && s[p] != '{'
    requires Describes(infos, args) && DistinctNames(args) && Numbering(id, next)
    requires Compile(s, p - 1, id, infos) == Ok(Some(program))
    requires ParseFieldId(s, p, args, next).Ok? && CompileStart(s, p, id, infos).None?
    ensures Agrees(r, program, s, p - 1, args, next)
    decreases |s| - p, 2
  {
    FieldStart(s, p, id, next, infos, args, program);
    NameRun(r, s, p, args, next);
    hide Compile, CompileTail, CompileStart, RunField, ParseFieldId, ParseArgId, Execute, Describes, DistinctNames;
    var field := ParseFieldId(s, p, args, next).value;
    var ref := ParseArgId(s, p).value.0;
    TailCorrect(r, NamedField(ref.name), s, field.2 + 1, id, field.1, infos, args, program);
  }

  /** A field that ends behind its name outputs what its instruction does. */
  lemma NameRun(r: Renderer, s: Text, p: nat, args: seq<Arg>, next: int)
    requires p < |s| && s[p] != '}' && s[p] != ':' && ParseArgId(s, p).Ok? && ParseArgId(s, p).value.0.Name?
    requires ParseFieldId(s, p, args, next).Ok? && s[ParseFieldId(s, p, args, next).value.2] == '}'
    ensures var out := Execute(r, NamedField(ParseArgId(s, p).value.0.name), args);
      && ParseFieldId(s, p, args, next).value.1 == -1 && out.Ok?
      && RunField(r, s, p, args, next) == Ok((out.value, -1, ParseFieldId(s, p, args, next).value.2 + 1))
  {
    hide ParseArgId, ParseSpecs, FormatArg;
  }

  /** The whole format string. */
  lemma FormatCorrect(r: Renderer, s: Text, args: seq<Arg>, infos: seq<ArgInfo>, program: Program)
    requires Describes(infos, args) && DistinctNames(args)
    requires CompileFormat(s, infos) == Ok(Some(program))
    ensures Parsed(Format(r, s, args)) ==> Execute(r, program, args) == Format(r, s, args)
  {
    if s != [] {
      CompileCorrect(r, s, 0, 0, 0, infos, args, program);
    }
  }

  // ---- Which formats are compiled ---------------------------------------------------------------------

  /** The fields that the compiler's numbering counts: automatic ones, and wrongly those it knows by name. */
  predicate Counted(sh: Shape)
  {
    sh.kind == Automatic || (sh.kind == ByName && sh.known)
  }

  predicate HasManual(sizes: seq<Use>)
  {
    exists i :: 0 <= i < |sizes| && sizes[i] != Automatic
  }

  /** No field is by index, so the numbering has not turned manual. */
  predicate Counting(fields: seq<Shape>)
  {
    forall i :: 0 <= i < |fields| ==> fields[i].kind != ByIndex
  }

  predicate AnyCounted(fields: seq<Shape>)
  {
    exists i :: 0 <= i < |fields| && Counted(fields[i])
  }

  /** Specifiers of an argument whose name is not known ahead. */
  predicate ForRunTime(sh: Shape)
  {
    sh.kind == ByName && !sh.known && sh.specs
  }

  /**
   * What the compiler refuses after the fields before: specifiers of an argument whose name it does
   * not know; and, while no field was by index, an index after a counted field, and a size by index
   * or by name in a counted field.
   */
  predicate Refused(before: seq<Shape>, sh: Shape)
  {
    || ForRunTime(sh)
    || (Counting(before)
        && if sh.kind == ByIndex then AnyCounted(before) else Counted(sh) && HasManual(sh.sizes))
  }

  /** Some field is refused. */
  predicate NotCompiled(fields: seq<Shape>)
  {
    exists k :: 0 <= k < |fields| && Refused(fields[..k], fields[k])
  }

  /** None of the fields rest that follow those before is refused. */
  predicate Fine(before: seq<Shape>, rest: seq<Shape>)
  {
    forall k :: 0 <= k < |rest| ==> !Refused(before + rest[..k], rest[k])
  }

  lemma FineStep(before: seq<Shape>, sh: Shape, rest: seq<Shape>)
    ensures Fine(before, [sh] + rest) <==> !Refused(before, sh) && Fine(before + [sh], rest)
  {
    var all := [sh] + rest;
    assert all[0] == sh && before + all[..0] == before;
    forall k | 0 <= k < |rest|
      ensures before + all[..k + 1] == (before + [sh]) + rest[..k] && all[k + 1] == rest[k]
    {
      assert all[..k + 1] == [sh] + rest[..k];
    }
    if Fine(before, all) {
      forall k | 0 <= k < |rest|
        ensures !Refused((before + [sh]) + rest[..k], rest[k])
      {
        assert !Refused(before + all[..k + 1], all[k + 1]);
      }
      assert !Refused(before + all[..0], all[0]);
    }
    if !Refused(before, sh) && Fine(before + [sh], rest) {
      forall k | 0 <= k < |all|
        ensures !Refused(before + all[..k], all[k])
      {
        if k > 0 {
          assert !Refused((before + [sh]) + rest[..k - 1], rest[k - 1]);
        }
      }
    }
  }

  /** What comes of compiling: a program, formatting left to the run time, or an error. */
  datatype Verdict = Compiles | LeftToRunTime | Rejected

  function VerdictOf(x: Result<Compiled>): Verdict
  {
    if x.Err? then Rejected else if x.value.None? then LeftToRunTime else Compiles
  }

  /** The first field that is refused is the one at k. */
  predicate FirstRefused(before: seq<Shape>, rest: seq<Shape>, k: nat)
  {
    k < |rest| && Fine(before, rest[..k]) && Refused(before + rest[..k], rest[k])
  }

  /** It decides. */
  ghost predicate Decides(before: seq<Shape>, rest: seq<Shape>, v: Verdict)
  {
    if v == Compiles then Fine(before, rest)
    else exists k: nat :: k < |rest| && FirstRefused(before, rest, k) && (ForRunTime(rest[k]) <==> v == LeftToRunTime)
  }

  lemma DecidesFirst(before: seq<Shape>, sh: Shape, rest: seq<Shape>)
    ensures ForRunTime(sh) ==> Decides(before, [sh] + rest, LeftToRunTime)
    ensures Refused(before, sh) && !ForRunTime(sh) ==> Decides(before, [sh] + rest, Rejected)
  {
    hide Counting, AnyCounted, HasManual;
    var all := [sh] + rest;
    assert all[..0] == [] && all[0] == sh && before + [] == before;
    assert Refused(before, sh) ==> FirstRefused(before, all, 0);
  }

  lemma RunTimeRefused(before: seq<Shape>, sh: Shape)
    ensures ForRunTime(sh) ==> Refused(before, sh)
  {
  }

  lemma DecidesLater(before: seq<Shape>, sh: Shape, rest: seq<Shape>, v: Verdict)
    requires !Refused(before, sh) && Decides(before + [sh], rest, v)
    ensures Decides(before, [sh] + rest, v)
  {
    hide Fine, Refused, ForRunTime, FirstRefused;
    FineStep(before, sh, rest);
    if v != Compiles {
      var k: nat :| k < |rest| && FirstRefused(before + [sh], rest, k) && (ForRunTime(rest[k]) <==> v == LeftToRunTime);
      RefusedLater(before, sh, rest, k);
      assert ([sh] + rest)[k + 1] == rest[k];
    }
  }

  lemma RefusedLater(before: seq<Shape>, sh: Shape, rest: seq<Shape>, k: nat)
    requires !Refused(before, sh) && FirstRefused(before + [sh], rest, k)
    ensures k < |rest| && FirstRefused(before, [sh] + rest, k + 1)
  {
    hide Fine, Refused;
    var all := [sh] + rest;
    FineStep(before, sh, rest[..k]);
    assert all[..k + 1] == [sh] + rest[..k] && all[k + 1] == rest[k];
    assert before + all[..k + 1] == (before + [sh]) + rest[..k];
  }

  /** What the compiler's numbering says of the fields before. */
  predicate Numbered(id: int, before: seq<Shape>)
  {
    && id >= -1 && (id == -1 <==> !Counting(before))
    && (id > 0 <==> Counting(before) && AnyCounted(before))
  }

  /** The compiler's numbering after a field it accepts. */
  function NextNumber(id: int, sh: Shape): int
  {
    if sh.kind == ByIndex || id < 0 then MANUAL
    else if Counted(sh) then id + 1 + Autos(sh.sizes)
    else id
  }

  lemma NumberedStep(id: int, before: seq<Shape>, sh: Shape)
    requires Numbered(id, before) && !Refused(before, sh)
    ensures Numbered(NextNumber(id, sh), before + [sh])
  {
    var all := before + [sh];
    assert all[|before|] == sh && forall i :: 0 <= i < |before| ==> all[i] == before[i];
    if Counting(before) && sh.kind != ByIndex {
      assert Counting(all);
      if AnyCounted(before) {
        var i :| 0 <= i < |before| && Counted(before[i]);
        assert Counted(all[i]);
      }
    }
  }

  /** References after an automatic one: the numbering stays automatic exactly if they all are. */
  lemma {:induction false} CountsManual(next: int, uses: seq<Use>)
    requires next >= 1 || next == -1
    ensures var n := Counts(next, uses);
      && (next == -1 && n.Some? ==> n.value == -1)
      && (next >= 1 && !HasManual(uses) ==> n == Some(next + Autos(uses)))
      && (next >= 1 && HasManual(uses) && n.Some? ==> n.value == -1 && ByName in uses)
    decreases |uses|
  {
    if uses != [] {
      var c := Count(next, uses[0]);
      if c.Some? {
        CountsManual(c.value, uses[1..]);
      }
      if HasManual(uses[1..]) {
        var i :| 0 <= i < |uses[1..]| && uses[1..][i] != Automatic;
        assert uses[i + 1] != Automatic;
      }
      if HasManual(uses) && uses[0] == Automatic {
        var i :| 0 <= i < |uses| && uses[i] != Automatic;
        assert uses[1..][i - 1] != Automatic;
      }
    }
  }

  lemma ManualOnly(uses: seq<Use>)
    requires Automatic !in uses && uses != []
    ensures HasManual(uses)
  {
    assert uses[0] in uses;
  }

  /** A fresh numbering suits references that suit a manual one. */
  lemma FreshCounts(uses: seq<Use>)
    ensures Counts(-1, uses).Some? ==> Counts(0, uses).Some?
  {
  }

  /** The specifiers compiled to x, next to the field's outcome y at run time and the sizes in it. */
  predicate SpecsOutcome(x: Result<(Specs, nat, int)>, y: (Text, int, nat), sizes: seq<Use>, id: int)
  {
    && (x.Ok? <==> id < 0 || !HasManual(sizes))
    && (x.Ok? ==> x.value.1 + 1 == y.2 && x.value.2 == (if id < 0 then MANUAL else id + Autos(sizes)) <= y.2)
  }

  /** The sizes read in the specifiers at p. */
  predicate SizesRead(s: Text, p: nat, t: ArgType, sizes: seq<Use>)
    requires p <= |s|
  {
    var f := FreeSpecs(s, p, t);
    f.Some? && f.value.1 == sizes
  }

  /** Exactly when the specifiers of a field are compiled, and the numbering to go on with. */
  lemma SizesCompile(r: Renderer, s: Text, q: nat, index: nat, id: int, next: int, infos: seq<ArgInfo>, args: seq<Arg>,
                     y: (Text, int, nat), sizes: seq<Use>)
    requires q < |s| < INT_MAX && s[q] == ':' && index < |args| <= INT_MAX && Describes(infos, args)
    requires (id == MANUAL || 1 <= id <= q) && (next == -1 || next == id)
    requires FinishField(r, s, q, args, index, next) == Ok(y) && SizesRead(s, q + 1, infos[index].ty, sizes)
    ensures SpecsOutcome(CompileSpecs(s, q + 1, infos[index].ty, Restart(id)), y, sizes, id)
  {
    hide FinishField, FreeSpecs, Counts, Autos, HasManual, Describes, ParseSpecs, ParseNative, CompileSpecs,
         SpecsOutcome;
    assert |infos| == |args| by {
      SameLength(infos, args);
    }
    var t := infos[index].ty;
    var c := Context(Restart(id), true, INT_MAX, None);
    SpecsCounted(s, q + 1, c, t);
    NativeIsSpecs(s, q + 1, c, t);
    NativeSuits(r, s, q, index, c, next, infos, args);
    if id < 0 {
      FreshCounts(sizes);
    } else {
      SizesCount(id, next, sizes);
    }
    NumberingLeft(s, q + 1, t, id, sizes, y);
  }

  lemma SameLength(infos: seq<ArgInfo>, args: seq<Arg>)
    requires Describes(infos, args)
    ensures |infos| == |args|
  {
  }

  /** The compiler asks the context it parsed with for the next automatic index. */
  lemma NumberingLeft(s: Text, p: nat, t: ArgType, id: int, sizes: seq<Use>, y: (Text, int, nat))
    requires p <= |s| < INT_MAX && (id == MANUAL || 1 <= id < p)
    requires var x := ParseNative(s, p, Context(Restart(id), true, INT_MAX, None), t);
      && (x.Ok? ==> x.value.pos + 1 == y.2 && x.value.ctx.next <= Restart(id) + (x.value.pos - p))
      && (x.Ok? <==> Counts(Restart(id), sizes).Some?)
      && (x.Ok? ==> Counts(Restart(id), sizes) == Some(x.value.ctx.next))
    requires id < 0 ==> Counts(Restart(id), sizes).Some?
    requires id >= 0 ==>
      && (Counts(id, sizes).Some? && Counts(id, sizes).value >= 0 <==> !HasManual(sizes))
      && (!HasManual(sizes) ==> Counts(id, sizes) == Some(id + Autos(sizes)))
    ensures SpecsOutcome(CompileSpecs(s, p, t, Restart(id)), y, sizes, id)
  {
    hide ParseNative, Counts, HasManual, Autos;
  }

  /** References that suit the run time leave the compiler an automatic numbering exactly if none is manual. */
  lemma SizesCount(id: int, next: int, uses: seq<Use>)
    requires id >= 1 && (next == -1 || next == id) && Counts(next, uses).Some?
    ensures var n := Counts(id, uses);
      && (n.Some? && n.value >= 0 <==> !HasManual(uses))
      && (!HasManual(uses) ==> n == Some(id + Autos(uses)))
  {
    CountsManual(id, uses);
    CountsAutos(next, uses, if next == -1 then 0 else next);
    if next == -1 && uses != [] {
      ManualOnly(uses);
    }
  }

  predicate IsProgram(x: Result<Compiled>)
  {
    x.Ok? && x.value.Some?
  }

  /** The rest of a field behind its reference: the specifiers are compiled or refused, then the tail follows. */
  lemma FieldRest(r: Renderer, s: Text, q: nat, index: nat, id: int, next: int, infos: seq<ArgInfo>, args: seq<Arg>,
                  sizes: seq<Use>, y: (Text, int, nat))
    returns (head: Program)
    requires q < |s| < INT_MAX && (s[q] == '}' || s[q] == ':') && index < |args| <= INT_MAX && Describes(infos, args)
    requires (id == MANUAL || 1 <= id <= q) && (next == -1 || next == id)
    requires FinishField(r, s, q, args, index, next) == Ok(y) && y.2 <= |s|
    requires if s[q] == '}' then sizes == [] else
             FreeSpecs(s, q + 1, infos[index].ty).Some? && sizes == FreeSpecs(s, q + 1, infos[index].ty).value.1
    ensures RestCompiled(CompileField(s, q, index, id, infos), head, s, y.2, id, sizes, infos)
  {
    assert |infos| == |args|;
    hide FreeSpecs, Describes, CompileField, CompileTail, CompileSpecs, FinishField;
    if s[q] == '}' {
      head := Field(index);
      PlainRest(r, s, q, index, id, next, infos, args);
    } else {
      head := SpecRest(r, s, q, index, id, next, infos, args, sizes, y);
    }
  }

  /** Compiled to head and a tail with the numbering moved on, or refused for a size that is not automatic. */
  predicate RestCompiled(x: Result<Compiled>, head: Program, s: Text, end: nat, id: int, sizes: seq<Use>,
                         infos: seq<ArgInfo>)
    requires end <= |s|
  {
    var n := if id < 0 then MANUAL else id + Autos(sizes);
    if id >= 0 && HasManual(sizes) then x.Err? else x == CompileTail(head, s, end, n, infos) && n <= end
  }

  lemma SpecRest(r: Renderer, s: Text, q: nat, index: nat, id: int, next: int, infos: seq<ArgInfo>, args: seq<Arg>,
                 sizes: seq<Use>, y: (Text, int, nat))
    returns (head: Program)
    requires q < |s| < INT_MAX && s[q] == ':' && index < |args| == |infos| <= INT_MAX && Describes(infos, args)
    requires (id == MANUAL || 1 <= id <= q) && (next == -1 || next == id)
    requires FinishField(r, s, q, args, index, next) == Ok(y) && y.2 <= |s|
    requires SizesRead(s, q + 1, infos[index].ty, sizes)
    ensures RestCompiled(CompileField(s, q, index, id, infos), head, s, y.2, id, sizes, infos)
  {
    hide SizesRead, Describes, CompileField, CompileSpecs, FinishField, Counts, SpecsOutcome, RestCompiled;
    SizesCompile(r, s, q, index, id, next, infos, args, y, sizes);
    SpecEnd(r, s, q, index, next, args);
    var x := CompileSpecs(s, q + 1, infos[index].ty, Restart(id));
    head := if x.Ok? then SpecField(index, x.value.0) else Field(index);
    SpecTail(s, q, index, id, infos, x, head, sizes, y);
  }

  /** A field with specifiers compiled to x continues after its closing brace. */
  lemma SpecTail(s: Text, q: nat, index: nat, id: int, infos: seq<ArgInfo>, x: Result<(Specs, nat, int)>, head: Program,
                 sizes: seq<Use>, y: (Text, int, nat))
    requires q < |s| && s[q] == ':' && index < |infos| && 0 < y.2 <= |s| && s[y.2 - 1] == '}'
    requires CompileSpecs(s, q + 1, infos[index].ty, Restart(id)) == x && SpecsOutcome(x, y, sizes, id)
    requires x.Ok? ==> head == SpecField(index, x.value.0)
    ensures RestCompiled(CompileField(s, q, index, id, infos), head, s, y.2, id, sizes, infos)
  {
    hide CompileSpecs, HasManual, Autos, CompileTail;
  }

  lemma PlainRest(r: Renderer, s: Text, q: nat, index: nat, id: int, next: int, infos: seq<ArgInfo>, args: seq<Arg>)
    requires q < |s| && s[q] == '}' && index < |args| == |infos|
    ensures CompileField(s, q, index, id, infos) == CompileTail(Field(index), s, q + 1, id, infos)
    ensures FinishField(r, s, q, args, index, next) == Ok((r.plain(args[index]), next, q + 1))
  {
    hide CompileTail, CompileSpecs, ParseSpecs, FormatArg;
  }

  lemma SpecEnd(r: Renderer, s: Text, q: nat, index: nat, next: int, args: seq<Arg>)
    requires q < |s| && s[q] == ':' && index < |args|
    ensures var y := FinishField(r, s, q, args, index, next);
      y.Ok? ==> s[y.value.2 - 1] == '}'
  {
  }

  /** The numbering the compiler goes on with behind a reference to an argument it knows. */
  function AfterRef(kind: Use, id: int): int
  {
    if kind == ByIndex || id < 0 then MANUAL else id + 1
  }

  /** What the compiler makes of a reference that the run time resolves. */
  lemma StartExact(s: Text, p: nat, id: int, next: int, auto: nat, infos: seq<ArgInfo>, args: seq<Arg>)
    requires 0 < p < |s| && s[p - 1] == '{' && s[p] != '{' && Describes(infos, args) && DistinctNames(args)
    requires Numbering(id, next) && AtAuto(next, auto) && id >= -1
    requires ParseFieldId(s, p, args, next).Ok? && 0 <= ParseFieldId(s, p, args, next).value.0 < |args|
    ensures var field, f := ParseFieldId(s, p, args, next).value, FieldRef(s, p, infos, auto);
      var x := Compile(s, p - 1, id, infos);
      && f.Some? && f.value.1 == field.0 && f.value.2 == field.2 && Count(next, f.value.0) == Some(field.1)
      && (f.value.0 == ByIndex && id > 0 ==> x.Err?)
      && (!(f.value.0 == ByIndex && id > 0) && Known(f.value.0, field.0, infos) ==>
            && x == CompileField(s, field.2, field.0, AfterRef(f.value.0, id), infos)
            && (field.1 == -1 || field.1 == AfterRef(f.value.0, id)))
      && (f.value.0 == ByName ==> ParseArgId(s, p).Ok? && ParseArgId(s, p).value.0.Name?)
      && (!Known(f.value.0, field.0, infos) ==>
            && field.1 == -1
            && if s[field.2] == '}' then
                 x == CompileTail(NamedField(ParseArgId(s, p).value.0.name), s, field.2 + 1, id, infos)
               else x == Ok(None))
  {
    RefShaped(s, p, args, infos, next, auto);
    if s[p] != '}' && s[p] != ':' {
      var ref := ParseArgId(s, p);
      if ref.Ok? && ref.value.0.Name? {
        StaticIsFirst(infos, args, ref.value.0.name, 0);
        InfoIsArg(infos, args, ref.value.0.name, 0);
      }
    }
  }

  /** A field that formats: refused, or compiled to head with the tail behind it. */
  lemma FieldHead(r: Renderer, s: Text, p: nat, id: int, next: int, auto: nat, before: seq<Shape>,
                  infos: seq<ArgInfo>, args: seq<Arg>)
    returns (head: Program)
    requires 0 < p < |s| < INT_MAX && s[p - 1] == '{' && s[p] != '{' && -1 <= id < p && |args| <= INT_MAX
    requires Describes(infos, args) && DistinctNames(args)
    requires Numbered(id, before) && Numbering(id, next) && AtAuto(next, auto)
    requires RunField(r, s, p, args, next).Ok?
    ensures var x, y := Compile(s, p - 1, id, infos), RunField(r, s, p, args, next).value;
      var f := FieldShape(s, p, infos, auto);
      && f.Some? && f.value.1 == y.2 && Counts(next, Uses(f.value.0)) == Some(y.1)
      && var sh := f.value.0;
         if ForRunTime(sh) then x == Ok(None)
         else if Refused(before, sh) then x.Err?
         else x == CompileTail(head, s, y.2, NextNumber(id, sh), infos) && NextNumber(id, sh) <= y.2
              && Numbering(NextNumber(id, sh), y.1)
  {
    hide RunField, FinishField, ParseFieldId, ParseArgId, FieldShape, FieldRef, FreeSpecs, Compile, CompileField,
         CompileTail, Describes, DistinctNames, Uses, HasManual;
    RunParts(r, s, p, args, next);
    FieldShaped(r, s, p, args, infos, next, auto);
    var y, sh := RunField(r, s, p, args, next).value, FieldShape(s, p, infos, auto).value.0;
    var field := ParseFieldId(s, p, args, next).value;
    FieldArg(r, s, field.2, field.0, field.1, infos, args);
    StartExact(s, p, id, next, auto, infos, args);
    ShapeParts(s, p, infos, auto);
    UsesCount(next, sh);
    var id' := AfterRef(sh.kind, id);
    if !sh.known {
      head := NamedField(ParseArgId(s, p).value.0.name);
    } else if sh.kind == ByIndex && id > 0 {
      head := Field(0);
    } else {
      head := FieldRest(r, s, field.2, field.0, id', field.1, infos, args, sh.sizes, y);
      SizesStep(id', field.1, sh.sizes);
    }
  }

  lemma RunParts(r: Renderer, s: Text, p: nat, args: seq<Arg>, next: int)
    requires p < |s| && RunField(r, s, p, args, next).Ok?
    ensures var field := ParseFieldId(s, p, args, next);
      field.Ok? && RunField(r, s, p, args, next) == FinishField(r, s, field.value.2, args, field.value.0, field.value.1)
  {
  }

  lemma SizesStep(id: int, next: int, sizes: seq<Use>)
    requires id == MANUAL || id >= 1
    requires next == -1 || next == id
    ensures var n := Counts(next, sizes);
      n.Some? && (id < 0 || !HasManual(sizes)) ==> n.value == -1 || (id >= 1 && n.value == id + Autos(sizes))
  {
    CountsManual(next, sizes);
  }

  // ---- The whole string -----------------------------------------------------------------------------------

  lemma {:induction false} TextShapes(s: Text, p: nat, q: nat, infos: seq<ArgInfo>, auto: nat)
    requires p <= q <= |s| && forall i :: p <= i < q ==> s[i] != '{' && s[i] != '}'
    ensures Shapes(s, p, infos, auto) == Shapes(s, q, infos, auto)
    decreases q - p
  {
    if p < q {
      TextShapes(s, p + 1, q, infos, auto);
    }
  }

  /** Where compiler and run time stand after the fields before: position, numberings and automatic references. */
  predicate Situated(p: nat, id: int, next: int, auto: nat, before: seq<Shape>)
  {
    -1 <= id <= p && Numbered(id, before) && Numbering(id, next) && AtAuto(next, auto)
  }

  predicate Ahead(s: Text, infos: seq<ArgInfo>, args: seq<Arg>)
  {
    |s| < INT_MAX && |args| <= INT_MAX && Describes(infos, args) && DistinctNames(args)
  }

  lemma {:induction false} TailExact(r: Renderer, head: Program, s: Text, q: nat, id: int, next: int, auto: nat,
                                     before: seq<Shape>, infos: seq<ArgInfo>, args: seq<Arg>)
    requires q <= |s| && Ahead(s, infos, args) && Situated(q, id, next, auto, before)
    requires Run(r, s, q, args, next).Ok?
    ensures Decides(before, Shapes(s, q, infos, auto), VerdictOf(CompileTail(head, s, q, id, infos)))
    decreases |s| - q, 1
  {
    if q < |s| {
      CompileExact(r, s, q, id, next, auto, before, infos, args);
    }
  }

  lemma FirstShape(s: Text, p: nat, infos: seq<ArgInfo>, auto: nat)
    requires 0 < p < |s| && s[p - 1] == '{' && s[p] != '{' && FieldShape(s, p, infos, auto).Some?
    ensures var f := FieldShape(s, p, infos, auto).value;
      Shapes(s, p - 1, infos, auto) == [f.0] + Shapes(s, f.1, infos, auto + Autos(Uses(f.0)))
  {
    hide FieldShape;
  }

  lemma NextIsNumber(id: int, sh: Shape)
    requires id >= -1
    ensures NextNumber(id, sh) >= -1
  {
  }

  lemma {:induction false} FieldExact(r: Renderer, s: Text, p: nat, id: int, next: int, auto: nat,
                                      before: seq<Shape>, infos: seq<ArgInfo>, args: seq<Arg>)
    requires 0 < p < |s| && s[p - 1] == '{' && s[p] != '{' && Ahead(s, infos, args)
    requires Situated(p - 1, id, next, auto, before)
    requires var y := RunField(r, s, p, args, next);
      y.Ok? && Run(r, s, y.value.2, args, y.value.1).Ok?
    ensures Decides(before, Shapes(s, p - 1, infos, auto), VerdictOf(Compile(s, p - 1, id, infos)))
    decreases |s| - p, 2
  {
    hide RunField, FieldShape, Shapes, Compile, CompileTail, Run, Decides, Refused, ForRunTime, Uses, Describes,
         DistinctNames, Numbered, Autos, Counts, NextNumber;
    var head := FieldHead(r, s, p, id, next, auto, before, infos, args);
    var y, sh := RunField(r, s, p, args, next).value, FieldShape(s, p, infos, auto).value.0;
    FirstShape(s, p, infos, auto);
    NextIsNumber(id, sh);
    CountsAutos(next, Uses(sh), auto);
    var auto' := auto + Autos(Uses(sh));
    DecidesFirst(before, sh, Shapes(s, y.2, infos, auto'));
    RunTimeRefused(before, sh);
    if !Refused(before, sh) {
      NumberedStep(id, before, sh);
      TailExact(r, head, s, y.2, NextNumber(id, sh), y.1, auto', before + [sh], infos, args);
      DecidesLater(before, sh, Shapes(s, y.2, infos, auto'),
                   VerdictOf(CompileTail(head, s, y.2, NextNumber(id, sh), infos)));
    }
  }

  /** Every rest of a string that formats compiles exactly if none of its fields is refused. */
  lemma {:induction false} CompileExact(r: Renderer, s: Text, p: nat, id: int, next: int, auto: nat,
                                        before: seq<Shape>, infos: seq<ArgInfo>, args: seq<Arg>)
    requires p < |s| && Ahead(s, infos, args) && Situated(p, id, next, auto, before)
    requires Run(r, s, p, args, next).Ok?
    ensures Decides(before, Shapes(s, p, infos, auto), VerdictOf(Compile(s, p, id, infos)))
    decreases |s| - p, 0
  {
    hide FieldShape, RunField, Describes, DistinctNames, Decides;
    if s[p] == '{' {
      if s[p + 1] == '{' {
        TailExact(r, Literal(s[p..p + 1]), s, p + 2, id, next, auto, before, infos, args);
      } else {
        FieldExact(r, s, p + 1, id, next, auto, before, infos, args);
      }
    } else if s[p] == '}' {
      TailExact(r, Literal(s[p..p + 1]), s, p + 2, id, next, auto, before, infos, args);
    } else {
      var end := ParseText(s, p + 1);
      RunText(r, s, p, end, args, next);
      TextShapes(s, p, end, infos, auto);
      TailExact(r, if end - p > 1 then Literal(s[p..end]) else CodeUnit(s[p]), s, end, id, next, auto, before, infos,
                args);
    }
  }

  /**
   * Which formats the compiler accepts of those that the run time formats: exactly the ones in which
   * no field is refused, and their programs have the run time's output.
   */
  lemma CompiledExactly(r: Renderer, s: Text, args: seq<Arg>, infos: seq<ArgInfo>)
    requires Ahead(s, infos, args) && Format(r, s, args).Ok?
    ensures var x, fields := CompileFormat(s, infos), Shapes(s, 0, infos, 0);
      && (IsProgram(x) <==> !NotCompiled(fields))
      && (x == Ok(None) <==> exists k :: 0 <= k < |fields| && !NotCompiled(fields[..k]) && ForRunTime(fields[k]))
      && (IsProgram(x) ==> Execute(r, x.value.value, args) == Format(r, s, args))
  {
    var fields, x := Shapes(s, 0, infos, 0), CompileFormat(s, infos);
    if s != [] {
      CompileExact(r, s, 0, 0, 0, 0, [], infos, args);
    }
    DecidesAll(fields, VerdictOf(x));
    hide Shapes, Compile, NotCompiled, ForRunTime;
    if IsProgram(x) {
      FormatCorrect(r, s, args, infos, x.value.value);
    }
  }

  lemma FineAll(fields: seq<Shape>)
    ensures Fine([], fields) <==> !NotCompiled(fields)
  {
    assert forall k :: 0 <= k < |fields| ==> [] + fields[..k] == fields[..k];
  }

  lemma FirstOfAll(fields: seq<Shape>, k: nat)
    ensures FirstRefused([], fields, k)
       <==> k < |fields| && !NotCompiled(fields[..k]) && Refused(fields[..k], fields[k])
  {
    hide Fine, Refused, NotCompiled;
    if k < |fields| {
      FineAll(fields[..k]);
      assert [] + fields[..k] == fields[..k];
    }
  }

  /** There is one first field that is refused. */
  lemma OneFirst(fields: seq<Shape>, j: nat, k: nat)
    requires j < k < |fields| && Refused(fields[..j], fields[j])
    ensures NotCompiled(fields[..k])
  {
    hide Refused;
    assert fields[..k][..j] == fields[..j] && fields[..k][j] == fields[j];
  }

  /** So the verdict on all fields is the only one. */
  lemma DecidesAll(fields: seq<Shape>, v: Verdict)
    requires Decides([], fields, v)
    ensures v == Compiles <==> !NotCompiled(fields)
    ensures v == LeftToRunTime <==>
      exists k :: 0 <= k < |fields| && !NotCompiled(fields[..k]) && ForRunTime(fields[k])
  {
    FineAll(fields);
    hide Fine, FirstRefused, Refused, ForRunTime;
    if v != Compiles {
      var k: nat :| k < |fields| && FirstRefused([], fields, k) && (ForRunTime(fields[k]) <==> v == LeftToRunTime);
      FirstOfAll(fields, k);
      forall j | 0 <= j < |fields| && !NotCompiled(fields[..j]) && ForRunTime(fields[j])
        ensures j == k
      {
        RunTimeRefused(fields[..j], fields[j]);
        if j < k {
          OneFirst(fields, j, k);
        } else if k < j {
          OneFirst(fields, k, j);
        }
      }
    }
    if k :| 0 <= k < |fields| && !NotCompiled(fields[..k]) && ForRunTime(fields[k]) {
      RunTimeRefused(fields[..k], fields[k]);
    }
  }

  // ---- Which programs are right -----------------------------------------------------------------------

  lemma FormatFailure(r: Renderer, args: seq<Arg>, arg: Arg, specs: Specs)
    ensures var out := FormatArg(r, args, arg, specs);
      out.Err? && !out.error.Dynamic() ==> arg.ty.CharType? && !CharSpecsValid(specs)
  {
  }

  /** What the run time makes of a field: fails at fault, or formats up to dynamic values. */
  predicate RunsAs(run: Result<(Text, int, nat)>, fault: Option<Use>, n: Option<int>, end: nat)
  {
    if fault.Some? then fault.value == Automatic && run.Err?
    else (run.Ok? || run.error.Dynamic()) && (run.Ok? ==> run.value.2 == end && n == Some(run.value.1))
  }

  /** Specifiers compiled to x, at run time. */
  lemma SpecsRun(r: Renderer, s: Text, q: nat, index: nat, id: int, next: int, infos: seq<ArgInfo>, args: seq<Arg>,
                 x: (Specs, nat, int), f: Option<(Parse, seq<Use>)>)
    requires q < |s| && s[q] == ':' && index < |args| && Describes(infos, args)
    requires id != 0 && Numbering(id, next) && FreeSpecs(s, q + 1, infos[index].ty) == f
    requires CompileSpecs(s, q + 1, infos[index].ty, Restart(id)) == Ok(x) && x.1 < |s| && s[x.1] == '}'
    ensures f.Some? && f.value.0.pos == x.1
    ensures RunsAs(FinishField(r, s, q, args, index, next), FirstFault(next, f.value.1), Counts(next, f.value.1),
                   x.1 + 1)
    ensures Counts(next, f.value.1).Some? ==> Numbering(x.2, Counts(next, f.value.1).value)
  {
    hide ParseSpecs, ParseNative, FreeSpecs, FinishField, Counts, FirstFault, CompileSpecs, FormatArg;
    var t := infos[index].ty;
    var c := Context(Restart(id), true, INT_MAX, None);
    CompiledParse(s, q + 1, t, id, x);
    SpecsFree(s, q + 1, c, t);
    SpecsFree(s, q + 1, RuntimeContext(next), t);
    NativeIsSpecs(s, q + 1, c, t);
    CompiledSpecs(s, q + 1, t, id, next);
    FinishSpecs(r, s, q, args, index, next);
    FaultCounts(next, f.value.1);
    ManualFault(f.value.1);
    var y := ParseSpecs(s, q + 1, RuntimeContext(next), t);
    if y.Ok? {
      FormatFailure(r, args, args[index], y.value.specs);
    }
  }

  lemma CompiledParse(s: Text, p: nat, t: ArgType, id: int, x: (Specs, nat, int))
    requires p <= |s| && CompileSpecs(s, p, t, Restart(id)) == Ok(x)
    ensures var y := ParseNative(s, p, Context(Restart(id), true, INT_MAX, None), t);
      y.Ok? && y.value.pos == x.1 && y.value.specs == x.0
  {
  }

  lemma PlainRun(r: Renderer, s: Text, q: nat, index: nat, next: int, args: seq<Arg>)
    requires q < |s| && s[q] == '}' && index < |args|
    ensures RunsAs(FinishField(r, s, q, args, index, next), FirstFault(next, []), Counts(next, []), q + 1)
  {
  }

  /** A reference the compiler takes that the text alone does not resolve is an unknown name. */
  lemma RefUnknown(s: Text, p: nat, id: int, next: int, auto: nat, infos: seq<ArgInfo>, program: Program)
    requires 0 < p < |s| && s[p - 1] == '{' && s[p] != '{'
    requires Compile(s, p - 1, id, infos) == Ok(Some(program)) && Numbering(id, next)
    ensures var f := FieldRef(s, p, infos, auto);
      && (f.None? ==> NameUnknown(s, p, infos))
      && (f.Some? && Count(next, f.value.0).None? ==> f.value.0 == Automatic)
  {
    hide CompileField, CompileTail;
  }

  /** A compiled field next to what its text says and what the run time makes of it. */
  predicate FieldRuns(s: Text, p: nat, next: int, auto: nat, infos: seq<ArgInfo>, run: Result<(Text, int, nat)>,
                      head: Program, id2: int, program: Program)
    requires p < |s|
  {
    var ref, f := FieldRef(s, p, infos, auto), FieldShape(s, p, infos, auto);
    if ref.None? then NameUnknown(s, p, infos) && run.Err?
    else if f.None? then run.Err? && Count(next, ref.value.0).None? && ref.value.0 == Automatic
    else
      var fault, n := FirstFault(next, Uses(f.value.0)), Counts(next, Uses(f.value.0));
      && RunsAs(run, fault, n, f.value.1)
      && (n.Some? ==> CompileTail(head, s, f.value.1, id2, infos) == Ok(Some(program)) && Numbering(id2, n.value))
  }

  /** The reference is at fault at once. */
  lemma FieldAtFault(r: Renderer, s: Text, p: nat, id: int, next: int, auto: nat, infos: seq<ArgInfo>, args: seq<Arg>,
                     head: Program, program: Program)
    requires 0 < p < |s| && s[p - 1] == '{' && s[p] != '{' && Describes(infos, args)
    requires Numbering(id, next) && AtAuto(next, auto) && Compile(s, p - 1, id, infos) == Ok(Some(program))
    requires ParseFieldId(s, p, args, next).Err?
    ensures FieldRuns(s, p, next, auto, infos, RunField(r, s, p, args, next), head, id, program)
  {
    hide FieldRef, FieldShape, RunField, Compile, ParseFieldId, Uses, NameUnknown;
    RefUnknown(s, p, id, next, auto, infos, program);
    RefShaped(s, p, args, infos, next, auto);
    RunIs(r, s, p, args, next);
    var f := FieldShape(s, p, infos, auto);
    if FieldRef(s, p, infos, auto).Some? && f.Some? {
      ShapeParts(s, p, infos, auto);
      FaultUses(next, f.value.0);
      UsesCount(next, f.value.0);
    }
  }

  /** A field whose argument the compiler knows. */
  lemma KnownRuns(r: Renderer, s: Text, p: nat, id: int, next: int, auto: nat, infos: seq<ArgInfo>, args: seq<Arg>,
                  program: Program, index: nat, q: nat, n: int)
    returns (head: Program, id2: int)
    requires 0 < p <= q < |s| && Describes(infos, args) && id != 0 && Numbering(id, n)
    requires CompileField(s, q, index, id, infos) == Ok(Some(program))
    requires var ref := FieldRef(s, p, infos, auto);
      ref.Some? && ref.value.1 == index && ref.value.2 == q && Count(next, ref.value.0) == Some(n)
    requires RunField(r, s, p, args, next) == FinishField(r, s, q, args, index, n)
    ensures FieldRuns(s, p, next, auto, infos, RunField(r, s, p, args, next), head, id2, program)
  {
    hide FieldRef, FieldShape, RunField, Uses, NameUnknown, FreeSpecs, CompileSpecs, CompileTail, FinishField, RunsAs;
    IndexKnown(s, q, index, id, infos, program);
    SameLength(infos, args);
    ShapeIs(s, p, infos, auto);
    if s[q] == '}' {
      head, id2 := Field(index), id;
      PlainRun(r, s, q, index, n, args);
      NothingCounts(n);
    } else {
      var x := SpecsCompiled(s, q, index, id, infos, program);
      head, id2 := SpecField(index, x.0), x.2;
      SpecsRun(r, s, q, index, id, n, infos, args, x, FreeSpecs(s, q + 1, infos[index].ty));
    }
    var f := FieldShape(s, p, infos, auto);
    FaultUses(next, f.value.0);
    UsesCount(next, f.value.0);
  }

  lemma NothingCounts(n: int)
    ensures Counts(n, []) == Some(n) && FirstFault(n, []) == None
  {
  }

  lemma IndexKnown(s: Text, q: nat, index: nat, id: int, infos: seq<ArgInfo>, program: Program)
    requires q < |s| && CompileField(s, q, index, id, infos) == Ok(Some(program))
    ensures index < |infos| && (s[q] == '}' || s[q] == ':')
    ensures s[q] == '}' ==> CompileTail(Field(index), s, q + 1, id, infos) == Ok(Some(program))
  {
    hide CompileSpecs;
  }

  /** Every field of a program. */
  lemma CompiledFieldRuns(r: Renderer, s: Text, p: nat, id: int, next: int, auto: nat, infos: seq<ArgInfo>,
                          args: seq<Arg>, program: Program)
    returns (head: Program, id2: int)
    requires 0 < p < |s| && s[p - 1] == '{' && s[p] != '{' && Describes(infos, args) && DistinctNames(args)
    requires Numbering(id, next) && AtAuto(next, auto) && Compile(s, p - 1, id, infos) == Ok(Some(program))
    ensures FieldRuns(s, p, next, auto, infos, RunField(r, s, p, args, next), head, id2, program)
  {
    hide FieldRef, FieldShape, RunField, Compile, ParseFieldId, CompileField, CompileTail, FinishField, FieldRuns,
         Uses, NameUnknown, ParseArgId, CompileStart, Describes, DistinctNames;
    var field := ParseFieldId(s, p, args, next);
    RunIs(r, s, p, args, next);
    if field.Err? {
      head, id2 := Field(0), id;
      FieldAtFault(r, s, p, id, next, auto, infos, args, head, program);
    } else {
      RefShaped(s, p, args, infos, next, auto);
      FieldStart(s, p, id, next, infos, args, program);
      var start := CompileStart(s, p, id, infos);
      if start.Some? {
        head, id2 := KnownRuns(r, s, p, start.value.1, next, auto, infos, args, program,
                               start.value.0, start.value.2, field.value.1);
      } else {
        head, id2 := NamedField(ParseArgId(s, p).value.0.name), id;
        NamedRuns(r, s, p, id, next, auto, infos, args, program, field.value);
      }
    }
  }

  /** A field named at run time only. */
  lemma NamedRuns(r: Renderer, s: Text, p: nat, id: int, next: int, auto: nat, infos: seq<ArgInfo>, args: seq<Arg>,
                  program: Program, field: (int, int, nat))
    requires 0 < p < |s| && Describes(infos, args) && AtAuto(next, auto)
    requires ParseFieldId(s, p, args, next) == Ok(field) && s[field.2] == '}' && s[p] != '}' && s[p] != ':'
    requires ParseArgId(s, p).Ok? && ParseArgId(s, p).value.0.Name?
    requires CompileTail(NamedField(ParseArgId(s, p).value.0.name), s, field.2 + 1, id, infos) == Ok(Some(program))
    ensures FieldRuns(s, p, next, auto, infos, RunField(r, s, p, args, next),
                      NamedField(ParseArgId(s, p).value.0.name), id, program)
  {
    RefShaped(s, p, args, infos, next, auto);
    RunIs(r, s, p, args, next);
    SameLength(infos, args);
    NamedId(s, p, args, next, field);
    hide FieldRef, FieldShape, RunField, CompileTail, FinishField, Uses, NameUnknown, ParseFieldId, FreeSpecs,
         Describes;
    ShapeIs(s, p, infos, auto);
    PlainRun(r, s, field.2, field.0, field.1, args);
    NothingCounts(field.1);
    var f := FieldShape(s, p, infos, auto);
    FaultUses(next, f.value.0);
    UsesCount(next, f.value.0);
  }

  lemma NamedId(s: Text, p: nat, args: seq<Arg>, next: int, field: (int, int, nat))
    requires p < |s| && ParseFieldId(s, p, args, next) == Ok(field) && s[p] != '}' && s[p] != ':'
    requires ParseArgId(s, p).Ok? && ParseArgId(s, p).value.0.Name?
    ensures 0 <= field.0 < |args| && field.1 == -1
  {
  }

  /**
   * A compiled string at run time: it parses exactly if no reference is at fault there and nothing
   * else ends the string before its end; and only automatic references can be at fault.
   */
  predicate StringRuns(run: Result<Text>, walk: (seq<Use>, Stop), next: int)
  {
    var fault := FirstFault(next, walk.0);
    && (fault == None || fault == Some(Automatic))
    && if fault == None && walk.1 == End then Parsed(run)
       else run.Err? && (fault == None ==> walk.1 != BadField)
  }

  lemma {:induction false} TailRuns(r: Renderer, head: Program, s: Text, q: nat, id: int, next: int, auto: nat,
                                    infos: seq<ArgInfo>, args: seq<Arg>, program: Program)
    requires q <= |s| && Describes(infos, args) && DistinctNames(args) && Numbering(id, next) && AtAuto(next, auto)
    requires CompileTail(head, s, q, id, infos) == Ok(Some(program))
    ensures StringRuns(Run(r, s, q, args, next), Walk(s, q, infos, auto), next)
    decreases |s| - q, 2
  {
    if q < |s| {
      CompiledRuns(r, s, q, id, next, auto, infos, args, program.rhs);
    }
  }

  lemma {:induction false} WalkFieldRuns(r: Renderer, s: Text, p: nat, id: int, next: int, auto: nat,
                                         infos: seq<ArgInfo>, args: seq<Arg>, program: Program)
    requires 0 < p < |s| && s[p - 1] == '{' && s[p] != '{'
    requires Describes(infos, args) && DistinctNames(args) && Numbering(id, next) && AtAuto(next, auto)
    requires Compile(s, p - 1, id, infos) == Ok(Some(program))
    ensures var y := RunField(r, s, p, args, next);
      StringRuns(if y.Err? then Err(y.error) else Prepend(y.value.0, Run(r, s, y.value.2, args, y.value.1)),
                 WalkField(s, p, infos, auto), next)
    decreases |s| - p, 3
  {
    hide FieldRef, FieldShape, RunField, Compile, CompileTail, Run, Walk, Describes, DistinctNames, Uses, Autos,
         NameUnknown, Counts, FirstFault;
    var head, id2 := CompiledFieldRuns(r, s, p, id, next, auto, infos, args, program);
    var ref, f, y := FieldRef(s, p, infos, auto), FieldShape(s, p, infos, auto), RunField(r, s, p, args, next);
    if ref.Some? && f.None? {
      OneFault(next, ref.value.0);
    } else if ref.Some? {
      var uses := Uses(f.value.0);
      var n := Counts(next, uses);
      FaultCounts(next, uses);
      CountsAutos(next, uses, auto);
      var auto' := auto + Autos(uses);
      FaultConcat(next, uses, Walk(s, f.value.1, infos, auto').0);
      if n.Some? {
        TailRuns(r, head, s, f.value.1, id2, n.value, auto', infos, args, program);
      }
    } else {
      NothingCounts(next);
    }
  }

  lemma OneFault(next: int, use: Use)
    ensures FirstFault(next, [use]) == if Count(next, use).None? then Some(use) else None
  {
    assert [use][1..] == [];
  }

  lemma {:induction false} CompiledRuns(r: Renderer, s: Text, p: nat, id: int, next: int, auto: nat,
                                        infos: seq<ArgInfo>, args: seq<Arg>, program: Program)
    requires p < |s| && Describes(infos, args) && DistinctNames(args) && Numbering(id, next) && AtAuto(next, auto)
    requires Compile(s, p, id, infos) == Ok(Some(program))
    ensures StringRuns(Run(r, s, p, args, next), Walk(s, p, infos, auto), next)
    decreases |s| - p, 1
  {
    hide WalkField, RunField, Describes, DistinctNames, FirstFault;
    if s[p] == '{' && s[p + 1] != '{' {
      WalkFieldRuns(r, s, p + 1, id, next, auto, infos, args, program);
    } else if s[p] == '{' {
      TailRuns(r, Literal(s[p..p + 1]), s, p + 2, id, next, auto, infos, args, program);
    } else if s[p] == '}' {
      if s[p + 1] == '}' {
        TailRuns(r, Literal(s[p..p + 1]), s, p + 2, id, next, auto, infos, args, program);
      } else {
        NothingCounts(next);
      }
    } else {
      var end := ParseText(s, p + 1);
      RunText(r, s, p, end, args, next);
      TextWalk(s, p, end, infos, auto);
      TailRuns(r, if end - p > 1 then Literal(s[p..end]) else CodeUnit(s[p]), s, end, id, next, auto, infos, args,
               program);
    }
  }

  lemma {:induction false} TextWalk(s: Text, p: nat, q: nat, infos: seq<ArgInfo>, auto: nat)
    requires p <= q <= |s| && forall i :: p <= i < q ==> s[i] != '{' && s[i] != '}'
    ensures Walk(s, p, infos, auto) == Walk(s, q, infos, auto)
    decreases q - p
  {
    if p < q {
      TextWalk(s, p + 1, q, infos, auto);
    }
  }

  /**
   * When a program does what the run time does. The compiler takes a lone closing brace for a doubled
   * one, and does not mind an automatic reference after one by index or by name; the run time fails
   * on both, as on a name no argument has. On every other string the two agree.
   */
  lemma ProgramExactly(r: Renderer, s: Text, args: seq<Arg>, infos: seq<ArgInfo>, program: Program)
    requires Describes(infos, args) && DistinctNames(args) && CompileFormat(s, infos) == Ok(Some(program))
    ensures var (uses, stop) := Walk(s, 0, infos, 0);
      if stop == End && !AutomaticAfterManual(uses) then
        Parsed(Format(r, s, args)) && Execute(r, program, args) == Format(r, s, args)
      else
        Format(r, s, args).Err? && (stop == LoneBrace || stop == UnknownName || AutomaticAfterManual(uses))
  {
    var walk := Walk(s, 0, infos, 0);
    if s != [] {
      CompiledRuns(r, s, 0, 0, 0, 0, infos, args, program);
    }
    AutomaticFault(0, walk.0);
    FormatCorrect(r, s, args, infos, program);
  }

  /** Without named arguments no field that formats is refused. */
  lemma {:induction false} NoneRefused(r: Renderer, s: Text, p: nat, next: int, auto: nat, before: seq<Shape>,
                                       infos: seq<ArgInfo>, args: seq<Arg>)
    requires p <= |s| && Describes(infos, args) && Unnamed(infos) && AtAuto(next, auto)
    requires Counting(before) && AnyCounted(before) ==> next > 0
    requires Run(r, s, p, args, next).Ok?
    ensures Fine(before, Shapes(s, p, infos, auto))
    decreases |s| - p
  {
    hide FieldShape, RunField, Fine;
    if p < |s| {
      if s[p] == '{' && s[p + 1] != '{' {
        FieldShaped(r, s, p + 1, args, infos, next, auto);
        FieldUnnamed(r, s, p + 1, args, infos, next, auto);
        var y, sh := RunField(r, s, p + 1, args, next).value, FieldShape(s, p + 1, infos, auto).value.0;
        CountsAutos(next, Uses(sh), auto);
        NotRefused(next, before, sh);
        FineStep(before, sh, Shapes(s, y.2, infos, auto + Autos(Uses(sh))));
        NoneRefused(r, s, y.2, y.1, auto + Autos(Uses(sh)), before + [sh], infos, args);
      } else if s[p] == '{' || s[p] == '}' {
        NoneRefused(r, s, p + 2, next, auto, before, infos, args);
      } else {
        NoneRefused(r, s, p + 1, next, auto, before, infos, args);
      }
    } else {
      NoFields(before);
    }
  }

  lemma NoFields(before: seq<Shape>)
    ensures Fine(before, [])
  {
  }

  lemma NotRefused(next: int, before: seq<Shape>, sh: Shape)
    requires Counting(before) && AnyCounted(before) ==> next > 0
    requires Counts(next, Uses(sh)).Some? && ByName !in Uses(sh)
    ensures !Refused(before, sh)
    ensures Counting(before + [sh]) && AnyCounted(before + [sh]) ==> Counts(next, Uses(sh)).value > 0
  {
    var all := before + [sh];
    UsesCount(next, sh);
    assert Uses(sh)[0] == sh.kind && Uses(sh)[1..] == sh.sizes;
    assert forall u :: u in sh.sizes ==> u in Uses(sh);
    assert all[|before|] == sh && forall i :: 0 <= i < |before| ==> all[i] == before[i];
    CountsManual(if next >= 0 then next + 1 else -1, sh.sizes);
    if Counting(all) {
      assert Counting(before);
    }
  }

  /**
   * Without named arguments compiling loses nothing: a format that the run time accepts has a
   * program, and the program has its output.
   */
  lemma PositionalCompiled(r: Renderer, s: Text, args: seq<Arg>, infos: seq<ArgInfo>)
    requires Ahead(s, infos, args) && Unnamed(infos) && Format(r, s, args).Ok?
    ensures var x := CompileFormat(s, infos);
      IsProgram(x) && Execute(r, x.value.value, args) == Format(r, s, args)
  {
    NoneRefused(r, s, 0, 0, 0, [], infos, args);
    FineAll(Shapes(s, 0, infos, 0));
    CompiledExactly(r, s, args, infos);
  }

  /** With named ones it may: an index cannot follow a static name when compiled. */
  lemma IndexAfterNameRejected(r: Renderer, a: Arg)
    requires a == Arg(IntType, 5, "", Some("a"), true)
    ensures var s, infos := "{a}{0}", [ArgInfo(IntType, Some("a"), true)];
      && Describes(infos, [a]) && DistinctNames([a])
      && CompileFormat(s, infos) == Err(AutomaticToManual) && Format(r, s, [a]).Ok?
  {
    var s, infos := "{a}{0}", [ArgInfo(IntType, Some("a"), true)];
    assert s[1..2] == "a";
    assert NameEnd(s, 2) == 2;
    assert ParseArgId(s, 1) == Ok((Name("a"), 2));
    assert ParseArgId(s, 4) == Ok((Index(0), 5));
    assert FindStatic(infos, "a", 0) == Some(0);
    assert Compile(s, 3, 1, infos) == Err(AutomaticToManual);
    assert CompileTail(Field(0), s, 3, 1, infos) == Err(AutomaticToManual);
    assert ParseFieldId(s, 1, [a], 0) == Ok((0, -1, 2));
    assert RunField(r, s, 1, [a], 0) == Ok((r.plain(a), -1, 3));
    assert ParseFieldId(s, 4, [a], -1) == Ok((0, -1, 5));
    assert RunField(r, s, 4, [a], -1) == Ok((r.plain(a), -1, 6));
    assert Run(r, s, 6, [a], -1).Ok?;
    assert Run(r, s, 3, [a], -1).Ok?;
  }

  /** And a width given by name cannot follow an automatic index. */
  lemma NamedWidthRejected(r: Renderer, a: Arg, w: Arg)
    requires a == Arg(IntType, 5, "", None, false) && w == Arg(IntType, 3, "", Some("w"), true)
    ensures var s, infos := "{:{w}}", [ArgInfo(IntType, None, false), ArgInfo(IntType, Some("w"), true)];
      && Describes(infos, [a, w]) && DistinctNames([a, w])
      && CompileFormat(s, infos) == Err(ManualToAutomatic) && Format(r, s, [a, w]).Ok?
  {
    var s, infos, args := "{:{w}}", [ArgInfo(IntType, None, false), ArgInfo(IntType, Some("w"), true)], [a, w];
    var compiler, run := Context(1, true, INT_MAX, None), RuntimeContext(1);
    NamedWidth(s, compiler);
    NamedWidth(s, run);
    assert CompileSpecs(s, 2, IntType, 1).Err?;
    assert FindName(args, "w", 0) == Some(1);
    var specs := DefaultSpecs().(widthRef := Name("w"));
    assert ResolveDynamic(args, Name("w"), 0) == Ok(3);
    assert FormatArg(r, args, a, specs).Ok?;
    assert FinishField(r, s, 1, args, 0, 1).Ok?;
    assert Run(r, s, 6, args, -1) == Ok("");
    assert RunField(r, s, 1, args, 0).value.2 == 6;
  }

  /** The specifier {w} at position 2. */
  lemma NamedWidth(s: Text, ctx: Context)
    requires s == "{:{w}}" && ctx.next == 1
    ensures var parse := Parse(5, WidthState, DefaultSpecs().(widthRef := Name("w")), ctx.(next := -1));
      ParseSpecs(s, 2, ctx, IntType) == Ok(parse) && ParseNative(s, 2, ctx, IntType) == Ok(parse)
  {
    assert NameEnd(s, 4) == 4;
    assert s[3..4] == "w";
    assert ParseArgId(s, 3) == Ok((Name("w"), 4));
    assert ParseDynamicSpec(s, 2, ctx) == Ok(Amount(None, Name("w"), ctx.(next := -1), 5));
    var p := InitialParse(2, ctx);
    assert FirstChar(s, 2) == '{';
    var q := Parse(5, WidthState, DefaultSpecs().(widthRef := Name("w")), ctx.(next := -1));
    assert ParseStep(s, p, '{', IntType) == Ok(More(q));
    assert PresentationOf('}', IntType) == None;
    assert ParseStep(s, q, '}', IntType) == Ok(Done(q));
  }

  // ---- Inputs that the run time rejects ---------------------------------------------------------------

  /** A brace without its double is compiled as one, and the character behind it is lost. */
  lemma LoneBraceCompiled(r: Renderer)
    ensures CompileFormat("a}b", []) == Ok(Some(Concat(CodeUnit('a'), Literal("}"))))
    ensures Format(r, "a}b", []) == Err(UnmatchedBrace)
  {
    var s := "a}b";
    assert ParseText(s, 1) == 1;
    assert s[1..2] == "}";
    assert Compile(s, 1, 0, []) == Ok(Some(Literal("}")));
    assert Run(r, s, 1, [], 0) == Err(UnmatchedBrace);
  }

  /** An automatic index may follow a name. */
  lemma AutomaticAfterNameCompiled(r: Renderer, a: Arg, b: Arg)
    requires a == Arg(IntType, 0, "", Some("a"), true) && b == Arg(IntType, 0, "", None, false)
    ensures var s, infos := "{a}{}", [ArgInfo(IntType, Some("a"), true), ArgInfo(IntType, None, false)];
      && Describes(infos, [a, b]) && DistinctNames([a, b])
      && CompileFormat(s, infos) == Ok(Some(Concat(Field(0), Field(1))))
      && Format(r, s, [a, b]) == Err(ManualToAutomatic)
  {
    var s, infos := "{a}{}", [ArgInfo(IntType, Some("a"), true), ArgInfo(IntType, None, false)];
    assert s[1..2] == "a" && NameEnd(s, 2) == 2;
    assert ParseArgId(s, 1) == Ok((Name("a"), 2));
    hide NameEnd, ParseArgId;
    assert FindStatic(infos, "a", 0) == Some(0);
    hide FindStatic;
    assert Compile(s, 3, 1, infos) == Ok(Some(Field(1)));
    assert CompileTail(Field(0), s, 3, 1, infos) == Ok(Some(Concat(Field(0), Field(1))));
    hide Compile;
    assert CompileField(s, 2, 0, 1, infos) == Ok(Some(Concat(Field(0), Field(1))));
    hide CompileField;
    assert Compile(s, 0, 0, infos) == Ok(Some(Concat(Field(0), Field(1)))) by {
      CompileName(s, infos);
    }
    assert ParseFieldId(s, 1, [a, b], 0) == Ok((0, -1, 2));
    assert RunField(r, s, 1, [a, b], 0) == Ok((r.plain(a), -1, 3));
    assert RunField(r, s, 4, [a, b], -1) == Err(ManualToAutomatic);
    hide RunField;
    assert Run(r, s, 3, [a, b], -1) == Err(ManualToAutomatic);
  }

  lemma CompileName(s: Text, infos: seq<ArgInfo>)
    requires |s| > 2 && s[0] == '{' && s[1] == 'a' && s[2] == '}'
    requires ParseArgId(s, 1) == Ok((Name("a"), 2)) && FindStatic(infos, "a", 0) == Some(0)
    ensures Compile(s, 0, 0, infos) == CompileField(s, 2, 0, 1, infos)
  {
    hide ParseArgId, FindStatic, CompileField;
  }
}
