/** The compile-time format string checker, and what its verdict is worth at run time. */
module FormatCheck {
  import opened Common
  import opened FormatSpec
  import opened FormatSkip
  import opened FormatRun
  import opened FormatFields

  function CheckContext(infos: seq<ArgInfo>, next: int): Context
  {
    Context(next, true, |infos|, Some(Types(infos)))
  }

  /** on_format_specs: the specifiers parsed for the argument's type, or skipped. */
  function CheckSpecs(s: Text, p: nat, ctx: Context, id: int, infos: seq<ArgInfo>): (r: Result<(Context, nat)>)
    requires p <= |s|
    ensures r.Ok? ==> p <= r.value.1 <= |s| && Kept(ctx, r.value.0)
  {
    if 0 <= id < |infos| then
      var parse :- ParseNative(s, p, ctx, infos[id].ty);
      Ok((parse.ctx, parse.pos))
    else Ok((ctx, SkipSpecs(s, p, 0)))
  }

  /** on_arg_id for a name: unlike the run time it does not switch to manual indexing. */
  function CheckName(name: Text, infos: seq<ArgInfo>, dynamicNames: bool): Result<int>
  {
    var i := FindStatic(infos, name, 0);
    if i.Some? then Result<int>.Ok(i.value) else if dynamicNames then Ok(-1) else Err(ArgumentNotFound)
  }

  /** The argument index of a field whose brace is at p - 1, and where its reference ends. */
  function CheckFieldId(s: Text, p: nat, ctx: Context, infos: seq<ArgInfo>, dynamicNames: bool)
    : (r: Result<(int, Context, nat)>)
    requires p < |s|
    ensures r.Ok? ==> p <= r.value.2 < |s| && (s[r.value.2] == '}' || s[r.value.2] == ':') && Kept(ctx, r.value.1)
  {
    if s[p] == '}' || s[p] == ':' then
      var (id, c) :- NextArgId(ctx);
      Ok((id, c, p))
    else
      var (ref, q) :- ParseArgId(s, p);
      if ref.Index? then
        var c :- CheckArgIndex(ctx, ref.id);
        Ok((ref.id, c, q))
      else
        var id :- CheckName(ref.name, infos, dynamicNames);
        if q == |s| || (s[q] != '}' && s[q] != ':') then Err(MissingBrace) else Ok((id, ctx, q))
  }

  function CheckField(s: Text, p: nat, ctx: Context, infos: seq<ArgInfo>, dynamicNames: bool)
    : (r: Result<(Context, nat)>)
    requires p < |s|
    ensures r.Ok? ==> p < r.value.1 <= |s| && Kept(ctx, r.value.0)
  {
    var (id, c, q) :- CheckFieldId(s, p, ctx, infos, dynamicNames);
    if s[q] == '}' then Ok((c, q + 1))
    else
      var (c', end) :- CheckSpecs(s, q + 1, c, id, infos);
      if end == |s| || s[end] != '}' then Err(UnknownSpecifier) else Ok((c', end + 1))
  }

  /** The checker's verdict on the format string from p on. */
  function Check(s: Text, p: nat, ctx: Context, infos: seq<ArgInfo>, dynamicNames: bool): Result<Context>
    requires p <= |s|
    decreases |s| - p
  {
    if p == |s| then Ok(ctx)
    else if s[p] == '{' then
      if p + 1 == |s| then Err(InvalidFormatString)
      else if s[p + 1] == '{' then Check(s, p + 2, ctx, infos, dynamicNames)
      else
        var (c, q) :- CheckField(s, p + 1, ctx, infos, dynamicNames);
        Check(s, q, c, infos, dynamicNames)
    else if s[p] == '}' then
      if p + 1 == |s| || s[p + 1] != '}' then Err(UnmatchedBrace)
      else Check(s, p + 2, ctx, infos, dynamicNames)
    else Check(s, p + 1, ctx, infos, dynamicNames)
  }

  /** The checker as it runs, with its parse context. */
  class FormatStringChecker {
    var context: Context
    const infos: seq<ArgInfo>
    const dynamicNames: bool

    constructor (infos: seq<ArgInfo>, dynamicNames: bool)
      ensures this.infos == infos && this.dynamicNames == dynamicNames && context == CheckContext(infos, 0)
    {
      this.infos, this.dynamicNames, context := infos, dynamicNames, CheckContext(infos, 0);
    }

    /** on_format_specs, counting brackets where the type is unknown. */
    method OnFormatSpecs(s: Text, begin: nat, id: int) returns (end: Result<nat>)
      requires begin <= |s|
      modifies this
      ensures end.Err? ==> CheckSpecs(s, begin, old(context), id, infos) == Err(end.error)
      ensures end.Ok? ==> CheckSpecs(s, begin, old(context), id, infos) == Ok((context, end.value))
    {
      if 0 <= id < |infos| {
        var parse := ParseNative(s, begin, context, infos[id].ty);
        match parse
        case Err(e) => return Err(e);
        case Ok(done) =>
          context := done.ctx;
          return Ok(done.pos);
      }
      var p, count := begin, 0;
      while p < |s| && (count > 0 || s[p] != '}')
        invariant begin <= p <= |s| && context == old(context)
        invariant SkipSpecs(s, begin, 0) == SkipSpecs(s, p, count)
      {
        if s[p] == '{' {
          count := count + 1;
        } else if s[p] == '}' {
          count := count - 1;
        }
        p := p + 1;
      }
      return Ok(p);
    }

    /** A replacement field whose brace is at p - 1. */
    method ParseField(s: Text, p: nat) returns (end: Result<nat>)
      requires p < |s|
      modifies this
      ensures end.Ok? ==> p < end.value <= |s|
      ensures end.Err? ==> CheckField(s, p, old(context), infos, dynamicNames) == Err(end.error)
      ensures end.Ok? ==> CheckField(s, p, old(context), infos, dynamicNames) == Ok((context, end.value))
    {
      hide CheckSpecs;
      hide CheckFieldId;
      var field := CheckFieldId(s, p, context, infos, dynamicNames);
      if field.Err? {
        return Err(field.error);
      }
      var id, q := field.value.0, field.value.2;
      context := field.value.1;
      if s[q] == '}' {
        return Ok(q + 1);
      }
      end := OnFormatSpecs(s, q + 1, id);
      if end.Ok? {
        if end.value == |s| || s[end.value] != '}' {
          return Err(UnknownSpecifier);
        }
        return Ok(end.value + 1);
      }
    }

    /** A replacement field or an escaped brace at p; yields the position after it. */
    method ParseReplacementField(s: Text, p: nat) returns (end: Result<nat>)
      requires p < |s| && s[p] == '{'
      modifies this
      ensures end.Ok? ==> p < end.value <= |s|
      ensures Check(s, p, old(context), infos, dynamicNames)
           == if end.Err? then Err(end.error) else Check(s, end.value, context, infos, dynamicNames)
    {
      if p + 1 == |s| {
        return Err(InvalidFormatString);
      }
      if s[p + 1] == '{' {
        return Ok(p + 2);
      }
      end := ParseField(s, p + 1);
    }

    /** parse_format_string on behalf of the checker. */
    method ParseFormatString(s: Text) returns (error: Option<Error>)
      modifies this
      ensures Check(s, 0, old(context), infos, dynamicNames)
           == if error.Some? then Err(error.value) else Ok(context)
    {
      var p := 0;
      while p < |s|
        invariant 0 <= p <= |s|
        invariant Check(s, 0, old(context), infos, dynamicNames) == Check(s, p, context, infos, dynamicNames)
      {
        var c := s[p];
        p := p + 1;
        if c == '{' {
          var end := ParseReplacementField(s, p - 1);
          if end.Err? {
            return Some(end.error);
          }
          p := end.value;
        } else if c == '}' {
          if p == |s| || s[p] != '}' {
            return Some(UnmatchedBrace);
          }
          p := p + 1;
        }
      }
      return None;
    }
  }

  // ---- The references of a string ---------------------------------------------------------------------

  /** A reference, and whether the checker numbers it: it looks up field names without, and skips unknown specifiers. */
  datatype Ref = Ref(kind: Use, checked: bool)

  function Sized(sizes: seq<Use>, checked: bool): seq<Ref>
  {
    if sizes == [] then [] else [Ref(sizes[0], checked)] + Sized(sizes[1..], checked)
  }

  function FieldRefs(sh: Shape): seq<Ref>
  {
    [Ref(sh.kind, sh.kind != ByName)] + Sized(sh.sizes, sh.known)
  }

  /** All references in the order they are read. */
  function References(fields: seq<Shape>): seq<Ref>
  {
    if fields == [] then [] else FieldRefs(fields[0]) + References(fields[1..])
  }

  /** An automatic reference follows a field name: the run time objects, the checker does not notice. */
  predicate AutomaticAfterName(refs: seq<Ref>)
  {
    exists i, j :: 0 <= i < j < |refs| && refs[i] == Ref(ByName, false) && refs[j].kind == Automatic
  }

  /** The automatic reference at i is the last the checker numbered before j. */
  predicate LastBefore(refs: seq<Ref>, i: nat, j: nat)
    requires i < j <= |refs|
  {
    refs[i] == Ref(Automatic, true) && forall k :: i < k < j ==> !refs[k].checked
  }

  /**
   * An index follows an automatic reference with nothing between them but names of fields and
   * what is skipped: the checker objects, the run time is manual since the name.
   */
  predicate IndexAfterAutomatic(refs: seq<Ref>)
  {
    exists i, j :: 0 <= i < j < |refs| && LastBefore(refs, i, j) && refs[j] == Ref(ByIndex, true)
  }

  /** The run time's numbering after these references, or the checker's. */
  function Through(next: int, refs: seq<Ref>, checker: bool): Option<int>
    decreases |refs|
  {
    if refs == [] then Some(next)
    else
      var c := if checker && !refs[0].checked then Some(next) else Count(next, refs[0].kind);
      if c.None? then None else Through(c.value, refs[1..], checker)
  }

  lemma {:induction false} ThroughConcat(next: int, a: seq<Ref>, b: seq<Ref>, checker: bool)
    ensures Through(next, a + b, checker)
         == var c := Through(next, a, checker); if c.None? then None else Through(c.value, b, checker)
    decreases |a|
  {
    if a == [] {
      assert a + b == b;
    } else {
      assert (a + b)[1..] == a[1..] + b;
      var c := if checker && !a[0].checked then Some(next) else Count(next, a[0].kind);
      if c.Some? {
        ThroughConcat(c.value, a[1..], b, checker);
      }
    }
  }

  lemma {:induction false} ThroughSized(next: int, sizes: seq<Use>, checked: bool, checker: bool)
    ensures Through(next, Sized(sizes, checked), checker)
         == if checker && !checked then Some(next) else Counts(next, sizes)
    decreases |sizes|
  {
    if sizes != [] {
      var refs := Sized(sizes, checked);
      assert refs[1..] == Sized(sizes[1..], checked);
      var c := if checker && !checked then Some(next) else Count(next, sizes[0]);
      if c.Some? {
        ThroughSized(c.value, sizes[1..], checked, checker);
      }
    }
  }

  /** The checker's numbering after the reference of a field to its argument. */
  function CheckCount(next: int, kind: Use): Option<int>
  {
    if kind == ByName then Some(next) else Count(next, kind)
  }

  lemma ThroughField(next: int, sh: Shape)
    ensures Through(next, FieldRefs(sh), false) == Counts(next, Uses(sh))
    ensures Through(next, FieldRefs(sh), true)
         == var c := CheckCount(next, sh.kind);
            if c.None? then None else if sh.known then Counts(c.value, sh.sizes) else c
  {
    var refs := FieldRefs(sh);
    assert refs[1..] == Sized(sh.sizes, sh.known);
    UsesCount(next, sh);
    var c, d := Count(next, sh.kind), CheckCount(next, sh.kind);
    if c.Some? {
      ThroughSized(c.value, sh.sizes, sh.known, false);
    }
    if d.Some? {
      ThroughSized(d.value, sh.sizes, sh.known, true);
    }
  }

  // ---- Both numberings side by side ------------------------------------------------------------------

  /** Only names of fields, and references in a field after its name, are not numbered by the checker. */
  predicate Orderly(refs: seq<Ref>)
  {
    forall i :: 0 <= i < |refs| ==>
      refs[i].checked || refs[i].kind == ByName || exists k :: 0 <= k < i && refs[k].kind == ByName
  }

  lemma OrderlyRest(next: int, refs: seq<Ref>)
    requires refs != [] && (next == -1 || Orderly(refs)) && Count(next, refs[0].kind).Some?
    ensures Count(next, refs[0].kind).value == -1 || Orderly(refs[1..])
  {
    if next != -1 && refs[0].kind == Automatic {
      forall i | 0 <= i < |refs[1..]|
        ensures refs[1..][i].checked || refs[1..][i].kind == ByName
                || exists k :: 0 <= k < i && refs[1..][k].kind == ByName
      {
        assert refs[i + 1] == refs[1..][i];
        if !refs[i + 1].checked && refs[i + 1].kind != ByName {
          var k :| 0 <= k < i + 1 && refs[k].kind == ByName;
          assert refs[1..][k - 1].kind == ByName;
        }
      }
    }
  }

  /** The last reference that the checker numbered was automatic. */
  predicate LastAutomatic(refs: seq<Ref>)
  {
    exists i :: 0 <= i < |refs| && refs[i] == Ref(Automatic, true) && forall k :: i < k < |refs| ==> !refs[k].checked
  }

  predicate HasFieldName(refs: seq<Ref>)
  {
    exists i :: 0 <= i < |refs| && refs[i] == Ref(ByName, false)
  }

  lemma LastStep(refs: seq<Ref>, u: Ref)
    ensures LastAutomatic(refs + [u]) <==> if u.checked then u.kind == Automatic else LastAutomatic(refs)
    ensures HasFieldName(refs + [u]) <==> HasFieldName(refs) || u == Ref(ByName, false)
  {
    var all := refs + [u];
    assert all[|refs|] == u && forall i :: 0 <= i < |refs| ==> all[i] == refs[i];
    if LastAutomatic(refs) && !u.checked {
      var i :| 0 <= i < |refs| && refs[i] == Ref(Automatic, true) && forall k :: i < k < |refs| ==> !refs[k].checked;
      assert all[i] == Ref(Automatic, true);
    }
    if LastAutomatic(all) && !u.checked {
      var i :| 0 <= i < |all| && all[i] == Ref(Automatic, true) && forall k :: i < k < |all| ==> !all[k].checked;
      assert refs[i] == Ref(Automatic, true) && forall k :: i < k < |refs| ==> !all[k].checked;
    }
    if HasFieldName(refs) {
      var i :| 0 <= i < |refs| && refs[i] == Ref(ByName, false);
      assert all[i] == Ref(ByName, false);
    }
  }

  /**
   * After the references before, an index is the checker's stumbling block, or an automatic
   * reference the run time's.
   */
  predicate Fault(index: bool, before: seq<Ref>, u: Ref)
  {
    if index then LastAutomatic(before) && u == Ref(ByIndex, true) else HasFieldName(before) && u.kind == Automatic
  }

  predicate Faultless(index: bool, before: seq<Ref>, rest: seq<Ref>)
  {
    forall j :: 0 <= j < |rest| ==> !Fault(index, before + rest[..j], rest[j])
  }

  lemma FaultlessStep(index: bool, before: seq<Ref>, rest: seq<Ref>)
    requires rest != []
    ensures Faultless(index, before, rest)
       <==> !Fault(index, before, rest[0]) && Faultless(index, before + [rest[0]], rest[1..])
  {
    assert before + rest[..0] == before;
    forall j | 0 <= j < |rest[1..]|
      ensures (before + [rest[0]]) + rest[1..][..j] == before + rest[..j + 1] && rest[1..][j] == rest[j + 1]
    {
    }
    if Faultless(index, before, rest) {
      forall j | 0 <= j < |rest[1..]|
        ensures !Fault(index, (before + [rest[0]]) + rest[1..][..j], rest[1..][j])
      {
        assert !Fault(index, before + rest[..j + 1], rest[j + 1]);
      }
      assert !Fault(index, before + rest[..0], rest[0]);
    } else {
      var j :| 0 <= j < |rest| && Fault(index, before + rest[..j], rest[j]);
      if j > 0 {
        assert rest[1..][j - 1] == rest[j] && (before + [rest[0]]) + rest[1..][..j - 1] == before + rest[..j];
      }
    }
  }

  /** The checker accepts references that the run time does exactly if none of them is such an index. */
  lemma {:induction false} CheckerThrough(before: seq<Ref>, rest: seq<Ref>, c: int, next: int)
    requires c >= -1 && (next == -1 || next == c) && (c > 0 <==> LastAutomatic(before))
    requires next == -1 || Orderly(rest)
    requires Through(next, rest, false).Some?
    ensures Through(c, rest, true).Some? <==> Faultless(true, before, rest)
    ensures var a, b := Through(c, rest, true), Through(next, rest, false);
      a.Some? ==> a.value >= -1 && (b.value == -1 || b.value == a.value)
    decreases |rest|
  {
    if rest != [] {
      var u := rest[0];
      LastStep(before, u);
      OrderlyRest(next, rest);
      FaultlessStep(true, before, rest);
      hide LastAutomatic, HasFieldName, Orderly, Faultless;
      var c' := if u.checked then Count(c, u.kind) else Some(c);
      if c'.Some? {
        CheckerThrough(before + [u], rest[1..], c'.value, Count(next, u.kind).value);
      }
    }
  }

  /** The run time accepts references that the checker does exactly if none of them is automatic after a name. */
  lemma {:induction false} RunThrough(before: seq<Ref>, rest: seq<Ref>, c: int)
    requires c >= -1 && Through(c, rest, true).Some?
    requires forall i :: 0 <= i < |rest| ==> rest[i].checked || rest[i].kind == ByName
    ensures Through(if HasFieldName(before) then -1 else c, rest, false).Some? <==> Faultless(false, before, rest)
    decreases |rest|
  {
    if rest != [] {
      var u := rest[0];
      LastStep(before, u);
      FaultlessStep(false, before, rest);
      hide LastAutomatic, HasFieldName, Faultless;
      var c' := if u.checked then Count(c, u.kind) else Some(c);
      RunThrough(before + [u], rest[1..], c'.value);
    }
  }

  lemma LastOfPrefix(refs: seq<Ref>, j: nat)
    requires j <= |refs|
    ensures LastAutomatic(refs[..j]) <==> exists i :: 0 <= i < j && LastBefore(refs, i, j)
  {
    var p := refs[..j];
    assert forall k :: 0 <= k < j ==> p[k] == refs[k];
    if LastAutomatic(p) {
      var i :| 0 <= i < |p| && p[i] == Ref(Automatic, true) && forall k :: i < k < |p| ==> !p[k].checked;
      assert LastBefore(refs, i, j) by {
        assert forall k :: i < k < j ==> !p[k].checked;
      }
    }
    if i :| 0 <= i < j && LastBefore(refs, i, j) {
      assert p[i] == Ref(Automatic, true) && forall k :: i < k < |p| ==> !p[k].checked;
    }
  }

  /** In terms of two positions. */
  lemma IndexFault(refs: seq<Ref>)
    ensures IndexAfterAutomatic(refs) <==> !Faultless(true, [], refs)
  {
    hide LastAutomatic, HasFieldName, LastBefore;
    forall j | 0 <= j < |refs|
      ensures Fault(true, [] + refs[..j], refs[j])
         <==> (exists i :: 0 <= i < j && LastBefore(refs, i, j)) && refs[j] == Ref(ByIndex, true)
    {
      assert [] + refs[..j] == refs[..j];
      LastOfPrefix(refs, j);
    }
  }

  lemma NameOfPrefix(refs: seq<Ref>, j: nat)
    requires j <= |refs|
    ensures HasFieldName(refs[..j]) <==> exists i :: 0 <= i < j && refs[i] == Ref(ByName, false)
  {
    var p := refs[..j];
    assert forall k :: 0 <= k < j ==> p[k] == refs[k];
  }

  lemma NameFault(refs: seq<Ref>)
    ensures AutomaticAfterName(refs) <==> !Faultless(false, [], refs)
  {
    hide LastAutomatic, HasFieldName;
    forall j | 0 <= j < |refs|
      ensures Fault(false, [] + refs[..j], refs[j])
         <==> (exists i :: 0 <= i < j && refs[i] == Ref(ByName, false)) && refs[j].kind == Automatic
    {
      assert [] + refs[..j] == refs[..j];
      NameOfPrefix(refs, j);
    }
  }

  // ---- Soundness ------------------------------------------------------------------------------------

  /** The checker's context belongs to these arguments. */
  predicate Knows(ctx: Context, infos: seq<ArgInfo>)
  {
    ctx == CheckContext(infos, ctx.next) && ctx.next >= -1
  }

  /** A reference the checker accepts is numbered as its kind says; the unknown ones it leaves to the run time. */
  lemma RefAccepted(s: Text, p: nat, c: Context, auto: nat, infos: seq<ArgInfo>, args: seq<Arg>, dynamicNames: bool)
    requires p < |s| && Describes(infos, args) && DistinctNames(args) && Knows(c, infos) && AtAuto(c.next, auto)
    ensures var x, f := CheckFieldId(s, p, c, infos, dynamicNames), FieldRef(s, p, infos, auto);
      x.Ok? ==>
        && Knows(x.value.1, infos)
        && (!dynamicNames ==> f.Some? && Known(f.value.0, f.value.1, infos) && 0 <= f.value.1 < |infos|)
        && (f.Some? && Known(f.value.0, f.value.1, infos) ==>
              && f.value.1 == x.value.0 && f.value.2 == x.value.2 && 0 <= x.value.0 < |infos|
              && CheckCount(c.next, f.value.0) == Some(x.value.1.next))
  {
    if s[p] != '}' && s[p] != ':' {
      var ref := ParseArgId(s, p);
      if ref.Ok? && ref.value.0.Name? {
        StaticIsFirst(infos, args, ref.value.0.name, 0);
        InfoIsArg(infos, args, ref.value.0.name, 0);
        InfoNamed(infos, ref.value.0.name, 0);
      }
    }
  }

  /** What formatting makes of accepted specifiers is up to the numbering and the dynamic values. */
  lemma SpecsAccepted(r: Renderer, s: Text, q: nat, id: int, c: Context, next: int, infos: seq<ArgInfo>, args: seq<Arg>,
                      f: Option<(Parse, seq<Use>)>, run: Result<(Text, int, nat)>)
    requires q < |s| && s[q] == ':' && 0 <= id < |args| && Describes(infos, args) && Knows(c, infos)
    requires f == FreeSpecs(s, q + 1, infos[id].ty) && run == FinishField(r, s, q, args, id, next)
    ensures var x := CheckSpecs(s, q + 1, c, id, infos);
      x.Ok? && x.value.1 < |s| && s[x.value.1] == '}' ==>
        && f.Some? && f.value.0.pos == x.value.1 && Knows(x.value.0, infos)
        && Counts(c.next, f.value.1) == Some(x.value.0.next)
        && (run.Ok? ==> run.value.2 == x.value.1 + 1 && Counts(next, f.value.1) == Some(run.value.1))
        && (Counts(next, f.value.1).Some? ==> run.Ok? || run.error.Dynamic())
  {
    var t := infos[id].ty;
    SpecsFree(s, q + 1, c, t);
    SpecsFree(s, q + 1, RuntimeContext(next), t);
    NativeIsSpecs(s, q + 1, c, t);
    CountsLow(c.next, if f.Some? then f.value.1 else []);
    hide ParseSpecs, ParseNative, FreeSpecs, Counts;
    FinishSpecs(r, s, q, args, id, next);
    var x, y := ParseNative(s, q + 1, c, t), ParseSpecs(s, q + 1, RuntimeContext(next), t);
    if x.Ok? && y.Ok? {
      FormatFails(r, args, args[id], y.value.specs);
    }
  }

  lemma {:induction false} CountsLow(next: int, uses: seq<Use>)
    requires next >= -1
    ensures Counts(next, uses).Some? ==> Counts(next, uses).value >= -1
    decreases |uses|
  {
    if uses != [] {
      var c := Count(next, uses[0]);
      if c.Some? {
        CountsLow(c.value, uses[1..]);
      }
    }
  }

  lemma FormatFails(r: Renderer, args: seq<Arg>, arg: Arg, specs: Specs)
    ensures var out := FormatArg(r, args, arg, specs);
      out.Err? && !out.error.Dynamic() ==> arg.ty.CharType? && !CharSpecsValid(specs)
  {
  }

  /** What an accepted field, with its shape and the context after it, makes of the run time. */
  predicate FieldOutcome(x: (Context, nat), sh: Shape, run: Result<(Text, int, nat)>, c: int, next: int,
                         infos: seq<ArgInfo>)
  {
    && sh.known && Knows(x.0, infos) && Through(c, FieldRefs(sh), true) == Some(x.0.next)
    && (run.Ok? ==> run.value.2 == x.1 && Through(next, FieldRefs(sh), false) == Some(run.value.1))
    && (Through(next, FieldRefs(sh), false).Some? ==> run.Ok? || run.error.Dynamic())
  }

  /**
   * A field that the checker accepts has a shape, and formats unless its references do not suit the
   * run time; a field that it leaves to the run time has an argument whose name it does not know.
   */
  lemma FieldSound(r: Renderer, s: Text, p: nat, c: Context, next: int, auto: nat, infos: seq<ArgInfo>, args: seq<Arg>,
                   dynamicNames: bool)
    requires p < |s| && Describes(infos, args) && DistinctNames(args) && Knows(c, infos)
    requires AtAuto(c.next, auto) && AtAuto(next, auto)
    ensures var x, f := CheckField(s, p, c, infos, dynamicNames), FieldShape(s, p, infos, auto);
      x.Ok? ==>
        && (!dynamicNames ==> f.Some? && f.value.0.known)
        && (f.Some? && f.value.0.known ==>
              && f.value.1 == x.value.1
              && FieldOutcome(x.value, f.value.0, RunField(r, s, p, args, next), c.next, next, infos))
  {
    hide FormatArg, ParseSpecs, ParseNative, FreeSpecs, CheckSpecs, CheckFieldId, ParseFieldId, FieldRef,
         FinishField, Describes, DistinctNames, FieldRefs, Through, Counts, Types, Known, Count, RunField, Knows,
         FillClosed;
    RefAccepted(s, p, c, auto, infos, args, dynamicNames);
    RefShaped(s, p, args, infos, next, auto);
    ShapeParts(s, p, infos, auto);
    var x, ref := CheckFieldId(s, p, c, infos, dynamicNames), FieldRef(s, p, infos, auto);
    if CheckField(s, p, c, infos, dynamicNames).Ok? && ref.Some? && Known(ref.value.0, ref.value.1, infos) {
      var id, q := x.value.0, x.value.2;
      var n := Count(next, ref.value.0);
      var m := if n.Some? then n.value else -1;
      RunIs(r, s, p, args, next);
      SameCount(infos, args);
      NoSizes(x.value.1.next);
      NoSizes(m);
      if s[q] == ':' {
        SpecsAccepted(r, s, q, id, x.value.1, m, infos, args, FreeSpecs(s, q + 1, infos[id].ty),
                      FinishField(r, s, q, args, id, m));
      } else {
        PlainField(r, s, q, args, id, m);
      }
      var sh := FieldShape(s, p, infos, auto).value.0;
      ThroughField(c.next, sh);
      ThroughField(next, sh);
      UsesCount(next, sh);
    }
  }

  lemma NoSizes(next: int)
    ensures Counts(next, []) == Some(next)
  {
  }

  lemma SameCount(infos: seq<ArgInfo>, args: seq<Arg>)
    requires Describes(infos, args)
    ensures |infos| == |args|
  {
  }

  lemma PlainField(r: Renderer, s: Text, q: nat, args: seq<Arg>, id: nat, next: int)
    requires q < |s| && s[q] == '}' && id < |args|
    ensures FinishField(r, s, q, args, id, next) == Ok((r.plain(args[id]), next, q + 1))
  {
  }

  lemma FieldAutos(next: int, sh: Shape, auto: nat)
    requires AtAuto(next, auto) && sh.known && next >= -1
    ensures var n := Through(next, FieldRefs(sh), true);
      n.Some? ==> AtAuto(n.value, auto + Autos(Uses(sh)))
  {
    ThroughField(next, sh);
    assert Uses(sh)[1..] == sh.sizes;
    var c := CheckCount(next, sh.kind);
    if c.Some? {
      CountsAutos(c.value, sh.sizes, if sh.kind == Automatic then auto + 1 else auto);
    }
  }

  predicate SimpleRefs(refs: seq<Ref>)
  {
    forall i :: 0 <= i < |refs| ==> refs[i].checked || refs[i].kind == ByName
  }

  lemma {:induction false} SizedChecked(sizes: seq<Use>)
    ensures SimpleRefs(Sized(sizes, true))
  {
    if sizes != [] {
      SizedChecked(sizes[1..]);
    }
  }

  lemma SimpleField(sh: Shape, rest: seq<Ref>)
    requires sh.known && SimpleRefs(rest)
    ensures SimpleRefs(FieldRefs(sh) + rest)
  {
    SizedChecked(sh.sizes);
  }

  /** The fields before the first that the checker leaves to the run time. */
  function KnownPrefix(fields: seq<Shape>): seq<Shape>
  {
    if fields == [] || !fields[0].known then [] else [fields[0]] + KnownPrefix(fields[1..])
  }

  lemma KnownFirst(sh: Shape, rest: seq<Shape>)
    ensures KnownPrefix([sh] + rest) == if sh.known then [sh] + KnownPrefix(rest) else []
  {
    assert ([sh] + rest)[1..] == rest;
  }

  /** Where that field is; the end of the string if there is none. */
  function KnownEnd(s: Text, p: nat, infos: seq<ArgInfo>, auto: nat): (u: nat)
    requires p <= |s|
    ensures p <= u <= |s|
    decreases |s| - p
  {
    if p == |s| then p
    else if s[p] == '{' then
      if p + 1 == |s| then p
      else if s[p + 1] == '{' then KnownEnd(s, p + 2, infos, auto)
      else
        var f := FieldShape(s, p + 1, infos, auto);
        if f.None? || !f.value.0.known then p else KnownEnd(s, f.value.1, infos, auto + Autos(Uses(f.value.0)))
    else if s[p] == '}' then
      if p + 1 == |s| || s[p + 1] != '}' then p else KnownEnd(s, p + 2, infos, auto)
    else KnownEnd(s, p + 1, infos, auto)
  }

  /** The run goes as far as to the outcome of a rest of the string, or fails on a dynamic value before. */
  ghost predicate Reaches(run: Result<Text>, rest: Result<Text>)
  {
    (run.Err? && run.error.Dynamic()) || exists text :: run == Prepend(text, rest)
  }

  lemma ReachesMore(text: Text, run: Result<Text>, rest: Result<Text>)
    requires Reaches(run, rest)
    ensures Reaches(Prepend(text, run), rest)
  {
    if !(run.Err? && run.error.Dynamic()) {
      var more :| run == Prepend(more, rest);
      assert rest.Ok? ==> text + (more + rest.value) == (text + more) + rest.value;
      assert Prepend(text, run) == Prepend(text + more, rest);
    }
  }

  lemma ReachesHere(rest: Result<Text>)
    ensures Reaches(rest, rest)
  {
    assert rest.Ok? ==> [] + rest.value == rest.value;
    assert rest == Prepend([], rest);
  }

  /** What formatting makes of an accepted rest of a string whose references are refs and which is known up to u. */
  ghost predicate RunOutcome(r: Renderer, s: Text, u: nat, args: seq<Arg>, refs: seq<Ref>, c: int, next: int,
                             run: Result<Text>)
    requires u <= |s|
  {
    && SimpleRefs(refs) && Through(c, refs, true).Some?
    && var n := Through(next, refs, false);
       if n.None? then run.Err? else Reaches(run, Run(r, s, u, args, n.value))
  }

  lemma OutcomeHere(r: Renderer, s: Text, p: nat, args: seq<Arg>, c: int, next: int)
    requires p <= |s|
    ensures RunOutcome(r, s, p, args, References([]), c, next, Run(r, s, p, args, next))
  {
    NothingThrough(c, true);
    NothingThrough(next, false);
    ReachesHere(Run(r, s, p, args, next));
  }

  lemma OutcomeText(r: Renderer, s: Text, u: nat, args: seq<Arg>, refs: seq<Ref>, c: int, next: int,
                    text: Text, run: Result<Text>)
    requires u <= |s| && RunOutcome(r, s, u, args, refs, c, next, run)
    ensures RunOutcome(r, s, u, args, refs, c, next, Prepend(text, run))
  {
    hide Reaches, SimpleRefs, Through, Run;
    var n := Through(next, refs, false);
    if n.Some? {
      ReachesMore(text, run, Run(r, s, u, args, n.value));
    }
  }

  /** A known field, and what follows it. */
  lemma OutcomeField(r: Renderer, s: Text, u: nat, args: seq<Arg>, infos: seq<ArgInfo>, sh: Shape, fields: seq<Shape>,
                     x: (Context, nat), c: int, next: int, y: Result<(Text, int, nat)>, run: Result<Text>)
    requires u <= |s| && FieldOutcome(x, sh, y, c, next, infos)
    requires var n := Through(next, FieldRefs(sh), false);
      RunOutcome(r, s, u, args, References(fields), x.0.next, if n.Some? then n.value else -1, run)
    ensures RunOutcome(r, s, u, args, References([sh] + fields), c, next,
                       if y.Err? then Err(y.error) else Prepend(y.value.0, run))
  {
    hide Reaches, SimpleRefs, Through, Run, FieldRefs, References, Knows;
    ThroughFirst(c, sh, fields, true);
    ThroughFirst(next, sh, fields, false);
    ReferencesSplit(sh, fields);
    SimpleField(sh, References(fields));
    var n := Through(next, FieldRefs(sh), false);
    if n.Some? {
      var m := Through(n.value, References(fields), false);
      if m.Some? {
        DynamicReaches(y, Run(r, s, u, args, m.value));
        ReachesMore(if y.Ok? then y.value.0 else [], run, Run(r, s, u, args, m.value));
      }
    }
  }

  lemma DynamicReaches(y: Result<(Text, int, nat)>, rest: Result<Text>)
    ensures y.Err? && y.error.Dynamic() ==> Reaches(Err(y.error), rest)
  {
  }

  /**
   * Checker soundness: formatting arguments of the checked types reads a string that the checker
   * accepts to its end, or to the first field whose argument the checker does not know, and before
   * that fails only on the value of a dynamic width or precision, exactly if the references suit
   * the run time's numbering.
   */
  lemma {:induction false} CheckSound(r: Renderer, s: Text, p: nat, c: Context, next: int, auto: nat,
                                      infos: seq<ArgInfo>, args: seq<Arg>, dynamicNames: bool)
    requires p <= |s| && Describes(infos, args) && DistinctNames(args) && Knows(c, infos)
    requires AtAuto(c.next, auto) && AtAuto(next, auto)
    requires Check(s, p, c, infos, dynamicNames).Ok?
    ensures var fields, u := Shapes(s, p, infos, auto), KnownEnd(s, p, infos, auto);
      && RunOutcome(r, s, u, args, References(KnownPrefix(fields)), c.next, next, Run(r, s, p, args, next))
      && (!dynamicNames ==> u == |s| && KnownPrefix(fields) == fields)
    decreases |s| - p
  {
    hide FieldShape, RunField, CheckField, FieldRefs, Through, SimpleRefs, Describes, DistinctNames, Uses, Autos,
         Knows, RunOutcome, FieldOutcome, References, KnownPrefix, KnownEnd, Shapes, Run, Check;
    OutcomeHere(r, s, p, args, c.next, next);
    if p == |s| {
      AtEnd(s, p, infos, auto);
    } else {
      AtText(r, s, p, c, next, auto, infos, args, dynamicNames);
      if s[p] == '{' && s[p + 1] != '{' {
        AtField(r, s, p, c, next, auto, infos, args, dynamicNames);
        FieldSound(r, s, p + 1, c, next, auto, infos, args, dynamicNames);
        var x, f := CheckField(s, p + 1, c, infos, dynamicNames).value, FieldShape(s, p + 1, infos, auto);
        if f.Some? && f.value.0.known {
          var sh, auto' := f.value.0, auto + Autos(Uses(f.value.0));
          var y := RunField(r, s, p + 1, args, next);
          OutcomeNext(x, sh, y, c, next, auto, infos);
          var n := Through(next, FieldRefs(sh), false);
          var m := if n.Some? then n.value else -1;
          CheckSound(r, s, x.1, x.0, m, auto', infos, args, dynamicNames);
          KnownFirst(sh, Shapes(s, x.1, infos, auto'));
          OutcomeField(r, s, KnownEnd(s, x.1, infos, auto'), args, infos, sh,
                       KnownPrefix(Shapes(s, x.1, infos, auto')), x, c.next, next, y, Run(r, s, x.1, args, m));
        }
      } else {
        var q := TextEnd(s, p);
        CheckSound(r, s, q, c, next, auto, infos, args, dynamicNames);
        OutcomeText(r, s, KnownEnd(s, q, infos, auto), args, References(KnownPrefix(Shapes(s, q, infos, auto))),
                    c.next, next, [s[p]], Run(r, s, q, args, next));
      }
    }
  }

  lemma AtEnd(s: Text, p: nat, infos: seq<ArgInfo>, auto: nat)
    requires p == |s|
    ensures Shapes(s, p, infos, auto) == [] == KnownPrefix([]) && KnownEnd(s, p, infos, auto) == p
  {
  }

  /** Behind a character of text, or an escaped brace. */
  function TextEnd(s: Text, p: nat): nat
    requires p < |s|
  {
    if s[p] == '{' || s[p] == '}' then p + 2 else p + 1
  }

  /** Where no field begins all go on behind the text. */
  lemma AtText(r: Renderer, s: Text, p: nat, c: Context, next: int, auto: nat, infos: seq<ArgInfo>, args: seq<Arg>,
               dynamicNames: bool)
    requires p < |s| && Check(s, p, c, infos, dynamicNames).Ok?
    ensures s[p] == '{' ==> p + 1 < |s|
    ensures s[p] != '{' || s[p + 1] == '{' ==>
      var q := TextEnd(s, p);
      && q <= |s| && Check(s, q, c, infos, dynamicNames).Ok?
      && Run(r, s, p, args, next) == Prepend([s[p]], Run(r, s, q, args, next))
      && Shapes(s, p, infos, auto) == Shapes(s, q, infos, auto)
      && KnownEnd(s, p, infos, auto) == KnownEnd(s, q, infos, auto)
  {
    hide FieldShape, RunField, CheckField, Autos, Uses;
  }

  /** Where one begins it comes first. */
  lemma AtField(r: Renderer, s: Text, p: nat, c: Context, next: int, auto: nat, infos: seq<ArgInfo>, args: seq<Arg>,
                dynamicNames: bool)
    requires p + 1 < |s| && s[p] == '{' && s[p + 1] != '{' && Check(s, p, c, infos, dynamicNames).Ok?
    ensures var x := CheckField(s, p + 1, c, infos, dynamicNames);
      x.Ok? && Check(s, x.value.1, x.value.0, infos, dynamicNames).Ok?
    ensures var y := RunField(r, s, p + 1, args, next);
      Run(r, s, p, args, next)
        == if y.Err? then Err(y.error) else Prepend(y.value.0, Run(r, s, y.value.2, args, y.value.1))
    ensures var f, fields := FieldShape(s, p + 1, infos, auto), Shapes(s, p, infos, auto);
      if f.None? || !f.value.0.known then KnownEnd(s, p, infos, auto) == p && KnownPrefix(fields) == []
      else
        var (sh, q) := f.value;
        var auto' := auto + Autos(Uses(sh));
        && fields == [sh] + Shapes(s, q, infos, auto')
        && KnownEnd(s, p, infos, auto) == KnownEnd(s, q, infos, auto')
  {
    hide FieldShape, RunField, CheckField, Autos, Uses;
  }

  /** After a known field the numberings still go with the count, and the run time stands behind it. */
  lemma OutcomeNext(x: (Context, nat), sh: Shape, y: Result<(Text, int, nat)>, c: Context, next: int, auto: nat,
                    infos: seq<ArgInfo>)
    requires FieldOutcome(x, sh, y, c.next, next, infos) && AtAuto(c.next, auto) && AtAuto(next, auto)
      && Knows(c, infos)
    ensures var n, auto' := Through(next, FieldRefs(sh), false), auto + Autos(Uses(sh));
      && Knows(x.0, infos) && AtAuto(x.0.next, auto') && AtAuto(if n.Some? then n.value else -1, auto')
      && (y.Ok? ==> n == Some(y.value.1) && y.value.2 == x.1)
  {
    hide Through, FieldRefs, Uses, Autos;
    FieldAutos(c.next, sh, auto);
    RunAutos(next, sh, auto);
  }

  lemma NothingThrough(next: int, checker: bool)
    ensures Through(next, [], checker) == Some(next) && SimpleRefs([]) && References([]) == []
  {
  }

  lemma RunAutos(next: int, sh: Shape, auto: nat)
    requires AtAuto(next, auto)
    ensures var n := Through(next, FieldRefs(sh), false);
      n.Some? ==> AtAuto(n.value, auto + Autos(Uses(sh)))
  {
    ThroughField(next, sh);
    CountsAutos(next, Uses(sh), auto);
  }

  /** The first field's references, then the others. */
  lemma ThroughFirst(next: int, sh: Shape, rest: seq<Shape>, checker: bool)
    ensures Through(next, References([sh] + rest), checker)
         == var n := Through(next, FieldRefs(sh), checker);
            if n.None? then None else Through(n.value, References(rest), checker)
  {
    ReferencesSplit(sh, rest);
    ThroughConcat(next, FieldRefs(sh), References(rest), checker);
  }

  lemma ReferencesSplit(sh: Shape, rest: seq<Shape>)
    ensures References([sh] + rest) == FieldRefs(sh) + References(rest)
  {
    assert ([sh] + rest)[1..] == rest;
  }

  // ---- Completeness -----------------------------------------------------------------------------------

  /** Every named argument has its name as part of its type. */
  predicate AllStatic(infos: seq<ArgInfo>)
  {
    forall i :: 0 <= i < |infos| && infos[i].name.Some? ==> infos[i].isStatic
  }

  /** The checker knows all names, or leaves the others to the run time and finds where their fields end. */
  predicate Covered(fields: seq<Shape>, infos: seq<ArgInfo>, dynamicNames: bool)
  {
    if dynamicNames then forall i :: 0 <= i < |fields| ==> fields[i].known || fields[i].closed else AllStatic(infos)
  }

  lemma CoveredFirst(sh: Shape, rest: seq<Shape>, infos: seq<ArgInfo>, dynamicNames: bool)
    requires Covered([sh] + rest, infos, dynamicNames)
    ensures Covered(rest, infos, dynamicNames) && (dynamicNames || AllStatic(infos))
    ensures dynamicNames && !sh.known ==> sh.closed
  {
    var fields := [sh] + rest;
    assert fields[0] == sh && forall i :: 0 <= i < |rest| ==> fields[i + 1] == rest[i];
  }

  lemma {:induction false} InfoNamed(infos: seq<ArgInfo>, name: Text, i: nat)
    requires i <= |infos|
    ensures var r := FindInfo(infos, name, i);
      r.Some? ==> infos[r.value].name == Some(name)
    decreases |infos| - i
  {
    if i < |infos| {
      InfoNamed(infos, name, i + 1);
    }
  }

  /** Where the run time resolves a reference, the checker accepts it exactly if its numbering allows. */
  lemma RefComplete(s: Text, p: nat, c: Context, next: int, auto: nat, infos: seq<ArgInfo>, args: seq<Arg>,
                    dynamicNames: bool)
    requires p < |s| && Describes(infos, args) && DistinctNames(args) && Knows(c, infos)
    requires (next == -1 || next == c.next) && AtAuto(next, auto) && (dynamicNames || AllStatic(infos))
    requires ParseFieldId(s, p, args, next).Ok? && 0 <= ParseFieldId(s, p, args, next).value.0 < |args|
    ensures var x, y := CheckFieldId(s, p, c, infos, dynamicNames), ParseFieldId(s, p, args, next).value;
      var f := FieldRef(s, p, infos, auto);
      && f.Some? && f.value.1 == y.0 && f.value.2 == y.2 && Count(next, f.value.0) == Some(y.1)
      && (x.Ok? <==> CheckCount(c.next, f.value.0).Some?)
      && (x.Ok? ==>
            && x.value.0 == (if Known(f.value.0, f.value.1, infos) then y.0 else -1) && x.value.2 == y.2
            && Knows(x.value.1, infos) && CheckCount(c.next, f.value.0) == Some(x.value.1.next)
            && (y.1 == -1 || y.1 == x.value.1.next)
            && (!Known(f.value.0, f.value.1, infos) ==> dynamicNames))
  {
    RefShaped(s, p, args, infos, next, auto);
    if s[p] != '}' && s[p] != ':' {
      var ref := ParseArgId(s, p);
      if ref.Ok? && ref.value.0.Name? {
        StaticIsFirst(infos, args, ref.value.0.name, 0);
        InfoIsArg(infos, args, ref.value.0.name, 0);
        InfoNamed(infos, ref.value.0.name, 0);
      }
    }
  }

  /** The same for specifiers of an argument the checker knows. */
  lemma SpecsComplete(r: Renderer, s: Text, q: nat, id: nat, c: Context, next: int, infos: seq<ArgInfo>, args: seq<Arg>,
                      y: (Text, int, nat))
    requires q < |s| && s[q] == ':' && id < |args| && Describes(infos, args) && Knows(c, infos)
    requires (next == -1 || next == c.next) && FinishField(r, s, q, args, id, next) == Ok(y)
    ensures var x, f := CheckSpecs(s, q + 1, c, id, infos), FreeSpecs(s, q + 1, infos[id].ty);
      && f.Some? && f.value.0.pos + 1 == y.2 && Counts(next, f.value.1) == Some(y.1)
      && (x.Ok? <==> Counts(c.next, f.value.1).Some?)
      && (x.Ok? ==>
            && x.value.1 + 1 == y.2 && Knows(x.value.0, infos)
            && Counts(c.next, f.value.1) == Some(x.value.0.next))
  {
    SameCount(infos, args);
    NativeSuits(r, s, q, id, c, next, infos, args);
    CountsLow(c.next, FreeSpecs(s, q + 1, infos[id].ty).value.1);
    hide ParseNative, ParseSpecs, FreeSpecs, Counts, FinishField;
  }

  /** And for those it skips. */
  lemma SkippedComplete(r: Renderer, s: Text, q: nat, id: nat, c: Context, next: int, infos: seq<ArgInfo>,
                        args: seq<Arg>, y: (Text, int, nat))
    requires q < |s| && s[q] == ':' && id < |args| && Describes(infos, args) && FillClosed(s, q + 1)
    requires FinishField(r, s, q, args, id, next) == Ok(y)
    ensures var f := FreeSpecs(s, q + 1, infos[id].ty);
      && f.Some? && f.value.0.pos + 1 == y.2 && Counts(next, f.value.1) == Some(y.1)
      && CheckSpecs(s, q + 1, c, -1, infos) == Ok((c, y.2 - 1))
  {
    hide ParseSpecs, ParseNative, FreeSpecs, Counts, SkipSpecs, FillClosed, FormatArg, Types;
    SpecsFree(s, q + 1, RuntimeContext(next), infos[id].ty);
    SkipEnds(s, q + 1, RuntimeContext(next), infos[id].ty);
    FinishSpecs(r, s, q, args, id, next);
    hide FinishField;
  }

  lemma BraceAfter(r: Renderer, s: Text, q: nat, args: seq<Arg>, id: nat, next: int)
    requires q < |s| && id < |args|
    ensures var y := FinishField(r, s, q, args, id, next);
      y.Ok? ==> q < y.value.2 && s[y.value.2 - 1] == '}'
  {
  }

  /** A field that formats is accepted exactly if its references suit the checker's numbering. */
  lemma FieldComplete(r: Renderer, s: Text, p: nat, c: Context, next: int, auto: nat, infos: seq<ArgInfo>,
                      args: seq<Arg>, dynamicNames: bool)
    requires p < |s| && Describes(infos, args) && DistinctNames(args) && Knows(c, infos)
    requires (next == -1 || next == c.next) && AtAuto(next, auto) && (dynamicNames || AllStatic(infos))
    requires RunField(r, s, p, args, next).Ok?
    requires var f := FieldShape(s, p, infos, auto); dynamicNames && f.Some? && !f.value.0.known ==> f.value.0.closed
    ensures var x, y := CheckField(s, p, c, infos, dynamicNames), RunField(r, s, p, args, next).value;
      var f := FieldShape(s, p, infos, auto);
      && f.Some? && f.value.1 == y.2 && Through(next, FieldRefs(f.value.0), false) == Some(y.1)
      && (x.Ok? <==> Through(c.next, FieldRefs(f.value.0), true).Some?)
      && (x.Ok? ==>
            && x.value.1 == y.2 && Knows(x.value.0, infos)
            && Through(c.next, FieldRefs(f.value.0), true) == Some(x.value.0.next))
  {
    hide FormatArg, ParseSpecs, ParseNative, FreeSpecs, CheckSpecs, CheckFieldId, ParseFieldId, FieldRef,
         FinishField, Describes, DistinctNames, FieldRefs, Through, Counts, Types, Known, Count, RunField, Knows,
         FieldShape, FillClosed, AllStatic;
    RunIs(r, s, p, args, next);
    SameCount(infos, args);
    var y, field := RunField(r, s, p, args, next).value, ParseFieldId(s, p, args, next).value;
    var id, q, m := field.0, field.2, field.1;
    FieldArg(r, s, q, id, m, infos, args);
    RefComplete(s, p, c, next, auto, infos, args, dynamicNames);
    FieldShaped(r, s, p, args, infos, next, auto);
    ShapeParts(s, p, infos, auto);
    var x, sh := CheckFieldId(s, p, c, infos, dynamicNames), FieldShape(s, p, infos, auto).value.0;
    ThroughField(c.next, sh);
    ThroughField(next, sh);
    BraceAfter(r, s, q, args, id, m);
    if x.Ok? {
      NoSizes(x.value.1.next);
      if s[q] != ':' {
        PlainField(r, s, q, args, id, m);
      } else if sh.known {
        SpecsComplete(r, s, q, id, x.value.1, m, infos, args, y);
      } else {
        SkippedComplete(r, s, q, id, x.value.1, m, infos, args, y);
      }
    }
  }

  /** On a string that formats the checker's verdict is up to the numbering alone. */
  lemma {:induction false} CheckComplete(r: Renderer, s: Text, p: nat, c: Context, next: int, auto: nat,
                                         infos: seq<ArgInfo>, args: seq<Arg>, dynamicNames: bool)
    requires p <= |s| && Describes(infos, args) && DistinctNames(args) && Knows(c, infos)
    requires (next == -1 || next == c.next) && AtAuto(next, auto)
    requires Covered(Shapes(s, p, infos, auto), infos, dynamicNames) && Run(r, s, p, args, next).Ok?
    ensures var refs := References(Shapes(s, p, infos, auto));
      && Through(next, refs, false).Some?
      && (Check(s, p, c, infos, dynamicNames).Ok? <==> Through(c.next, refs, true).Some?)
    decreases |s| - p
  {
    hide FieldShape, RunField, CheckField, FieldRefs, Through, References, Describes, DistinctNames, Uses, Autos,
         Knows, Covered, LastAutomatic;
    if p < |s| {
      if s[p] == '{' && s[p + 1] != '{' {
        FieldShaped(r, s, p + 1, args, infos, next, auto);
        CoveredField(s, p, infos, auto, dynamicNames);
        FieldComplete(r, s, p + 1, c, next, auto, infos, args, dynamicNames);
        var x, y := CheckField(s, p + 1, c, infos, dynamicNames), RunField(r, s, p + 1, args, next).value;
        var sh := FieldShape(s, p + 1, infos, auto).value.0;
        var auto' := auto + Autos(Uses(sh));
        RunAutos(next, sh, auto);
        ThroughFirst(c.next, sh, Shapes(s, y.2, infos, auto'), true);
        ThroughFirst(next, sh, Shapes(s, y.2, infos, auto'), false);
        ShapeParts(s, p + 1, infos, auto);
        InStepAfter(c, next, sh, infos);
        if x.Ok? {
          CheckComplete(r, s, y.2, x.value.0, y.1, auto', infos, args, dynamicNames);
        } else {
          LowAfter(next, sh, infos);
          CheckComplete(r, s, y.2, CheckContext(infos, y.1), y.1, auto', infos, args, dynamicNames);
        }
      } else if s[p] == '{' || s[p] == '}' {
        CheckComplete(r, s, p + 2, c, next, auto, infos, args, dynamicNames);
      } else {
        CheckComplete(r, s, p + 1, c, next, auto, infos, args, dynamicNames);
      }
    } else {
      NothingThrough(c.next, true);
      NothingThrough(next, false);
    }
  }

  lemma CoveredField(s: Text, p: nat, infos: seq<ArgInfo>, auto: nat, dynamicNames: bool)
    requires p + 1 < |s| && s[p] == '{' && s[p + 1] != '{'
    requires Covered(Shapes(s, p, infos, auto), infos, dynamicNames) && FieldShape(s, p + 1, infos, auto).Some?
    ensures var (sh, q) := FieldShape(s, p + 1, infos, auto).value;
      && Covered(Shapes(s, q, infos, auto + Autos(Uses(sh))), infos, dynamicNames)
      && (dynamicNames || AllStatic(infos)) && (dynamicNames && !sh.known ==> sh.closed)
  {
    hide FieldShape, AllStatic, Covered, Autos, Uses;
    var (sh, q) := FieldShape(s, p + 1, infos, auto).value;
    CoveredFirst(sh, Shapes(s, q, infos, auto + Autos(Uses(sh))), infos, dynamicNames);
  }

  /** After a field both numberings still agree, or the run time's is manual. */
  lemma InStepAfter(c: Context, next: int, sh: Shape, infos: seq<ArgInfo>)
    requires Knows(c, infos) && (next == -1 || next == c.next) && (sh.kind != ByName ==> sh.known)
    ensures var a, b := Through(c.next, FieldRefs(sh), true), Through(next, FieldRefs(sh), false);
      a.Some? && b.Some? ==> b.value == -1 || b.value == a.value
  {
    ThroughField(c.next, sh);
    ThroughField(next, sh);
    UsesCount(next, sh);
    var n := Count(next, sh.kind);
    if n.Some? {
      CountsAutos(n.value, sh.sizes, if n.value == -1 then 0 else n.value);
    }
  }

  lemma LowAfter(next: int, sh: Shape, infos: seq<ArgInfo>)
    requires next >= -1
    ensures var b := Through(next, FieldRefs(sh), false);
      b.Some? ==> Knows(CheckContext(infos, b.value), infos)
  {
    ThroughField(next, sh);
    CountsLow(next, Uses(sh));
  }

  // ---- The verdict --------------------------------------------------------------------------------------

  /** Only by a name can an argument be unknown. */
  predicate KnownShapes(fields: seq<Shape>)
  {
    forall i :: 0 <= i < |fields| ==> fields[i].kind != ByName ==> fields[i].known
  }

  predicate NoNames(fields: seq<Shape>)
  {
    forall i :: 0 <= i < |fields| ==> fields[i].kind != ByName
  }

  lemma ShapesPush(sh: Shape, rest: seq<Shape>)
    ensures KnownShapes(rest) && (sh.kind != ByName ==> sh.known) ==> KnownShapes([sh] + rest)
    ensures NoNames(rest) && sh.kind != ByName ==> NoNames([sh] + rest)
  {
  }

  /** Without named arguments no field is by name, in any string. */
  lemma {:induction false} ShapesKnown(s: Text, p: nat, infos: seq<ArgInfo>, auto: nat)
    requires p <= |s|
    ensures KnownShapes(Shapes(s, p, infos, auto)) && (Unnamed(infos) ==> NoNames(Shapes(s, p, infos, auto)))
    decreases |s| - p
  {
    hide FieldShape, FieldRef, Uses, Autos, Unnamed;
    if p < |s| {
      if s[p] == '{' && p + 1 < |s| && s[p + 1] != '{' {
        ShapeParts(s, p + 1, infos, auto);
        RefUnnamed(s, p + 1, infos, auto);
        var f := FieldShape(s, p + 1, infos, auto);
        if f.Some? {
          var auto' := auto + Autos(Uses(f.value.0));
          ShapesKnown(s, f.value.1, infos, auto');
          ShapesPush(f.value.0, Shapes(s, f.value.1, infos, auto'));
        }
      } else if s[p] == '{' || s[p] == '}' {
        if p + 1 < |s| {
          ShapesKnown(s, p + 2, infos, auto);
        }
      } else {
        ShapesKnown(s, p + 1, infos, auto);
      }
    }
  }

  lemma RefUnnamed(s: Text, p: nat, infos: seq<ArgInfo>, auto: nat)
    requires p < |s|
    ensures var f := FieldRef(s, p, infos, auto);
      Unnamed(infos) && f.Some? ==> f.value.0 != ByName
  {
    var ref := ParseArgId(s, p);
    if ref.Ok? && ref.value.0.Name? {
      InfoNamed(infos, ref.value.0.name, 0);
    }
  }

  lemma {:induction false} OrderlyReferences(fields: seq<Shape>)
    requires KnownShapes(fields)
    ensures Orderly(References(fields))
    decreases |fields|
  {
    if fields != [] {
      OrderlyReferences(fields[1..]);
      assert KnownShapes(fields[1..]);
      OrderlyField(fields[0], References(fields[1..]));
    }
  }

  lemma {:induction false} SizedFlags(sizes: seq<Use>, checked: bool)
    ensures forall i :: 0 <= i < |Sized(sizes, checked)| ==> Sized(sizes, checked)[i].checked == checked
  {
    if sizes != [] {
      SizedFlags(sizes[1..], checked);
    }
  }

  lemma OrderlyField(sh: Shape, rest: seq<Ref>)
    requires Orderly(rest) && (sh.kind != ByName ==> sh.known)
    ensures Orderly(FieldRefs(sh) + rest)
  {
    var a := FieldRefs(sh);
    var all := a + rest;
    SizedFlags(sh.sizes, sh.known);
    assert all[0] == Ref(sh.kind, sh.kind != ByName);
    forall i | 0 <= i < |all|
      ensures all[i].checked || all[i].kind == ByName || exists k :: 0 <= k < i && all[k].kind == ByName
    {
      if i >= |a| {
        assert all[i] == rest[i - |a|];
        if !rest[i - |a|].checked && rest[i - |a|].kind != ByName {
          var k :| 0 <= k < i - |a| && rest[k].kind == ByName;
          assert all[k + |a|].kind == ByName;
        }
      } else if i > 0 {
        assert all[i] == Sized(sh.sizes, sh.known)[i - 1];
        if !sh.known {
          assert all[0].kind == ByName;
        }
      }
    }
  }

  /** The run comes to u, or fails on a dynamic value before. */
  ghost predicate ReadsTo(r: Renderer, s: Text, u: nat, args: seq<Arg>, run: Result<Text>)
    requires u <= |s|
  {
    exists n: int :: Reaches(run, Run(r, s, u, args, n))
  }

  lemma ReadsAll(r: Renderer, s: Text, args: seq<Arg>, run: Result<Text>)
    requires ReadsTo(r, s, |s|, args, run)
    ensures Parsed(run)
  {
  }

  /**
   * What the checker's verdict is worth. An accepted string formats up to the first field whose
   * argument the checker does not know, or fails on the value of a dynamic width or precision
   * before, exactly if no automatic reference follows a field name there. A string that formats is
   * accepted exactly if no index follows an automatic reference with only field names between, as
   * long as the fills of the fields it does not know have their braces closed.
   */
  lemma CheckExactly(r: Renderer, s: Text, infos: seq<ArgInfo>, args: seq<Arg>)
    requires Describes(infos, args) && DistinctNames(args)
    ensures var fields, run := Shapes(s, 0, infos, 0), Format(r, s, args);
      forall dynamicNames :: var accepted := Check(s, 0, CheckContext(infos, 0), infos, dynamicNames).Ok?;
        && (accepted ==> if AutomaticAfterName(References(KnownPrefix(fields))) then run.Err?
                         else ReadsTo(r, s, KnownEnd(s, 0, infos, 0), args, run))
        && (accepted && !dynamicNames ==> if AutomaticAfterName(References(fields)) then run.Err? else Parsed(run))
        && (run.Ok? && Covered(fields, infos, dynamicNames) ==>
            (accepted <==> !IndexAfterAutomatic(References(fields))))
  {
    hide IndexAfterAutomatic, AutomaticAfterName, Check, Run, Shapes, References, ReadsTo, Covered, Describes,
         DistinctNames;
    forall dynamicNames: bool
      ensures var fields, run := Shapes(s, 0, infos, 0), Format(r, s, args);
        var accepted := Check(s, 0, CheckContext(infos, 0), infos, dynamicNames).Ok?;
        && (accepted ==> if AutomaticAfterName(References(KnownPrefix(fields))) then run.Err?
                         else ReadsTo(r, s, KnownEnd(s, 0, infos, 0), args, run))
        && (accepted && !dynamicNames ==> if AutomaticAfterName(References(fields)) then run.Err? else Parsed(run))
        && (run.Ok? && Covered(fields, infos, dynamicNames) ==>
            (accepted <==> !IndexAfterAutomatic(References(fields))))
    {
      if Check(s, 0, CheckContext(infos, 0), infos, dynamicNames).Ok? {
        AcceptedExactly(r, s, infos, args, dynamicNames);
      }
      if Format(r, s, args).Ok? && Covered(Shapes(s, 0, infos, 0), infos, dynamicNames) {
        FormattedExactly(r, s, infos, args, dynamicNames);
      }
    }
  }

  lemma AcceptedExactly(r: Renderer, s: Text, infos: seq<ArgInfo>, args: seq<Arg>, dynamicNames: bool)
    requires Describes(infos, args) && DistinctNames(args)
    requires Check(s, 0, CheckContext(infos, 0), infos, dynamicNames).Ok?
    ensures var fields, run, u := Shapes(s, 0, infos, 0), Format(r, s, args), KnownEnd(s, 0, infos, 0);
      && (if AutomaticAfterName(References(KnownPrefix(fields))) then run.Err? else ReadsTo(r, s, u, args, run))
      && (!dynamicNames ==> KnownPrefix(fields) == fields && (ReadsTo(r, s, u, args, run) ==> Parsed(run)))
  {
    hide AutomaticAfterName, HasFieldName, Faultless, Check, Run, Through, Shapes, References, KnownPrefix, KnownEnd,
         Describes, DistinctNames, Reaches, SimpleRefs;
    var refs := References(KnownPrefix(Shapes(s, 0, infos, 0)));
    CheckSound(r, s, 0, CheckContext(infos, 0), 0, 0, infos, args, dynamicNames);
    NameFault(refs);
    NothingNumbered();
    SimplyRun(refs);
    if !dynamicNames && ReadsTo(r, s, |s|, args, Format(r, s, args)) {
      ReadsAll(r, s, args, Format(r, s, args));
    }
  }

  lemma FormattedExactly(r: Renderer, s: Text, infos: seq<ArgInfo>, args: seq<Arg>, dynamicNames: bool)
    requires Describes(infos, args) && DistinctNames(args) && Format(r, s, args).Ok?
    requires Covered(Shapes(s, 0, infos, 0), infos, dynamicNames)
    ensures Check(s, 0, CheckContext(infos, 0), infos, dynamicNames).Ok?
       <==> !IndexAfterAutomatic(References(Shapes(s, 0, infos, 0)))
  {
    hide IndexAfterAutomatic, LastAutomatic, HasFieldName, Faultless, Check, Run, Through, Shapes, References,
         Covered, Orderly, Describes, DistinctNames;
    var fields := Shapes(s, 0, infos, 0);
    var refs := References(fields);
    ShapesKnown(s, 0, infos, 0);
    OrderlyReferences(fields);
    IndexFault(refs);
    NothingNumbered();
    CheckComplete(r, s, 0, CheckContext(infos, 0), 0, 0, infos, args, dynamicNames);
    CheckerThrough([], refs, 0, 0);
  }

  lemma NothingNumbered()
    ensures !LastAutomatic([]) && !HasFieldName([])
  {
  }

  lemma SimplyRun(refs: seq<Ref>)
    requires SimpleRefs(refs) && Through(0, refs, true).Some?
    ensures Through(0, refs, false).Some? <==> Faultless(false, [], refs)
  {
    RunThrough([], refs, 0);
  }

  predicate AllChecked(refs: seq<Ref>)
  {
    forall i :: 0 <= i < |refs| ==> refs[i].checked
  }

  lemma {:induction false} UnnamedReferences(fields: seq<Shape>)
    requires KnownShapes(fields) && NoNames(fields)
    ensures AllChecked(References(fields))
    decreases |fields|
  {
    if fields != [] {
      SizedFlags(fields[0].sizes, true);
      UnnamedReferences(fields[1..]);
    }
  }

  lemma {:induction false} SameThrough(next: int, refs: seq<Ref>)
    requires AllChecked(refs)
    ensures Through(next, refs, true) == Through(next, refs, false)
    decreases |refs|
  {
    if refs != [] {
      var c := Count(next, refs[0].kind);
      if c.Some? {
        SameThrough(c.value, refs[1..]);
      }
    }
  }

  // ---- How an accepted string can still fail ------------------------------------------------------------

  /**
   * The errors that lie in the value of a dynamic width or precision: it is negative or too large, it
   * is a bool or a char, or it is looked up by a name.
   */
  predicate OnValue(e: Error, infos: seq<ArgInfo>, byName: bool)
  {
    || e == DynamicOutOfRange
    || (e == DynamicNotInteger && exists i :: 0 <= i < |infos| && (infos[i].ty.BoolType? || infos[i].ty.CharType?))
    || (e == DynamicNotFound && byName)
  }

  lemma SizeFails(args: seq<Arg>, infos: seq<ArgInfo>, next: int, ref: ArgRef, value: int)
    requires Describes(infos, args) && Unnamed(infos) && GoodRef(CheckContext(infos, next), ref)
    ensures var out := ResolveDynamic(args, ref, value);
      out.Err? ==> OnValue(out.error, infos, ref.Name?)
  {
    if ref.Name? {
      NothingNamed(infos, args, ref.name, 0);
    } else if ref.Index? {
      assert Types(infos)[ref.id] == infos[ref.id].ty == args[ref.id].ty;
    }
  }

  lemma ArgFails(r: Renderer, args: seq<Arg>, infos: seq<ArgInfo>, next: int, arg: Arg, specs: Specs)
    requires Describes(infos, args) && Unnamed(infos) && GoodRefs(CheckContext(infos, next), specs)
    requires !(arg.ty.CharType? && !CharSpecsValid(specs))
    ensures var out := FormatArg(r, args, arg, specs);
      out.Err? ==> OnValue(out.error, infos, HasName(specs))
  {
    hide ResolveDynamic, CharSpecsValid, Describes, Unnamed, GoodRef;
    SizeFails(args, infos, next, specs.widthRef, specs.width);
    SizeFails(args, infos, next, specs.precisionRef, specs.precision);
  }

  /** Counting alike, checker and run time resolve the reference of a field to the same argument. */
  lemma IdsAgree(s: Text, p: nat, infos: seq<ArgInfo>, args: seq<Arg>, next: int)
    requires p < |s| && Describes(infos, args) && Unnamed(infos)
    ensures var x, y := CheckFieldId(s, p, CheckContext(infos, next), infos, false), ParseFieldId(s, p, args, next);
      x.Ok? ==> y == Ok((x.value.0, x.value.1.next, x.value.2)) && 0 <= x.value.0 < |args|
  {
    if s[p] != '}' && s[p] != ':' {
      IndexNotNegative(s, p);
    }
    hide ParseArgId;
  }

  /** The specifiers of a field are accepted: they are parsed alike, and what fails is a value. */
  lemma SpecsFail(r: Renderer, s: Text, q: nat, id: nat, next: int, infos: seq<ArgInfo>, args: seq<Arg>)
    requires q < |s| && s[q] == ':' && id < |infos| && Describes(infos, args) && Unnamed(infos)
    requires var x := CheckSpecs(s, q + 1, CheckContext(infos, next), id, infos);
      x.Ok? && x.value.1 < |s| && s[x.value.1] == '}'
    ensures var (c, end) := CheckSpecs(s, q + 1, CheckContext(infos, next), id, infos).value;
      var y, f := FinishField(r, s, q, args, id, next), FreeSpecs(s, q + 1, infos[id].ty);
      && f.Some? && f.value.0.pos == end && (y.Ok? ==> y.value.1 == c.next && y.value.2 == end + 1)
      && (y.Err? ==> OnValue(y.error, infos, ByName in f.value.1))
  {
    var c, t := CheckContext(infos, next), infos[id].ty;
    hide ParseSpecs, FreeSpecs, GoodRefs, FormatArg, CharSpecsValid, OnValue, HasName, Unnamed;
    NativeInStep(s, q + 1, c, RuntimeContext(next), t);
    NativeIsSpecs(s, q + 1, c, t);
    SpecsGood(s, q + 1, c, t);
    SpecsFree(s, q + 1, c, t);
    SpecsNames(s, q + 1, RuntimeContext(next), t);
    FinishSpecs(r, s, q, args, id, next);
    ArgFails(r, args, infos, next, args[id], ParseSpecs(s, q + 1, RuntimeContext(next), t).value.specs);
  }

  /** A field that is accepted outputs something, numbered alike, or fails on a value. */
  lemma FieldFails(r: Renderer, s: Text, p: nat, next: int, auto: nat, infos: seq<ArgInfo>, args: seq<Arg>)
    requires p < |s| && Describes(infos, args) && Unnamed(infos) && AtAuto(next, auto)
    requires CheckField(s, p, CheckContext(infos, next), infos, false).Ok?
    ensures var (c, end) := CheckField(s, p, CheckContext(infos, next), infos, false).value;
      var y, f := RunField(r, s, p, args, next), FieldShape(s, p, infos, auto);
      && f.Some? && f.value.1 == end && (y.Ok? ==> y.value.1 == c.next && y.value.2 == end)
      && (y.Err? ==> OnValue(y.error, infos, ByName in f.value.0.sizes))
  {
    hide CheckSpecs, CheckFieldId, ParseFieldId, FinishField, FieldRef, FreeSpecs, OnValue, Unnamed, CheckContext,
         FillClosed, FieldShape, Known;
    IdsAgree(s, p, infos, args, next);
    RefShaped(s, p, args, infos, next, auto);
    RunIs(r, s, p, args, next);
    ShapeIs(s, p, infos, auto);
    var (id, c, q) := CheckFieldId(s, p, CheckContext(infos, next), infos, false).value;
    if s[q] == '}' {
      PlainFinish(r, s, q, args, id, c.next);
    } else {
      KeptContext(infos, next, c);
      SpecsFail(r, s, q, id, c.next, infos, args);
    }
  }

  lemma PlainFinish(r: Renderer, s: Text, q: nat, args: seq<Arg>, id: nat, next: int)
    requires q < |s| && s[q] == '}' && id < |args|
    ensures FinishField(r, s, q, args, id, next) == Ok((r.plain(args[id]), next, q + 1))
  {
  }

  lemma KeptContext(infos: seq<ArgInfo>, next: int, c: Context)
    requires Kept(CheckContext(infos, next), c)
    ensures c == CheckContext(infos, c.next)
  {
  }

  /** Some field has a size by name. */
  predicate SizedByName(fields: seq<Shape>)
  {
    exists i :: 0 <= i < |fields| && ByName in fields[i].sizes
  }

  /** Without named arguments, what an accepted string can still fail on. */
  lemma {:induction false} AcceptedFails(r: Renderer, s: Text, p: nat, next: int, auto: nat, infos: seq<ArgInfo>,
                                         args: seq<Arg>)
    requires p <= |s| && Describes(infos, args) && Unnamed(infos) && AtAuto(next, auto)
    requires Check(s, p, CheckContext(infos, next), infos, false).Ok?
    ensures var run := Run(r, s, p, args, next);
      run.Err? ==> OnValue(run.error, infos, SizedByName(Shapes(s, p, infos, auto)))
    decreases |s| - p
  {
    hide CheckField, FieldShape, RunField, OnValue, Describes, Unnamed, SizedByName, CheckContext;
    if p < |s| {
      if s[p] == '{' && s[p + 1] != '{' {
        AcceptedField(r, s, p, next, auto, infos, args);
      } else {
        AcceptedFails(r, s, if s[p] == '{' || s[p] == '}' then p + 2 else p + 1, next, auto, infos, args);
      }
    }
  }

  lemma {:induction false} AcceptedField(r: Renderer, s: Text, p: nat, next: int, auto: nat, infos: seq<ArgInfo>,
                                         args: seq<Arg>)
    requires p + 1 < |s| && s[p] == '{' && s[p + 1] != '{'
    requires Describes(infos, args) && Unnamed(infos) && AtAuto(next, auto)
    requires Check(s, p, CheckContext(infos, next), infos, false).Ok?
    ensures var run := Run(r, s, p, args, next);
      run.Err? ==> OnValue(run.error, infos, SizedByName(Shapes(s, p, infos, auto)))
    decreases |s| - p, 0
  {
    hide CheckField, FieldShape, RunField, OnValue, Describes, Unnamed, SizedByName, CheckContext, Uses;
    FieldFails(r, s, p + 1, next, auto, infos, args);
    var (c, end) := CheckField(s, p + 1, CheckContext(infos, next), infos, false).value;
    var y, sh := RunField(r, s, p + 1, args, next), FieldShape(s, p + 1, infos, auto).value.0;
    var more := auto + Autos(Uses(sh));
    KeptContext(infos, next, c);
    MoreNamed(sh, Shapes(s, end, infos, more), infos);
    if y.Ok? {
      FieldShaped(r, s, p + 1, args, infos, next, auto);
      CountsAutos(next, Uses(sh), auto);
      AcceptedFails(r, s, end, c.next, more, infos, args);
    }
  }

  lemma MoreNamed(sh: Shape, rest: seq<Shape>, infos: seq<ArgInfo>)
    ensures forall e: Error :: OnValue(e, infos, ByName in sh.sizes) || OnValue(e, infos, SizedByName(rest)) ==>
      OnValue(e, infos, SizedByName([sh] + rest))
  {
    var all := [sh] + rest;
    assert all[0] == sh && forall i :: 0 <= i < |rest| ==> all[i + 1] == rest[i];
  }

  /**
   * Without named arguments the checker is exact up to dynamic values: what formats is accepted,
   * and an accepted string formats, or fails on the value of a dynamic width or precision.
   */
  lemma PositionalExact(r: Renderer, s: Text, infos: seq<ArgInfo>, args: seq<Arg>)
    requires Describes(infos, args) && Unnamed(infos)
    ensures var accepted, run := Check(s, 0, CheckContext(infos, 0), infos, false).Ok?, Format(r, s, args);
      && (run.Ok? ==> accepted)
      && (accepted && run.Err? ==> OnValue(run.error, infos, SizedByName(Shapes(s, 0, infos, 0))))
  {
    var c := CheckContext(infos, 0);
    ShapesKnown(s, 0, infos, 0);
    UnnamedReferences(Shapes(s, 0, infos, 0));
    SameThrough(0, References(Shapes(s, 0, infos, 0)));
    hide Check, Run, Shapes, References, Through, OnValue, SizedByName;
    if Format(r, s, args).Ok? {
      CheckComplete(r, s, 0, c, 0, 0, infos, args, false);
    }
    if Check(s, 0, c, infos, false).Ok? {
      AcceptedFails(r, s, 0, 0, 0, infos, args);
    }
  }

  /** With a named one it need not: the checker takes the index after {} and a name for a switch. */
  lemma MixedIncomplete(r: Renderer, a: Arg, b: Arg)
    requires a == Arg(IntType, 0, "", Some("a"), true) && b == Arg(IntType, 0, "", None, false)
    ensures var s, infos := "{}{a}{0}", [ArgInfo(IntType, Some("a"), true), ArgInfo(IntType, None, false)];
      && Describes(infos, [a, b]) && DistinctNames([a, b]) && AllStatic(infos)
      && Check(s, 0, CheckContext(infos, 0), infos, false) == Err(AutomaticToManual)
      && Format(r, s, [a, b]).Ok?
  {
    var s, infos := "{}{a}{0}", [ArgInfo(IntType, Some("a"), true), ArgInfo(IntType, None, false)];
    assert s[3..4] == "a";
    assert NameEnd(s, 4) == 4;
    assert ParseArgId(s, 3) == Ok((Name("a"), 4));
    assert ParseArgId(s, 6) == Ok((Index(0), 7));
    assert ParseFieldId(s, 3, [a, b], 1) == Ok((0, -1, 4));
    assert RunField(r, s, 1, [a, b], 0) == Ok((r.plain(a), 1, 2));
    assert RunField(r, s, 3, [a, b], 1) == Ok((r.plain(a), -1, 5));
    assert RunField(r, s, 6, [a, b], -1) == Ok((r.plain(a), -1, 8));
    assert Run(r, s, 8, [a, b], -1).Ok?;
    assert Run(r, s, 5, [a, b], -1).Ok?;
    assert Run(r, s, 2, [a, b], 1).Ok?;
    var c := CheckContext(infos, 1);
    assert CheckField(s, 1, CheckContext(infos, 0), infos, false) == Ok((c, 2));
    assert CheckField(s, 3, c, infos, false) == Ok((c, 5));
    assert CheckField(s, 6, c, infos, false) == Err(AutomaticToManual);
    assert Check(s, 5, c, infos, false) == Err(AutomaticToManual);
    assert Check(s, 2, c, infos, false) == Err(AutomaticToManual);
  }

  const MISREAD: Text := "{a:\U{C3}}<}"

  /** The parser takes the two units from 3 on for the fill. */
  lemma MisreadParsed(ctx: Context)
    ensures var x := ParseSpecs(MISREAD, 3, ctx, IntType);
      x.Ok? && x.value.pos == 6 && x.value.specs.widthRef == NoRef && x.value.specs.precisionRef == NoRef
        && x.value.ctx == ctx
  {
    var s, a := MISREAD, InitialParse(3, ctx);
    var q := a.(pos := 6, state := AlignState, specs := DefaultSpecs().(fill := s[3..5], align := Left));
    assert ParseFill(s, a) == Ok(More(q));
    hide ParseFill;
    assert ParseStep(s, a, s[3], IntType) == Ok(More(q));
    assert ParseStep(s, q, '}', IntType) == Ok(Done(q));
    hide ParseStep;
    assert ParseRest(s, q, IntType) == Ok(q);
  }

  lemma MisreadRun(r: Renderer, a: Arg)
    requires a == Arg(IntType, 0, "", Some("a"), false)
    ensures Format(r, MISREAD, [a]).Ok?
  {
    var s := MISREAD;
    assert s[1..2] == "a" && NameEnd(s, 2) == 2;
    assert ParseArgId(s, 1) == Ok((Name("a"), 2));
    assert ParseFieldId(s, 1, [a], 0) == Ok((0, -1, 2));
    MisreadParsed(RuntimeContext(-1));
    hide ParseSpecs, ParseFieldId;
    assert FinishField(r, s, 2, [a], 0, -1).Ok? && FinishField(r, s, 2, [a], 0, -1).value.2 == 7;
    hide FinishField;
    assert Run(r, s, 7, [a], -1).Ok?;
  }

  lemma MisreadChecked(infos: seq<ArgInfo>, c: Context)
    requires infos == [ArgInfo(IntType, Some("a"), false)]
    ensures Check(MISREAD, 0, c, infos, true) == Err(UnmatchedBrace)
  {
    var s := MISREAD;
    assert s[1..2] == "a" && NameEnd(s, 2) == 2;
    assert ParseArgId(s, 1) == Ok((Name("a"), 2));
    hide ParseArgId;
    assert CheckFieldId(s, 1, c, infos, true) == Ok((-1, c, 2));
    hide CheckFieldId;
    assert SkipSpecs(s, 3, 0) == 4;
    assert CheckField(s, 1, c, infos, true) == Ok((c, 5));
    hide CheckField;
    assert Check(s, 6, c, infos, true) == Err(UnmatchedBrace);
    assert Check(s, 5, c, infos, true) == Err(UnmatchedBrace);
  }

  /** Two units taken as one character hide a brace from the parser, but not from the checker that skips them. */
  lemma FillMisread(r: Renderer, a: Arg)
    requires a == Arg(IntType, 0, "", Some("a"), false)
    ensures var s, infos := "{a:\U{C3}}<}", [ArgInfo(IntType, Some("a"), false)];
      && Describes(infos, [a]) && DistinctNames([a])
      && Check(s, 0, CheckContext(infos, 0), infos, true) == Err(UnmatchedBrace)
      && Format(r, s, [a]).Ok?
  {
    var infos := [ArgInfo(IntType, Some("a"), false)];
    hide Check, Format;
    MisreadRun(r, a);
    MisreadChecked(infos, CheckContext(infos, 0));
  }

  /** Nor need it be sound: the checker lets an automatic index follow a name. */
  lemma MixedUnsound(r: Renderer, a: Arg, b: Arg)
    requires a == Arg(IntType, 0, "", Some("a"), true) && b == Arg(IntType, 0, "", None, false)
    ensures var s, infos := "{a}{}", [ArgInfo(IntType, Some("a"), true), ArgInfo(IntType, None, false)];
      && Describes(infos, [a, b]) && DistinctNames([a, b])
      && Check(s, 0, CheckContext(infos, 0), infos, false).Ok?
      && Format(r, s, [a, b]) == Err(ManualToAutomatic)
  {
    var s, infos := "{a}{}", [ArgInfo(IntType, Some("a"), true), ArgInfo(IntType, None, false)];
    assert s[1..2] == "a";
    assert NameEnd(s, 2) == 2;
    assert ParseArgId(s, 1) == Ok((Name("a"), 2));
    hide NameEnd, ParseArgId;
    assert ParseFieldId(s, 1, [a, b], 0) == Ok((0, -1, 2));
    assert FinishField(r, s, 2, [a, b], 0, -1) == Ok((r.plain(a), -1, 3));
    assert RunField(r, s, 4, [a, b], -1) == Err(ManualToAutomatic);
    hide RunField;
    assert Run(r, s, 3, [a, b], -1) == Err(ManualToAutomatic);
    assert RunField(r, s, 1, [a, b], 0) == Ok((r.plain(a), -1, 3)) by {
      RunIs(r, s, 1, [a, b], 0);
    }
    assert CheckField(s, 4, CheckContext(infos, 0), infos, false) == Ok((CheckContext(infos, 1), 5));
    assert CheckField(s, 1, CheckContext(infos, 0), infos, false) == Ok((CheckContext(infos, 0), 3));
    hide CheckField;
    assert Check(s, 3, CheckContext(infos, 0), infos, false).Ok?;
  }
}
