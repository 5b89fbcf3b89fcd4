/** Expanding a usage pattern into alternatives without nesting. */
module Docopt {

  datatype Pattern =
    | Leaf(name: string)
    | Required(children: seq<Pattern>)
    | Optional(children: seq<Pattern>)
    | OptionsShortcut(children: seq<Pattern>)
    | Either(children: seq<Pattern>)
    | OneOrMore(children: seq<Pattern>)

  /** An alternative: its leaves in any order. */
  type Case = multiset<Pattern>

  // ---- The disjunctive normal form --------------------------------------------------------------------

  /** a added to each case. */
  function Shift(a: Case, b: seq<Case>): (r: seq<Case>)
    ensures |r| == |b| && forall i :: 0 <= i < |b| ==> r[i] == a + b[i]
  {
    seq(|b|, i requires 0 <= i < |b| => a + b[i])
  }

  /** Every case of a with every case of b. */
  function Times(a: seq<Case>, b: seq<Case>): seq<Case>
  {
    if a == [] then [] else Shift(a[0], b) + Times(a[1..], b)
  }

  /** The alternatives a pattern stands for. */
  function Alternatives(p: Pattern): seq<Case>
    decreases p
  {
    match p
    case Leaf(_) => [multiset{p}]
    case Required(cs) => All(cs)
    case Optional(cs) => All(cs)
    case OptionsShortcut(cs) => All(cs)
    case Either(cs) => Any(cs)
    case OneOrMore(cs) => Times(All(cs), All(cs))
  }

  /** One alternative of each pattern. */
  function All(ps: seq<Pattern>): seq<Case>
    decreases ps
  {
    if ps == [] then [multiset{}] else Times(Alternatives(ps[0]), All(ps[1..]))
  }

  /** An alternative of one of the patterns. */
  function Any(ps: seq<Pattern>): seq<Case>
    decreases ps
  {
    if ps == [] then [] else Alternatives(ps[0]) + Any(ps[1..])
  }

  // ---- Its algebra --------------------------------------------------------------------------------

  lemma Concat(a: seq<Case>, b: seq<Case>, c: seq<Case>)
    ensures a + (b + c) == (a + b) + c
  {
  }

  lemma ShiftTwice(x: Case, y: Case, b: seq<Case>)
    ensures Shift(x, Shift(y, b)) == Shift(x + y, b)
    ensures Shift(x, Shift(y, b)) == Shift(y, Shift(x, b))
    ensures Shift(multiset{}, b) == b
  {
    forall i | 0 <= i < |b|
      ensures Shift(x, Shift(y, b))[i] == Shift(x + y, b)[i] == Shift(y, Shift(x, b))[i]
      ensures Shift(multiset{}, b)[i] == b[i]
    {
      assert x + (y + b[i]) == (x + y) + b[i] == y + (x + b[i]);
      assert multiset{} + b[i] == b[i];
    }
  }

  lemma {:induction false} TimesSum(a: seq<Case>, b: seq<Case>, c: seq<Case>)
    ensures Times(a + b, c) == Times(a, c) + Times(b, c)
  {
    if a == [] {
      assert a + b == b;
      assert [] + Times(b, c) == Times(b, c);
    } else {
      TimesSum(a[1..], b, c);
      assert (a + b)[1..] == a[1..] + b && (a + b)[0] == a[0];
      Concat(Shift(a[0], c), Times(a[1..], c), Times(b, c));
    }
  }

  lemma {:induction false} ShiftTimes(x: Case, a: seq<Case>, b: seq<Case>)
    ensures Shift(x, Times(a, b)) == Times(Shift(x, a), b)
    ensures Shift(x, Times(a, b)) == Times(a, Shift(x, b))
  {
    if a != [] {
      ShiftTimes(x, a[1..], b);
      assert Shift(x, a)[1..] == Shift(x, a[1..]);
      ShiftTwice(x, a[0], b);
      assert Shift(x, Shift(a[0], b) + Times(a[1..], b)) == Shift(x, Shift(a[0], b)) + Shift(x, Times(a[1..], b));
    }
  }

  lemma {:induction false} TimesAssociative(a: seq<Case>, b: seq<Case>, c: seq<Case>)
    ensures Times(Times(a, b), c) == Times(a, Times(b, c))
  {
    if a != [] {
      TimesAssociative(a[1..], b, c);
      TimesSum(Shift(a[0], b), Times(a[1..], b), c);
      ShiftTimes(a[0], b, c);
    }
  }

  lemma {:induction false} AllAppend(ps: seq<Pattern>, qs: seq<Pattern>)
    ensures All(ps + qs) == Times(All(ps), All(qs))
  {
    if ps == [] {
      assert ps + qs == qs;
      assert Times([multiset{}], All(qs)) == Shift(multiset{}, All(qs)) + [];
      ShiftTwice(multiset{}, multiset{}, All(qs));
    } else {
      AllAppend(ps[1..], qs);
      assert (ps + qs)[1..] == ps[1..] + qs;
      TimesAssociative(Alternatives(ps[0]), All(ps[1..]), All(qs));
    }
  }

  lemma Without(b: seq<Case>, j: nat)
    requires j < |b|
    ensures multiset(b) == multiset{b[j]} + multiset(b[..j] + b[j + 1..])
  {
    assert b == b[..j] + [b[j]] + b[j + 1..];
  }

  /** The place of a[0] in another order of a, and what is left without it. */
  lemma SameRest(a: seq<Case>, b: seq<Case>) returns (j: nat)
    requires a != [] && multiset(a) == multiset(b)
    ensures j < |b| && b[j] == a[0] && multiset(a[1..]) == multiset(b[..j] + b[j + 1..])
  {
    assert a[0] in multiset(b);
    j :| 0 <= j < |b| && b[j] == a[0];
    Without(b, j);
    assert a == [a[0]] + a[1..];
    Cancel(a[0], multiset(a[1..]), multiset(b[..j] + b[j + 1..]));
  }

  lemma Cancel(x: Case, a: multiset<Case>, b: multiset<Case>)
    requires multiset{x} + a == multiset{x} + b
    ensures a == b
  {
    assert a == (multiset{x} + a) - multiset{x};
    assert b == (multiset{x} + b) - multiset{x};
  }

  /** The same cases in another order stay so when each is extended. */
  lemma {:induction false} ShiftSame(x: Case, a: seq<Case>, b: seq<Case>)
    requires multiset(a) == multiset(b)
    ensures multiset(Shift(x, a)) == multiset(Shift(x, b))
  {
    if a == [] {
      assert |multiset(b)| == 0;
    } else {
      var j := SameRest(a, b);
      var rest := b[..j] + b[j + 1..];
      ShiftSame(x, a[1..], rest);
      assert Shift(x, a) == [x + a[0]] + Shift(x, a[1..]);
      Without(Shift(x, b), j);
      assert Shift(x, b)[..j] + Shift(x, b)[j + 1..] == Shift(x, rest);
    }
  }

  lemma {:induction false} TimesSame(a: seq<Case>, b: seq<Case>, c: seq<Case>)
    requires multiset(b) == multiset(c)
    ensures multiset(Times(a, b)) == multiset(Times(a, c))
  {
    if a != [] {
      ShiftSame(a[0], b, c);
      TimesSame(a[1..], b, c);
    }
  }

  lemma {:induction false} TimesSumRight(a: seq<Case>, b: seq<Case>, c: seq<Case>)
    ensures multiset(Times(a, b + c)) == multiset(Times(a, b)) + multiset(Times(a, c))
  {
    if a != [] {
      TimesSumRight(a[1..], b, c);
      assert Shift(a[0], b + c) == Shift(a[0], b) + Shift(a[0], c);
    }
  }

  lemma {:induction false} TimesNone(a: seq<Case>)
    ensures Times(a, []) == []
  {
    if a != [] {
      TimesNone(a[1..]);
    }
  }

  lemma {:induction false} TimesSwap(a: seq<Case>, b: seq<Case>, c: seq<Case>)
    ensures multiset(Times(a, Times(b, c))) == multiset(Times(b, Times(a, c)))
  {
    if a == [] {
      TimesNone(b);
    } else {
      TimesSwap(a[1..], b, c);
      ShiftTimes(a[0], b, c);
      TimesSumRight(b, Shift(a[0], c), Times(a[1..], c));
    }
  }

  lemma AllHead(p: Pattern, ps: seq<Pattern>)
    ensures All([p] + ps) == Times(Alternatives(p), All(ps))
  {
    assert ([p] + ps)[1..] == ps;
  }

  /** The order of a group does not matter. */
  lemma {:induction false} AllMoved(before: seq<Pattern>, p: Pattern, after: seq<Pattern>)
    ensures multiset(All(before + [p] + after)) == multiset(All([p] + (before + after)))
  {
    hide All;
    if before == [] {
      assert before + [p] + after == [p] + (before + after);
    } else {
      var q, rest := before[0], before[1..];
      AllMoved(rest, p, after);
      FirstApart(before, p, after);
      FirstTwo(p, q, rest + [p] + after, rest + after);
    }
  }

  lemma FirstApart(before: seq<Pattern>, p: Pattern, after: seq<Pattern>)
    requires before != []
    ensures before + [p] + after == [before[0]] + (before[1..] + [p] + after)
    ensures before + after == [before[0]] + (before[1..] + after)
  {
    assert before == [before[0]] + before[1..];
  }

  lemma FirstTwo(p: Pattern, q: Pattern, moved: seq<Pattern>, rest: seq<Pattern>)
    requires multiset(All(moved)) == multiset(All([p] + rest))
    ensures multiset(All([q] + moved)) == multiset(All([p] + ([q] + rest)))
  {
    hide All, Alternatives;
    AllHead(q, moved);
    AllHead(p, rest);
    AllHead(q, rest);
    AllHead(p, [q] + rest);
    TimesSame(Alternatives(q), All(moved), All([p] + rest));
    TimesSwap(Alternatives(q), Alternatives(p), All(rest));
  }

  /** The leaves of a group are its only case. */
  lemma {:induction false} AllLeaves(ps: seq<Pattern>)
    requires forall p :: p in ps ==> p.Leaf?
    ensures All(ps) == [multiset(ps)]
  {
    if ps != [] {
      AllLeaves(ps[1..]);
      assert ps == [ps[0]] + ps[1..];
      assert Times([multiset{ps[0]}], [multiset(ps[1..])]) == Shift(multiset{ps[0]}, [multiset(ps[1..])]) + [];
    }
  }

  // ---- Termination ----------------------------------------------------------------------------------

  /** A weight that every expansion makes smaller. */
  function Weight(p: Pattern): (w: nat)
    ensures w >= 1
    decreases p
  {
    match p
    case Leaf(_) => 1
    case Required(cs) => 1 + Product(cs)
    case Optional(cs) => 1 + Product(cs)
    case OptionsShortcut(cs) => 1 + Product(cs)
    case Either(cs) => 1 + Sum(cs)
    case OneOrMore(cs) => 1 + Product(cs) * Product(cs)
  }

  function Product(ps: seq<Pattern>): (w: nat)
    ensures w >= 1
    decreases ps
  {
    if ps == [] then 1 else Weight(ps[0]) * Product(ps[1..])
  }

  function Sum(ps: seq<Pattern>): nat
    decreases ps
  {
    if ps == [] then 0 else Weight(ps[0]) + Sum(ps[1..])
  }

  lemma ProductHead(p: Pattern, ps: seq<Pattern>)
    ensures Product([p] + ps) == Weight(p) * Product(ps)
  {
    assert ([p] + ps)[1..] == ps;
  }

  lemma {:induction false} ProductMoved(before: seq<Pattern>, p: Pattern, after: seq<Pattern>)
    ensures Product(before + [p] + after) == Weight(p) * Product(before + after)
  {
    if before == [] {
      assert before + [p] + after == [p] + after && before + after == after;
      ProductHead(p, after);
    } else {
      var q, rest := before[0], before[1..];
      ProductMoved(rest, p, after);
      FirstApart(before, p, after);
      ProductHead(q, rest + [p] + after);
      ProductHead(q, rest + after);
      hide Product;
      Exchange(Weight(q), Weight(p), Product(rest + after));
    }
  }

  lemma Exchange(x: nat, y: nat, z: nat)
    ensures x * (y * z) == y * (x * z)
  {
  }

  lemma Associate(x: nat, y: nat, z: nat)
    ensures x * (y * z) == (x * y) * z
  {
  }

  lemma Distribute(x: nat, y: nat, z: nat)
    ensures (x + y) * z == x * z + y * z
  {
  }

  lemma {:induction false} ProductAppend(ps: seq<Pattern>, qs: seq<Pattern>)
    ensures Product(ps + qs) == Product(ps) * Product(qs)
  {
    if ps == [] {
      assert ps + qs == qs;
    } else {
      ProductAppend(ps[1..], qs);
      assert (ps + qs)[1..] == ps[1..] + qs && (ps + qs)[0] == ps[0];
      Associate(Weight(ps[0]), Product(ps[1..]), Product(qs));
    }
  }

  /** The weight of the groups still to be expanded. */
  function Load(groups: seq<seq<Pattern>>): nat
  {
    if groups == [] then 0 else Product(groups[0]) + Load(groups[1..])
  }

  // ---- The worklist -----------------------------------------------------------------------------------

  /** The cases of all groups. */
  function Cases(groups: seq<seq<Pattern>>): multiset<Case>
  {
    if groups == [] then multiset{} else multiset(All(groups[0])) + Cases(groups[1..])
  }

  lemma SumAssociate(a: multiset<Case>, b: multiset<Case>, c: multiset<Case>)
    ensures a + (b + c) == (a + b) + c
  {
  }

  predicate AllLeaf(ps: seq<Pattern>)
  {
    forall i :: 0 <= i < |ps| ==> ps[i].Leaf?
  }

  /** The first pattern that is no leaf. */
  function FirstParent(ps: seq<Pattern>): (i: nat)
    ensures i <= |ps| && AllLeaf(ps[..i]) && (i < |ps| ==> !ps[i].Leaf?)
  {
    if ps == [] || !ps[0].Leaf? then 0
    else
      assert ps[1..][..FirstParent(ps[1..])] == ps[1..1 + FirstParent(ps[1..])];
      1 + FirstParent(ps[1..])
  }

  /** What a group with a conjunction at its head stands for and weighs. */
  lemma JoinExpanded(p: Pattern, cs: seq<Pattern>, rest: seq<Pattern>)
    requires Alternatives(p) == All(cs) && Weight(p) == 1 + Product(cs)
    ensures All([p] + rest) == All(cs + rest)
    ensures Product(cs + rest) < Weight(p) * Product(rest)
  {
    AllAppend(cs, rest);
    assert ([p] + rest)[1..] == rest;
    ProductAppend(cs, rest);
    Smaller(Product(cs), Product(rest));
  }

  lemma Smaller(x: nat, y: nat)
    requires y >= 1
    ensures x * y < (1 + x) * y
  {
  }

  lemma RepeatExpanded(cs: seq<Pattern>, rest: seq<Pattern>)
    ensures All([OneOrMore(cs)] + rest) == All(cs + cs + rest)
    ensures Product(cs + cs + rest) < Weight(OneOrMore(cs)) * Product(rest)
  {
    AllAppend(cs + cs, rest);
    AllAppend(cs, cs);
    assert ([OneOrMore(cs)] + rest)[1..] == rest;
    ProductAppend(cs + cs, rest);
    ProductAppend(cs, cs);
    Smaller(Product(cs) * Product(cs), Product(rest));
  }

  /** The groups an Either is split into. */
  function Split(cs: seq<Pattern>, rest: seq<Pattern>): seq<seq<Pattern>>
  {
    if cs == [] then [] else [[cs[0]] + rest] + Split(cs[1..], rest)
  }

  lemma HeadOf(p: Pattern, rest: seq<Pattern>)
    ensures All([p] + rest) == Times(Alternatives(p), All(rest))
    ensures Product([p] + rest) == Weight(p) * Product(rest)
  {
    assert ([p] + rest)[1..] == rest;
  }

  lemma {:induction false} EitherCases(cs: seq<Pattern>, rest: seq<Pattern>)
    ensures Cases(Split(cs, rest)) == multiset(Times(Any(cs), All(rest)))
  {
    if cs != [] {
      EitherCases(cs[1..], rest);
      TimesSum(Alternatives(cs[0]), Any(cs[1..]), All(rest));
      HeadOf(cs[0], rest);
      assert Split(cs, rest)[1..] == Split(cs[1..], rest);
    }
  }

  lemma {:induction false} EitherLoad(cs: seq<Pattern>, rest: seq<Pattern>, weight: nat)
    requires weight == Product(rest)
    ensures Load(Split(cs, rest)) == Sum(cs) * weight
  {
    if cs != [] {
      var w, s := Weight(cs[0]), Sum(cs[1..]);
      EitherLoad(cs[1..], rest, weight);
      HeadOf(cs[0], rest);
      assert Split(cs, rest)[1..] == Split(cs[1..], rest);
      assert Load(Split(cs, rest)) == w * weight + s * weight;
      Distribute(w, s, weight);
      assert Sum(cs) == w + s;
    }
  }

  lemma EitherExpanded(cs: seq<Pattern>, rest: seq<Pattern>)
    ensures Cases(Split(cs, rest)) == multiset(All([Either(cs)] + rest))
    ensures Load(Split(cs, rest)) < Weight(Either(cs)) * Product(rest)
  {
    EitherCases(cs, rest);
    EitherLoad(cs, rest, Product(rest));
    HeadOf(Either(cs), rest);
    EitherOf(cs);
    assert Weight(Either(cs)) == 1 + Sum(cs);
    hide Weight;
    hide Product;
    Smaller(Sum(cs), Product(rest));
  }

  lemma CasesOf(groups: seq<seq<Pattern>>)
    ensures groups == [] ==> Cases(groups) == multiset{}
    ensures groups != [] ==> Cases(groups) == multiset(All(groups[0])) + Cases(groups[1..])
  {
  }

  lemma {:induction false} CasesAppended(groups: seq<seq<Pattern>>, more: seq<seq<Pattern>>)
    ensures Cases(groups + more) == Cases(groups) + Cases(more)
  {
    hide All;
    hide Cases;
    CasesOf(groups);
    if groups == [] {
      assert groups + more == more;
    } else {
      CasesAppended(groups[1..], more);
      CasesOf(groups + more);
      assert (groups + more)[1..] == groups[1..] + more && (groups + more)[0] == groups[0];
      SumAssociate(multiset(All(groups[0])), Cases(groups[1..]), Cases(more));
    }
  }

  lemma {:induction false} LoadAppended(groups: seq<seq<Pattern>>, more: seq<seq<Pattern>>)
    ensures Load(groups + more) == Load(groups) + Load(more)
  {
    hide Product;
    if groups == [] {
      assert groups + more == more;
    } else {
      LoadAppended(groups[1..], more);
      assert (groups + more)[1..] == groups[1..] + more && (groups + more)[0] == groups[0];
    }
  }

  /** The expansion of the group's first parent: the groups that replace it. */
  function Expand(child: Pattern, rest: seq<Pattern>): seq<seq<Pattern>>
    requires !child.Leaf?
  {
    if child.Either? then Split(child.children, rest)
    else if child.OneOrMore? then [child.children + child.children + rest]
    else [child.children + rest]
  }

  lemma Joins(p: Pattern)
    requires p.Required? || p.Optional? || p.OptionsShortcut?
    ensures Alternatives(p) == All(p.children) && Weight(p) == 1 + Product(p.children)
  {
  }

  lemma ExpandCorrect(children: seq<Pattern>, i: nat)
    requires i < |children| && !children[i].Leaf?
    ensures var gs := Expand(children[i], children[..i] + children[i + 1..]);
      Cases(gs) == multiset(All(children)) && Load(gs) < Product(children)
  {
    var p, rest := children[i], children[..i] + children[i + 1..];
    assert children == children[..i] + [p] + children[i + 1..];
    AllMoved(children[..i], p, children[i + 1..]);
    ProductMoved(children[..i], p, children[i + 1..]);
    hide Product;
    hide Weight;
    hide All;
    var cs := p.children;
    if p.Either? {
      EitherExpanded(cs, rest);
    } else if p.OneOrMore? {
      RepeatExpanded(cs, rest);
      OneGroup(cs + cs + rest);
    } else {
      Joins(p);
      JoinExpanded(p, cs, rest);
      OneGroup(cs + rest);
    }
  }

  lemma OneGroup(g: seq<Pattern>)
    ensures Cases([g]) == multiset(All(g)) && Load([g]) == Product(g)
  {
  }

  /** Nothing but an Either of Requireds of leaves. */
  predicate Flat(p: Pattern)
  {
    p.Either? && forall i :: 0 <= i < |p.children| ==> p.children[i].Required? && AllLeaf(p.children[i].children)
  }

  function Wrapped(groups: seq<seq<Pattern>>): seq<Pattern>
  {
    seq(|groups|, i requires 0 <= i < |groups| => Required(groups[i]))
  }

  lemma {:induction false} WrappedCases(groups: seq<seq<Pattern>>)
    ensures multiset(Any(Wrapped(groups))) == Cases(groups)
  {
    if groups != [] {
      WrappedCases(groups[1..]);
      assert Wrapped(groups)[1..] == Wrapped(groups[1..]);
    }
  }

  /**
   * What the documented examples stand for: ((-a | -b) (-c | -d)) for -a -c, -a -d, -b -c or -b -d,
   * [-a] for -a and -a... for -a -a.
   */
  lemma Examples(a: Pattern, b: Pattern, c: Pattern, d: Pattern)
    requires a.Leaf? && b.Leaf? && c.Leaf? && d.Leaf?
    ensures Alternatives(Required([Either([a, b]), Either([c, d])]))
         == [multiset{a, c}, multiset{a, d}, multiset{b, c}, multiset{b, d}]
    ensures Alternatives(Optional([a])) == [multiset{a}]
    ensures Alternatives(OneOrMore([a])) == [multiset{a, a}]
  {
    hide Any, All, Times;
    var e, f := Either([a, b]), Either([c, d]);
    TwoAlternatives(a, b);
    TwoAlternatives(c, d);
    AllOne(a);
    AllTwo(e, f);
    TimesSingle(multiset{a}, [multiset{a}]);
    TimesTwo(multiset{a}, multiset{b}, [multiset{c}, multiset{d}]);
    hide Shift, Alternatives;
    ShiftedLeaf(a, a);
    ShiftedLeaves(a, c, d);
    ShiftedLeaves(b, c, d);
  }

  lemma ShiftedLeaf(a: Pattern, c: Pattern)
    ensures Shift(multiset{a}, [multiset{c}]) == [multiset{a, c}]
  {
    assert multiset{a} + multiset{c} == multiset{a, c};
  }

  lemma ShiftedLeaves(a: Pattern, c: Pattern, d: Pattern)
    ensures Shift(multiset{a}, [multiset{c}, multiset{d}]) == [multiset{a, c}, multiset{a, d}]
  {
    assert multiset{a} + multiset{c} == multiset{a, c} && multiset{a} + multiset{d} == multiset{a, d};
  }

  lemma TimesSingle(x: Case, b: seq<Case>)
    ensures Times([x], b) == Shift(x, b)
  {
    assert [x][1..] == [] && Times([], b) == [];
    assert Shift(x, b) + [] == Shift(x, b);
  }

  lemma TimesTwo(x: Case, y: Case, b: seq<Case>)
    ensures Times([x, y], b) == Shift(x, b) + Shift(y, b)
  {
    assert [x, y][1..] == [y];
    TimesSingle(y, b);
  }

  lemma TwoAlternatives(a: Pattern, b: Pattern)
    requires a.Leaf? && b.Leaf?
    ensures Any([a, b]) == [multiset{a}, multiset{b}]
  {
    assert [a, b][1..] == [b] && [b][1..] == [];
    assert Any([b]) == Alternatives(b) + Any([]);
  }

  lemma AllOne(p: Pattern)
    ensures All([p]) == Alternatives(p)
  {
    assert [p][1..] == [] && All([]) == [multiset{}];
    hide Alternatives;
    TimesOne(Alternatives(p));
  }

  lemma AllTwo(p: Pattern, q: Pattern)
    ensures All([p, q]) == Times(Alternatives(p), Alternatives(q))
  {
    hide Alternatives, Times;
    assert [p, q][1..] == [q];
    AllOne(q);
  }

  /** transform: terminates, and preserves the alternatives. */
  method Transform(pattern: Pattern) returns (r: Pattern)
    ensures Flat(r)
    ensures multiset(Alternatives(r)) == multiset(Alternatives(pattern))
  {
    var result, groups: seq<seq<Pattern>> := [], [[pattern]];
    Single(pattern);
    hide All;
    hide Product;
    hide Alternatives;
    hide Split;
    hide Cases;
    CasesOf([]);
    while groups != []
      invariant Cases(result) + Cases(groups) == multiset(Alternatives(pattern))
      invariant forall i :: 0 <= i < |result| ==> AllLeaf(result[i])
      decreases Load(groups)
    {
      CasesOf(groups);
      var children := groups[0];
      groups := groups[1..];
      var i := FirstParent(children);
      if i < |children| {
        ExpandCorrect(children, i);
        var child, rest := children[i], children[..i] + children[i + 1..];
        CasesAppended(groups, Expand(child, rest));
        LoadAppended(groups, Expand(child, rest));
        if child.Either? {
          groups := PushEach(groups, child.children, rest);
        } else if child.OneOrMore? {
          groups := groups + [child.children + child.children + rest];
        } else {
          groups := groups + [child.children + rest];
        }
      } else {
        CasesAppended(result, [children]);
        OneGroup(children);
        assert children[..i] == children;
        result := result + [children];
      }
    }
    CasesOf(groups);
    WrappedCases(result);
    EitherOf(Wrapped(result));
    return Either(Wrapped(result));
  }

  lemma EitherOf(ps: seq<Pattern>)
    ensures Alternatives(Either(ps)) == Any(ps)
  {
  }

  /** One group for each alternative. */
  method PushEach(groups: seq<seq<Pattern>>, cs: seq<Pattern>, rest: seq<Pattern>) returns (r: seq<seq<Pattern>>)
    ensures r == groups + Split(cs, rest)
  {
    r := groups;
    var k := 0;
    assert cs[0..] == cs;
    while k < |cs|
      invariant 0 <= k <= |cs| && r + Split(cs[k..], rest) == groups + Split(cs, rest)
    {
      assert cs[k..][1..] == cs[k + 1..];
      r := r + [[cs[k]] + rest];
      k := k + 1;
    }
    assert Split(cs[k..], rest) == [];
  }

  lemma Single(p: Pattern)
    ensures Cases([[p]]) == multiset(Alternatives(p))
  {
    assert All([]) == [multiset{}];
    TimesOne(Alternatives(p));
    OneGroup([p]);
  }

  lemma {:induction false} TimesOne(a: seq<Case>)
    ensures Times(a, [multiset{}]) == a
  {
    if a != [] {
      TimesOne(a[1..]);
      assert a[0] + multiset{} == a[0];
      assert a == [a[0]] + a[1..];
    }
  }
}
