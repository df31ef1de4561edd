/** Recursive dependency detection: a depth-first search that marks symbols with the flags
    SYMBOL_CHECK (on the current path) and SYMBOL_CHECKED (seen)
    (nemu/tools/kconfig/symbol.c:1130-1211 and 1250-1279, parser.y:514-519). */
module KconfigDeps {
  import opened Options
  import opened KconfigExpr
  import KconfigMenu

  datatype PropKind = Prompt | Default | Choice | Select | Imply | Range | Other

  datatype Property = Property(kind: PropKind, visible: Option<Expr>, expr: Option<Expr>)

  datatype SymbolInfo = SymbolInfo(dirDep: Option<Expr>, revDep: Option<Expr>, implied: Option<Expr>,
                                   props: seq<Property>)

  const NO_INFO := SymbolInfo(None, None, None, [])

  type Infos = map<Symbol, SymbolInfo>

  function InfoOf(infos: Infos, s: Symbol): SymbolInfo {
    if s in infos then infos[s] else NO_INFO
  }

  // ----- the dependency graph -----

  function Mentions(e: Expr): set<Symbol> {
    match e
    case Sym(s) => {s}
    case Not(a) => Mentions(a)
    case And(l, r) => Mentions(l) + Mentions(r)
    case Or(l, r) => Mentions(l) + Mentions(r)
    case Cmp(_, a, b) => {a, b}
  }

  function MentionsOpt(e: Option<Expr>): set<Symbol> {
    if e.None? then {} else Mentions(e.value)
  }

  /** Select, imply and choice properties are not followed; only defaults have their value followed. */
  function PropMentions(p: Property): set<Symbol> {
    if p.kind == Choice || p.kind == Select || p.kind == Imply then {}
    else MentionsOpt(p.visible) + if p.kind == Default then MentionsOpt(p.expr) else {}
  }

  function AllPropMentions(ps: seq<Property>): set<Symbol> {
    if ps == [] then {} else AllPropMentions(ps[..|ps| - 1]) + PropMentions(ps[|ps| - 1])
  }

  /** The symbols that the value of s depends on. */
  function Deps(infos: Infos, s: Symbol): set<Symbol> {
    var i := InfoOf(infos, s);
    DirectMentions(i) + AllPropMentions(i.props)
  }

  function DirectMentions(i: SymbolInfo): set<Symbol> {
    MentionsOpt(i.dirDep) + MentionsOpt(i.revDep) + MentionsOpt(i.implied)
  }

  /** Two environments give a symbol the same setting. */
  predicate AgreeOn(s: Symbol, env1: Env, env2: Env) {
    (s in env1 <==> s in env2) && (s in env1 ==> env1[s] == env2[s])
  }

  /** The value of an expression depends on the symbols it mentions and on no others. */
  lemma {:induction false} ValueOfMentions(e: Expr, env1: Env, env2: Env)
    requires forall s :: s in Mentions(e) ==> AgreeOn(s, env1, env2)
    ensures Value(e, env1) == Value(e, env2)
  {
    match e
    case Sym(s) => assert AgreeOn(s, env1, env2);
    case Not(a) => ValueOfMentions(a, env1, env2);
    case And(l, r) => ValueOfMentions(l, env1, env2); ValueOfMentions(r, env1, env2);
    case Or(l, r) => ValueOfMentions(l, env1, env2); ValueOfMentions(r, env1, env2);
    case Cmp(_, a, b) => AgreedText(a, env1, env2); AgreedText(b, env1, env2);
  }

  lemma AgreedText(s: Symbol, env1: Env, env2: Env)
    requires AgreeOn(s, env1, env2)
    ensures TextOf(s, env1) == TextOf(s, env2)
  {}

  /** They are the symbols that expr_contains_symbol finds. */
  lemma {:induction false} MentionsExactly(e: Expr, s: Symbol)
    ensures s in Mentions(e) <==> KconfigMenu.ContainsSymbol(e, s)
  {
    match e
    case Not(a) => MentionsExactly(a, s);
    case And(l, r) => MentionsExactly(l, s); MentionsExactly(r, s);
    case Or(l, r) => MentionsExactly(l, s); MentionsExactly(r, s);
    case _ =>
  }

  ghost predicate Mentioned(e: Option<Expr>, t: Symbol) { e.Some? && KconfigMenu.ContainsSymbol(e.value, t) }

  /** A property makes its symbol depend on t: through its condition, or through a default's value. */
  ghost predicate DependsThrough(p: Property, t: Symbol) {
    match p.kind
    case Select | Imply | Choice => false
    case Default => Mentioned(p.visible, t) || Mentioned(p.expr, t)
    case _ => Mentioned(p.visible, t)
  }

  lemma {:induction false} PropsExactly(ps: seq<Property>, t: Symbol)
    ensures t in AllPropMentions(ps) <==> exists k :: 0 <= k < |ps| && DependsThrough(ps[k], t)
  {
    if ps != [] {
      var p, rest := ps[|ps| - 1], ps[..|ps| - 1];
      PropsExactly(rest, t);
      if p.visible.Some? { MentionsExactly(p.visible.value, t); }
      if p.expr.Some? { MentionsExactly(p.expr.value, t); }
      assert t in PropMentions(p) <==> DependsThrough(p, t);
      if t in AllPropMentions(rest) {
        var k :| 0 <= k < |rest| && DependsThrough(rest[k], t);
        assert ps[k] == rest[k];
      }
      if exists k :: 0 <= k < |ps| && DependsThrough(ps[k], t) {
        var k :| 0 <= k < |ps| && DependsThrough(ps[k], t);
        if k < |rest| { assert rest[k] == ps[k]; }
      }
    }
  }

  /** The edges of the graph, field by field. */
  lemma DepsExactly(infos: Infos, s: Symbol, t: Symbol)
    ensures t in Deps(infos, s) <==>
            && s in infos
            && (|| Mentioned(infos[s].dirDep, t) || Mentioned(infos[s].revDep, t) || Mentioned(infos[s].implied, t)
                || exists k :: 0 <= k < |infos[s].props| && DependsThrough(infos[s].props[k], t))
  {
    var i := InfoOf(infos, s);
    PropsExactly(i.props, t);
    if i.dirDep.Some? { MentionsExactly(i.dirDep.value, t); }
    if i.revDep.Some? { MentionsExactly(i.revDep.value, t); }
    if i.implied.Some? { MentionsExactly(i.implied.value, t); }
  }

  /** A depends on B = C, and C depends on A: the right side of a comparison closes the cycle. */
  lemma ComparisonCloses(infos: Infos, a: Symbol, b: Symbol, c: Symbol)
    requires a in infos && infos[a].dirDep == Some(Cmp(Equal, b, c))
    requires c in infos && infos[c].dirDep == Some(Sym(a))
    ensures OnCycle(infos, a)
  {
    DepsExactly(infos, a, c);
    DepsExactly(infos, c, a);
    var p := [a, c, a];
    assert IsChain(infos, p[..1]);
    assert IsChain(infos, p[..2]) by { assert p[..2][..1] == p[..1]; }
    assert IsChain(infos, p);
  }

  /** Each symbol of the sequence depends on the next. */
  predicate IsChain(infos: Infos, p: seq<Symbol>) {
    |p| <= 1 || (p[|p| - 1] in Deps(infos, p[|p| - 2]) && IsChain(infos, p[..|p| - 1]))
  }

  /** s depends on itself through at least one step. */
  ghost predicate OnCycle(infos: Infos, s: Symbol) {
    exists p: seq<Symbol> :: |p| >= 2 && p[0] == s && p[|p| - 1] == s && IsChain(infos, p)
  }

  // ----- finishing orders -----

  function Elems(order: seq<Symbol>): set<Symbol> {
    if order == [] then {} else Elems(order[..|order| - 1]) + {order[|order| - 1]}
  }

  /** Every symbol comes after all the symbols it depends on. */
  predicate Ordered(infos: Infos, order: seq<Symbol>) {
    order == [] || (Ordered(infos, order[..|order| - 1])
                    && Deps(infos, order[|order| - 1]) <= Elems(order[..|order| - 1]))
  }

  lemma AppendOrdered(infos: Infos, order: seq<Symbol>, s: Symbol)
    requires Ordered(infos, order) && Deps(infos, s) <= Elems(order)
    ensures Ordered(infos, order + [s]) && Elems(order + [s]) == Elems(order) + {s}
  {
    assert (order + [s])[..|order|] == order;
  }

  lemma AppendOrderedIf(b: bool, infos: Infos, order: seq<Symbol>, s: Symbol)
    requires Ordered(infos, order) && (b ==> Deps(infos, s) <= Elems(order))
    ensures b ==> Ordered(infos, order + [s]) && Elems(order + [s]) == Elems(order) + {s}
  {
    if b { AppendOrdered(infos, order, s); }
  }

  lemma {:induction false} OrderedIsClosed(infos: Infos, order: seq<Symbol>, s: Symbol)
    requires Ordered(infos, order) && s in Elems(order)
    ensures Deps(infos, s) <= Elems(order)
  {
    if s != order[|order| - 1] { OrderedIsClosed(infos, order[..|order| - 1], s); }
  }

  /** A chain that starts inside an order stays inside. */
  lemma {:induction false} ChainStays(infos: Infos, order: seq<Symbol>, p: seq<Symbol>)
    requires Ordered(infos, order) && IsChain(infos, p) && |p| > 0 && p[0] in Elems(order)
    ensures p[|p| - 1] in Elems(order)
  {
    if |p| > 1 {
      ChainStays(infos, order, p[..|p| - 1]);
      OrderedIsClosed(infos, order, p[|p| - 2]);
    }
  }

  /** Nothing in such an order lies on a cycle. */
  lemma {:induction false} OrderedIsAcyclic(infos: Infos, order: seq<Symbol>, s: Symbol)
    requires Ordered(infos, order) && s in Elems(order)
    ensures !OnCycle(infos, s)
  {
    var rest := order[..|order| - 1];
    if s in Elems(rest) {
      OrderedIsAcyclic(infos, rest, s);
    } else {
      LastIsAcyclic(infos, rest, s);
    }
  }

  /** A symbol whose dependencies are all ordered before it. */
  lemma LastIsAcyclic(infos: Infos, rest: seq<Symbol>, s: Symbol)
    requires Ordered(infos, rest) && s !in Elems(rest) && Deps(infos, s) <= Elems(rest)
    ensures !OnCycle(infos, s)
  {
    if OnCycle(infos, s) {
      var p: seq<Symbol> :| |p| >= 2 && p[0] == s && p[|p| - 1] == s && IsChain(infos, p);
      ChainSuffix(infos, p, 1);
      FirstStep(infos, p);
      ChainStays(infos, rest, p[1..]);
    }
  }

  lemma {:induction false} FirstStep(infos: Infos, p: seq<Symbol>)
    requires IsChain(infos, p) && |p| >= 2
    ensures p[1] in Deps(infos, p[0])
  {
    if |p| > 2 { FirstStep(infos, p[..|p| - 1]); }
  }

  lemma {:induction false} ChainSuffix(infos: Infos, p: seq<Symbol>, k: nat)
    requires IsChain(infos, p) && k < |p|
    ensures IsChain(infos, p[k..])
  {
    if k < |p| - 1 {
      ChainSuffix(infos, p[..|p| - 1], k);
      assert p[k..][..|p[k..]| - 1] == p[..|p| - 1][k..];
    }
  }

  lemma PushPath(infos: Infos, path: seq<Symbol>, s: Symbol)
    requires IsChain(infos, path) && (path != [] ==> s in Deps(infos, path[|path| - 1]))
    ensures IsChain(infos, path + [s])
  {
    assert (path + [s])[..|path|] == path;
  }

  lemma PopPath(infos: Infos, path: seq<Symbol>, check: set<Symbol>, s: Symbol)
    requires IsChain(infos, path + [s]) && s !in check && forall x :: x in check + {s} ==> x in path + [s]
    ensures IsChain(infos, path) && forall x :: x in check ==> x in path
  {
    assert (path + [s])[..|path|] == path;
    forall x | x in check ensures x in path {
      assert x in check + {s};
    }
  }

  /** The last stretch of a path, closed by an edge back to its start, is a cycle. */
  lemma PathClosesCycle(infos: Infos, path: seq<Symbol>, s: Symbol)
    requires IsChain(infos, path) && s in path && s in Deps(infos, path[|path| - 1])
    ensures OnCycle(infos, s)
  {
    var k :| 0 <= k < |path| && path[k] == s;
    var q := path[k..];
    ChainSuffix(infos, path, k);
    assert q[|q| - 1] == path[|path| - 1];
    PushPath(infos, q, s);
    ClosedChain(infos, q + [s]);
  }

  lemma ClosedChain(infos: Infos, p: seq<Symbol>)
    requires |p| >= 2 && p[0] == p[|p| - 1] && IsChain(infos, p)
    ensures OnCycle(infos, p[0])
  {}

  lemma {:induction false} PropIsMentioned(ps: seq<Property>, k: nat)
    requires k < |ps|
    ensures PropMentions(ps[k]) <= AllPropMentions(ps)
  {
    if k < |ps| - 1 { PropIsMentioned(ps[..|ps| - 1], k); }
  }

  lemma {:induction false} AllMentioned(ps: seq<Property>, x: set<Symbol>)
    ensures (forall j :: 0 <= j < |ps| ==> PropMentions(ps[j]) <= x) ==> AllPropMentions(ps) <= x
  {
    if ps != [] && forall j :: 0 <= j < |ps| ==> PropMentions(ps[j]) <= x {
      AllMentioned(ps[..|ps| - 1], x);
      assert PropMentions(ps[|ps| - 1]) <= x;
    }
  }

  lemma OneLessUnseen(universe: set<Symbol>, checked: set<Symbol>, s: Symbol)
    requires s !in checked && s in universe
    ensures |universe - (checked + {s})| == |universe - checked| - 1
  {
    assert universe - (checked + {s}) == universe - checked - {s};
  }

  lemma FinishSets(check: set<Symbol>, checked: set<Symbol>, s: Symbol)
    requires s !in check && s in checked
    ensures check + {s} - {s} == check
    ensures checked - check == checked - (check + {s}) + {s}
  {}

  // ----- the search -----

  /** The universe holds every symbol that some symbol depends on. */
  ghost predicate Closed(infos: Infos, universe: set<Symbol>) {
    forall s :: s in infos ==> Deps(infos, s) <= universe
  }

  lemma DepsInUniverse(infos: Infos, universe: set<Symbol>, s: Symbol)
    requires Closed(infos, universe)
    ensures Deps(infos, s) <= universe
  {}

  /** Flagged symbols are on the path, the path is a chain of dependencies, and until a cycle is found,
      the finished symbols are ordered by their dependencies. */
  ghost predicate InvariantHolds(infos: Infos, path: seq<Symbol>, order: seq<Symbol>, check: set<Symbol>,
      checked: set<Symbol>, found: bool) {
    && (forall s :: s in check ==> s in path)
    && check <= checked
    && IsChain(infos, path)
    && Ordered(infos, order)
    && (!found ==> Elems(order) == checked - check)
  }

  /** InvariantHolds, folded: most methods pass it on without looking inside. */
  ghost predicate Invariant(infos: Infos, path: seq<Symbol>, order: seq<Symbol>, check: set<Symbol>,
      checked: set<Symbol>, found: bool) {
    FoldedInvariant(infos, path, order, check, checked, found, 1)
  }

  ghost predicate FoldedInvariant(infos: Infos, path: seq<Symbol>, order: seq<Symbol>, check: set<Symbol>,
      checked: set<Symbol>, found: bool, folds: nat)
    decreases folds, path
  {
    if folds > 0 then FoldedInvariant(infos, path, order, check, checked, found, folds - 1)
    else InvariantHolds(infos, path, order, check, checked, found)
  }

  lemma InvariantIs(infos: Infos, path: seq<Symbol>, order: seq<Symbol>, check: set<Symbol>, checked: set<Symbol>,
      found: bool)
    ensures Invariant(infos, path, order, check, checked, found)
            <==> InvariantHolds(infos, path, order, check, checked, found)
  {
    assert FoldedInvariant(infos, path, order, check, checked, found, 1)
        == FoldedInvariant(infos, path, order, check, checked, found, 0);
  }

  /** A dependency on a flagged symbol is a cycle. */
  lemma FlagClosesCycle(infos: Infos, path: seq<Symbol>, order: seq<Symbol>, check: set<Symbol>,
      checked: set<Symbol>, found: bool, s: Symbol)
    requires Invariant(infos, path, order, check, checked, found) && s in check
    requires path != [] ==> s in Deps(infos, path[|path| - 1])
    ensures OnCycle(infos, s) && Invariant(infos, path, order, check, checked, true)
  {
    InvariantIs(infos, path, order, check, checked, found);
    InvariantIs(infos, path, order, check, checked, true);
    PathClosesCycle(infos, path, s);
  }

  lemma EnterInvariant(infos: Infos, path: seq<Symbol>, order: seq<Symbol>, check: set<Symbol>, checked: set<Symbol>,
      found: bool, s: Symbol)
    requires Invariant(infos, path, order, check, checked, found) && s !in checked
    requires path != [] ==> s in Deps(infos, path[|path| - 1])
    ensures Invariant(infos, path + [s], order, check + {s}, checked + {s}, found)
  {
    InvariantIs(infos, path, order, check, checked, found);
    InvariantIs(infos, path + [s], order, check + {s}, checked + {s}, found);
    PushPath(infos, path, s);
    assert (checked + {s}) - (check + {s}) == checked - check;
  }

  lemma LeaveInvariant(infos: Infos, path: seq<Symbol>, order: seq<Symbol>, check: set<Symbol>, checked: set<Symbol>,
      found: bool, s: Symbol)
    requires Invariant(infos, path + [s], order, check + {s}, checked, found) && s !in check
    requires !found ==> Deps(infos, s) <= checked - (check + {s})
    ensures Invariant(infos, path, if found then order else order + [s], check, checked, found)
    ensures s in checked
  {
    InvariantIs(infos, path + [s], order, check + {s}, checked, found);
    InvariantIs(infos, path, if found then order else order + [s], check, checked, found);
    PopPath(infos, path, check, s);
    FinishSets(check, checked, s);
    AppendOrderedIf(!found, infos, order, s);
  }

  class DepChecker {
    const infos: Infos
    /** All symbols in play, closed under dependencies. */
    ghost const universe: set<Symbol>

    /** Symbols carrying SYMBOL_CHECK, and SYMBOL_CHECKED. */
    var check: set<Symbol>
    var checked: set<Symbol>
    /** The chain of dep_stack entries below check_top. */
    var stack: seq<Symbol>

    /** The symbols being checked, outermost first; the finished symbols in the order in which they
        finished; and whether a cycle has been found. */
    ghost var path: seq<Symbol>
    ghost var order: seq<Symbol>
    ghost var found: bool

    ghost predicate Valid()
      reads this
    {
      Invariant(infos, path, order, check, checked, found)
    }

    constructor (infos: Infos, ghost universe: set<Symbol>)
      requires Closed(infos, universe)
      ensures Valid() && this.infos == infos && this.universe == universe && Closed(this.infos, this.universe)
      ensures path == [] && stack == [] && !found && checked == {}
    {
      this.infos := infos;
      this.universe := universe;
      check, checked, stack, path, order, found := {}, {}, [], [], [], false;
      InvariantIs(infos, [], [], {}, {}, false);
    }

    /** How many symbols have not been reached yet. */
    ghost function Unseen(): nat
      reads this
    {
      |universe - checked|
    }

    /** What every call leaves alone, what it may add, and what an answer means. */
    ghost predicate Advanced(path0: seq<Symbol>, stack0: seq<Symbol>, check0: set<Symbol>,
                             checked0: set<Symbol>, found0: bool, r: Option<Symbol>)
      reads this
    {
      && path == path0 && stack == stack0 && check == check0
      && checked >= checked0
      && found == (found0 || r.Some?)
      && (r.Some? ==> OnCycle(infos, r.value))
    }

    /** sym_check_deps: a symbol already on the path closes a cycle. */
    method CheckDeps(s: Symbol, ghost left: nat) returns (r: Option<Symbol>)
      requires Closed(infos, universe) && Valid() && Unseen() <= left && s in universe && stack == path
      requires path != [] ==> s in Deps(infos, path[|path| - 1])
      modifies this
      ensures Valid() && Unseen() <= left && Advanced(old(path), old(stack), old(check), old(checked), old(found), r)
      ensures !found ==> s in checked - check
      decreases left, 1, 0
    {
      if s in check {
        FlagClosesCycle(infos, path, order, check, checked, found, s);
        found := true;
        return Some(s);
      }
      if s in checked { return None; }
      r := CheckFresh(s, left);
    }

    /** A symbol seen for the first time is flagged while its dependencies are followed. */
    method CheckFresh(s: Symbol, ghost left: nat) returns (r: Option<Symbol>)
      requires Closed(infos, universe) && Valid() && Unseen() <= left && s in universe && stack == path
               && s !in checked && s !in check
      requires path != [] ==> s in Deps(infos, path[|path| - 1])
      modifies this
      ensures Valid() && Unseen() <= left && Advanced(old(path), old(stack), old(check), old(checked), old(found), r)
      ensures !found ==> s in checked - check
      decreases left, 0
    {
      Enter(s);
      r := CheckSymDeps(s, left - 1);
      Leave(s, old(path), old(check));
    }

    /** flags |= SYMBOL_CHECK | SYMBOL_CHECKED. */
    method Enter(s: Symbol)
      requires Valid() && s in universe && s !in checked
      requires path != [] ==> s in Deps(infos, path[|path| - 1])
      modifies `check, `checked, `path
      ensures Valid() && path == old(path) + [s]
      ensures check == old(check) + {s} && checked == old(checked) + {s}
      ensures Unseen() == old(Unseen()) - 1
    {
      EnterInvariant(infos, path, order, check, checked, found, s);
      OneLessUnseen(universe, checked, s);
      check, checked := check + {s}, checked + {s};
      path := path + [s];
    }

    /** flags &= ~SYMBOL_CHECK. */
    method Leave(s: Symbol, ghost path0: seq<Symbol>, ghost check0: set<Symbol>)
      requires Valid() && path == path0 + [s] && check == check0 + {s} && s !in check0
      requires !found ==> Deps(infos, s) <= checked - check
      modifies `check, `path, `order
      ensures Valid() && path == path0 && check == check0
      ensures !found ==> s in checked - check
    {
      LeaveInvariant(infos, path0, order, check0, checked, found, s);
      check := check - {s};
      assert check == check0;
      path := path0;
      if !found { order := order + [s]; }
    }

    /** sym_check_sym_deps: follow every dependency of a symbol just put on the path. */
    method CheckSymDeps(s: Symbol, ghost left: nat) returns (r: Option<Symbol>)
      requires Closed(infos, universe) && Valid() && Unseen() <= left && s in universe && path == stack + [s]
      modifies this
      ensures Valid() && Unseen() <= left && Advanced(old(path), old(stack), old(check), old(checked), old(found), r)
      ensures !found ==> Deps(infos, s) <= checked - check
      decreases left, 5, 0
    {
      stack := stack + [s];
      DepsInUniverse(infos, universe, s);
      var i := InfoOf(infos, s);
      r := CheckDirectDeps(i, left);
      if r.None? { r := CheckPropDeps(i.props, left); }
      stack := stack[..|stack| - 1];
    }

    /** Direct, reverse and implied dependencies, in this order. */
    method CheckDirectDeps(i: SymbolInfo, ghost left: nat) returns (r: Option<Symbol>)
      requires Closed(infos, universe) && Valid() && Unseen() <= left && stack == path && path != []
      requires DirectMentions(i) <= Deps(infos, path[|path| - 1]) && DirectMentions(i) <= universe
      modifies this
      ensures Valid() && Unseen() <= left && Advanced(old(path), old(stack), old(check), old(checked), old(found), r)
      ensures !found ==> DirectMentions(i) <= checked - check
      decreases left, 4, 1
    {
      r := CheckBoth(i.dirDep, i.revDep, left);
      if r.None? { r := CheckOptDeps(i.implied, left); }
    }

    method CheckBoth(a: Option<Expr>, b: Option<Expr>, ghost left: nat) returns (r: Option<Symbol>)
      requires Closed(infos, universe) && Valid() && Unseen() <= left && stack == path && path != []
      requires MentionsOpt(a) + MentionsOpt(b) <= Deps(infos, path[|path| - 1])
      requires MentionsOpt(a) + MentionsOpt(b) <= universe
      modifies this
      ensures Valid() && Unseen() <= left && Advanced(old(path), old(stack), old(check), old(checked), old(found), r)
      ensures !found ==> MentionsOpt(a) + MentionsOpt(b) <= checked - check
      decreases left, 4, 0
    {
      r := CheckOptDeps(a, left);
      if r.None? { r := CheckOptDeps(b, left); }
    }

    /** The loop of sym_check_sym_deps over the properties. */
    method CheckPropDeps(props: seq<Property>, ghost left: nat) returns (r: Option<Symbol>)
      requires Closed(infos, universe) && Valid() && Unseen() <= left && stack == path && path != []
      requires AllPropMentions(props) <= Deps(infos, path[|path| - 1]) && AllPropMentions(props) <= universe
      modifies this
      ensures Valid() && Unseen() <= left && Advanced(old(path), old(stack), old(check), old(checked), old(found), r)
      ensures !found ==> AllPropMentions(props) <= checked - check
      decreases left, 4, 0
    {
      r := None;
      ghost var path0, stack0, check0, checked0, found0 := path, stack, check, checked, found;
      for k := 0 to |props|
        invariant Valid() && Unseen() <= left && Advanced(path0, stack0, check0, checked0, found0, None)
        invariant !found ==> forall j :: 0 <= j < k ==> PropMentions(props[j]) <= checked - check
      {
        PropIsMentioned(props, k);
        r := CheckProperty(props[k], left);
        if r.Some? { return; }
      }
      AllMentioned(props, checked - check);
      return None;
    }

    /** One property: its condition, and its value if it is a default. */
    method CheckProperty(p: Property, ghost left: nat) returns (r: Option<Symbol>)
      requires Closed(infos, universe) && Valid() && Unseen() <= left && stack == path && path != []
      requires PropMentions(p) <= Deps(infos, path[|path| - 1]) && PropMentions(p) <= universe
      modifies this
      ensures Valid() && Unseen() <= left && Advanced(old(path), old(stack), old(check), old(checked), old(found), r)
      ensures !found ==> PropMentions(p) <= checked - check
      decreases left, 3, 2, 0
    {
      if p.kind == Choice || p.kind == Select || p.kind == Imply { return None; }
      r := CheckOptDeps(p.visible, left);
      if r.None? && p.kind == Default { r := CheckOptDeps(p.expr, left); }
    }

    method CheckOptDeps(e: Option<Expr>, ghost left: nat) returns (r: Option<Symbol>)
      requires Closed(infos, universe) && Valid() && Unseen() <= left && stack == path && path != []
      requires MentionsOpt(e) <= Deps(infos, path[|path| - 1]) && MentionsOpt(e) <= universe
      modifies this
      ensures Valid() && Unseen() <= left && Advanced(old(path), old(stack), old(check), old(checked), old(found), r)
      ensures !found ==> MentionsOpt(e) <= checked - check
      decreases left, 3, 1, 0
    {
      if e.None? { return None; }
      r := CheckExprDeps(e.value, left);
    }

    /** sym_check_expr_deps. */
    method CheckExprDeps(e: Expr, ghost left: nat) returns (r: Option<Symbol>)
      requires Closed(infos, universe) && Valid() && Unseen() <= left && stack == path && path != []
      requires Mentions(e) <= Deps(infos, path[|path| - 1]) && Mentions(e) <= universe
      modifies this
      ensures Valid() && Unseen() <= left && Advanced(old(path), old(stack), old(check), old(checked), old(found), r)
      ensures !found ==> Mentions(e) <= checked - check
      decreases left, 3, 0, Size(e)
    {
      match e
      case And(l, rr) => r := CheckOperands(l, rr, left);
      case Or(l, rr) => r := CheckOperands(l, rr, left);
      case Not(a) => r := CheckExprDeps(a, left);
      case Cmp(_, a, b) =>
        r := CheckDeps(a, left);
        if r.None? { r := CheckDeps(b, left); }
      case Sym(s) => r := CheckDeps(s, left);
    }

    /** The two operands of && or ||, the second only if the first reports nothing. */
    method CheckOperands(l: Expr, rr: Expr, ghost left: nat) returns (r: Option<Symbol>)
      requires Closed(infos, universe) && Valid() && Unseen() <= left && stack == path && path != []
      requires Mentions(l) + Mentions(rr) <= Deps(infos, path[|path| - 1])
      requires Mentions(l) + Mentions(rr) <= universe
      modifies this
      ensures Valid() && Unseen() <= left && Advanced(old(path), old(stack), old(check), old(checked), old(found), r)
      ensures !found ==> Mentions(l) + Mentions(rr) <= checked - check
      decreases left, 3, 0, Size(l) + Size(rr)
    {
      r := CheckExprDeps(l, left);
      if r.None? { r := CheckExprDeps(rr, left); }
    }

    /** The loop over all symbols at the end of conf_parse: there is an error exactly when some
        symbol depends on itself. */
    method CheckAll(symbols: seq<Symbol>) returns (errors: nat)
      requires Closed(infos, universe) && Valid() && path == [] && stack == [] && !found && checked == {}
      requires forall s :: s in infos ==> s in symbols
      requires forall s :: s in symbols ==> s in universe
      modifies this
      ensures errors == 0 <==> forall s :: !OnCycle(infos, s)
    {
      errors := 0;
      InvariantIs(infos, path, order, check, checked, found);
      for k := 0 to |symbols|
        invariant Valid() && path == [] && stack == [] && check == {}
        invariant errors == 0 <==> !found
        invariant found ==> exists s :: OnCycle(infos, s)
        invariant !found ==> forall i :: 0 <= i < k ==> symbols[i] in checked - check
      {
        var r := CheckDeps(symbols[k], Unseen());
        if r.Some? { errors := errors + 1; }
      }
      InvariantIs(infos, path, order, check, checked, found);
      if !found {
        forall s ensures !OnCycle(infos, s) {
          if s in infos { OrderedIsAcyclic(infos, order, s); } else { NoDepsNoCycle(infos, s); }
        }
      }
    }
  }

  lemma NoDepsNoCycle(infos: Infos, s: Symbol)
    requires s !in infos
    ensures !OnCycle(infos, s)
  {
    if OnCycle(infos, s) {
      var p: seq<Symbol> :| |p| >= 2 && p[0] == s && p[|p| - 1] == s && IsChain(infos, p);
      FirstStep(infos, p);
    }
  }
}
