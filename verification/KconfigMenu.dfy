/** The dependency pipeline and the automatic submenus of menu_finalize
    (nemu/tools/kconfig/menu.c:347-406 and 456-491). */
module KconfigMenu {
  import opened Options
  import opened KconfigExpr
  import opened KconfigTransform
  import opened KconfigEq
  import opened KconfigDups
  import opened KconfigCompare

  function AllocAnd(e1: Option<Expr>, e2: Option<Expr>): Option<Expr> {
    if e1.None? then e2 else if e2.None? then e1 else Some(And(e1.value, e2.value))
  }

  function ConstantsOpt(e: Option<Expr>): set<(Symbol, Symbol)> {
    if e.None? then {} else Constants(e.value)
  }

  function RewriteMOpt(e: Option<Expr>, modules: Symbol): Option<Expr> {
    if e.None? then e else Some(RewriteM(e.value, modules))
  }

  predicate NotsOverSymbolsOpt(e: Option<Expr>) {
    e.None? || NotsOverSymbols(e.value)
  }

  // ----- constants survive the passes -----

  lemma {:induction false} RewriteMConstants(e: Expr, modules: Symbol)
    ensures Constants(RewriteM(e, modules)) == Constants(e)
  {
    match e
    case Not(a) => RewriteMConstants(a, modules);
    case And(l, r) => RewriteMConstants(l, modules); RewriteMConstants(r, modules);
    case Or(l, r) => RewriteMConstants(l, modules); RewriteMConstants(r, modules);
    case _ =>
  }

  lemma {:induction false} TransformConstants(e: Expr)
    ensures Constants(Transform(e)) <= Constants(e)
    decreases Weight(e)
  {
    match e
    case And(l, r) => TransformConstants(l); TransformConstants(r);
    case Or(l, r) => TransformConstants(l); TransformConstants(r);
    case Not(a) =>
      TransformConstants(a);
      match Transform(a) {
        case Not(x) => TransformConstants(x);
        case Or(l, r) =>
          PushingIsCheaper(l, r);
          TransformConstants(And(Not(l), Not(r)));
          assert Constants(And(Not(l), Not(r))) == Constants(Or(l, r));
        case And(l, r) =>
          PushingIsCheaper(l, r);
          TransformConstants(Or(Not(l), Not(r)));
          assert Constants(Or(Not(l), Not(r))) == Constants(And(l, r));
        case _ =>
      }
    case _ =>
  }

  lemma {:induction false} TransCompareConstants(e: Expr, eq: bool, c: Tristate)
    ensures Constants(TransCompare(e, eq, c)) <= Constants(e)
  {
    match e
    case Not(a) => TransCompareConstants(a, !eq, c);
    case And(l, r) => TransCompareConstants(l, true, c); TransCompareConstants(r, true, c);
    case Or(l, r) => TransCompareConstants(l, true, c); TransCompareConstants(r, true, c);
    case _ =>
  }

  lemma {:induction false} TransBoolNots(e: Expr)
    requires NotsOverSymbols(e)
    ensures NotsOverSymbols(TransBool(e))
  {
    match e
    case And(l, r) => TransBoolNots(l); TransBoolNots(r);
    case Or(l, r) => TransBoolNots(l); TransBoolNots(r);
    case _ =>
  }

  /** expr_eliminate_dups on a possibly absent expression. */
  method Deduplicate(e: Option<Expr>) returns (r: Option<Expr>)
    ensures r.None? <==> e.None?
    ensures e.Some? ==> Keeps(e.value, r.value) && Settled(r.value)
    ensures e.Some? ==> if Settled(e.value) then r == e else Size(r.value) < Size(e.value)
    ensures e.Some? && Clean(e.value) ==> Clean(r.value) && Distinct(r.value)
  {
    if e.None? { return None; }
    var rw := new Rewriter(e.value);
    rw.EliminateDups();
    r := Some(rw.root);
  }

  /** What the enclosing dependency and an entry's own one amount to together. */
  function Both(outer: Option<Expr>, dep: Option<Expr>, modules: Symbol, env: Env): Tristate {
    Combine(Conj, ValueOpt(outer, env), ValueOpt(RewriteMOpt(dep, modules), env))
  }

  /** rewrite_m, expr_transform, conjunction with the enclosing dependency, deduplication:
      the result is the conjunction of what went in, and NOT is left above symbols only. */
  method Propagate(outer: Option<Expr>, dep: Option<Expr>, modules: Symbol) returns (r: Option<Expr>)
    ensures forall env: Env :: Both(outer, dep, modules, env) <= ValueOpt(r, env)
    ensures ClashFree(ConstantsOpt(outer) + ConstantsOpt(dep)) ==>
              forall env: Env :: ValueOpt(r, env) == Both(outer, dep, modules, env)
    ensures NotsOverSymbolsOpt(outer) ==> NotsOverSymbolsOpt(r)
    ensures r.None? <==> outer.None? && dep.None?
    ensures r.Some? ==> Settled(r.value)
    ensures ConstantsOpt(r) <= ConstantsOpt(outer) + ConstantsOpt(dep)
  {
    var inner := if dep.None? then None else Some(Transform(RewriteM(dep.value, modules)));
    var both := AllocAnd(outer, inner);
    r := Deduplicate(both);
    if dep.Some? {
      RewriteMConstants(dep.value, modules);
      TransformConstants(RewriteM(dep.value, modules));
      TransformIsNormal(RewriteM(dep.value, modules));
      NormalNotsOverSymbols(inner.value);
    }
    forall env: Env ensures ValueOpt(both, env) == Both(outer, dep, modules, env) {
      if dep.Some? { TransformPreservesValue(RewriteM(dep.value, modules), env); }
    }
    if ClashFree(ConstantsOpt(outer) + ConstantsOpt(dep)) {
      ClashFreeSubset(ConstantsOpt(outer) + ConstantsOpt(dep), ConstantsOpt(both));
    }
  }

  /** The condition of a property: for symbols that are not tristate, comparisons with n are
      simplified further, which keeps exactly whether the condition is n. */
  method PropagateToProperty(base: Option<Expr>, visible: Option<Expr>, modules: Symbol, tristateOwner: bool)
    returns (r: Option<Expr>)
    requires NotsOverSymbolsOpt(base)
    ensures forall env: Env :: ValueOpt(r, env) == TRI_NO ==> Both(base, visible, modules, env) == TRI_NO
    ensures ClashFree(ConstantsOpt(base) + ConstantsOpt(visible)) ==> forall env: Env ::
              && (ValueOpt(r, env) == TRI_NO <==> Both(base, visible, modules, env) == TRI_NO)
              && (tristateOwner ==> ValueOpt(r, env) == Both(base, visible, modules, env))
    ensures NotsOverSymbolsOpt(r)
    ensures r.Some? ==> if tristateOwner then Settled(r.value) else TestFree(r.value)
  {
    r := Propagate(base, visible, modules);
    if !tristateOwner && r.Some? {
      forall env: Env ensures Value(TransBool(r.value), env) == TRI_NO <==> Value(r.value, env) == TRI_NO {
        NotsOverSymbolsAreTestFree(r.value);
        TransBoolKeepsNo(r.value, env);
      }
      TransBoolNots(r.value);
      TransBoolIsTestFree(r.value);
      r := Some(TransBool(r.value));
    }
  }

  // ----- automatic submenus -----

  predicate ContainsSymbol(e: Expr, s: Symbol) {
    match e
    case And(l, r) => ContainsSymbol(l, s) || ContainsSymbol(r, s)
    case Or(l, r) => ContainsSymbol(l, s) || ContainsSymbol(r, s)
    case Not(a) => ContainsSymbol(a, s)
    case Sym(t) => t == s
    case Cmp(_, a, b) => a == s || b == s
  }

  predicate DependsSymbol(e: Expr, s: Symbol) {
    match e
    case And(l, r) => DependsSymbol(l, s) || DependsSymbol(r, s)
    case Sym(t) => t == s
    case Cmp(op, a, b) => a == s && ((op == Equal && (b == YES || b == MOD)) || (op == Unequal && b == NO))
    case _ => false
  }

  lemma {:induction false} DependsSymbolContains(e: Expr, s: Symbol)
    requires DependsSymbol(e, s)
    ensures ContainsSymbol(e, s)
  {
    match e
    case And(l, r) =>
      if DependsSymbol(l, s) { DependsSymbolContains(l, s); } else { DependsSymbolContains(r, s); }
    case _ =>
  }

  /** An absolute dependency: wherever the expression is not n, neither is the symbol. */
  lemma {:induction false} DependsSymbolIsSound(e: Expr, s: Symbol, env: Env)
    requires DependsSymbol(e, s) && Logical(s)
    ensures Value(e, env) != TRI_NO ==> TriOf(s, env) != TRI_NO
  {
    match e
    case And(l, r) =>
      if DependsSymbol(l, s) { DependsSymbolIsSound(l, s, env); } else { DependsSymbolIsSound(r, s, env); }
    case Cmp(_, _, b) =>
      ComparesExactly(s, if b == NO then TRI_NO else if b == MOD then TRI_MOD else TRI_YES, env);
    case _ =>
  }

  /** The conditions that a symbol alone decides: s, s=y, s=m and s!=n. */
  predicate Forces(x: Expr, s: Symbol) {
    x == Sym(s) || x == Cmp(Equal, s, YES) || x == Cmp(Equal, s, MOD) || x == Cmp(Unequal, s, NO)
  }

  /** expr_depends_symbol looks for such a condition among the operands of the outermost &&. */
  lemma {:induction false} DependsExactly(e: Expr, s: Symbol)
    requires s != YES
    ensures DependsSymbol(e, s) <==> exists x :: Forces(x, s) && Atom(x) in Operands(Conj, e)
  {
    match e
    case And(l, r) =>
      DependsExactly(l, s);
      DependsExactly(r, s);
    case Sym(t) =>
      if t == s { assert Forces(e, s) && Atom(e) in Operands(Conj, e); }
    case Cmp(_, _, _) =>
      if DependsSymbol(e, s) { assert Forces(e, s) && Atom(e) in Operands(Conj, e); }
    case _ =>
  }

  /** "e is not n" before it is deduplicated. */
  function NotNoForm(e: Option<Expr>): Expr { Transform(TransCompareOpt(e, false, TRI_NO)) }

  /** base is the normalised form of "prompt is not n". */
  ghost predicate MeansNotNo(base: Expr, prompt: Option<Expr>) {
    && (forall env: Env :: CollapsedOpt(prompt, TRI_NO, env) ==> Value(base, env) == TRI_YES)
    && (ClashFree(ConstantsOpt(prompt)) ==>
          forall env: Env :: Value(base, env) == Truth(CollapsedOpt(prompt, TRI_NO, env)))
  }

  /** MeansNotNo, folded: the submenu loop passes it on without looking inside. */
  ghost predicate IsBase(base: Expr, prompt: Option<Expr>) { FoldedBase(base, prompt, 1) }

  ghost predicate FoldedBase(base: Expr, prompt: Option<Expr>, folds: nat)
    decreases folds, base
  {
    if folds > 0 then FoldedBase(base, prompt, folds - 1) else MeansNotNo(base, prompt)
  }

  lemma IsBaseIs(base: Expr, prompt: Option<Expr>)
    ensures IsBase(base, prompt) <==> MeansNotNo(base, prompt)
  {
    assert FoldedBase(base, prompt, 1) == FoldedBase(base, prompt, 0);
  }

  /** d is "e is not n" as it enters the superset test: deduplicated, and untouched where there was
      nothing to do. */
  ghost predicate Compared(d: Expr, e: Option<Expr>) {
    && IsBase(d, e) && Settled(d)
    && (Settled(NotNoForm(e)) ==> d == NotNoForm(e))
    && (Clean(NotNoForm(e)) ==> Clean(d))
  }

  /** "e is not n", normalised and deduplicated (menu.c:457-458 and 480-481). */
  method NotNo(e: Option<Expr>) returns (r: Expr)
    ensures Compared(r, e)
  {
    var t := TransCompareOpt(e, false, TRI_NO);
    var d := Deduplicate(Some(Transform(t)));
    r := d.value;
    if e.Some? { TransCompareConstants(e.value, false, TRI_NO); }
    TransformConstants(t);
    if ClashFree(ConstantsOpt(e)) { ClashFreeSubset(ConstantsOpt(e), Constants(Transform(t))); }
    forall env: Env ensures Value(Transform(t), env) == Truth(CollapsedOpt(e, TRI_NO, env)) {
      TransformPreservesValue(t, env);
      TransCompareOptExact(e, false, TRI_NO, env);
    }
    IsBaseIs(r, e);
  }

  /** Wherever the item's dependency is not n, neither is the prompt's condition. */
  ghost predicate ImpliesPrompt(dep: Option<Expr>, prompt: Option<Expr>) {
    ClashFree(ConstantsOpt(prompt)) ==>
      forall env: Env :: CollapsedOpt(dep, TRI_NO, env) ==> CollapsedOpt(prompt, TRI_NO, env)
  }

  /** Cancelling against the base leaves y of it. */
  predicate Absorbs(d: Expr, base: Expr) { EliminateEq(d, base).1 == Sym(YES) }

  /** What that means for expressions without constant operands: the condition is an && that has all
      operands of the base. */
  ghost predicate Contains(d: Expr, base: Expr) { d.And? && Operands(Conj, base) <= Operands(Conj, d) }

  predicate Plain(e: Expr) { Clean(e) && !IsYN(e) }

  /** The superset test of menu.c:480-491; d is the item's condition as it is compared. */
  method IsSuperset(dep: Option<Expr>, base: Expr, ghost prompt: Option<Expr>) returns (superset: bool, ghost d: Expr)
    requires IsBase(base, prompt)
    ensures superset ==> ImpliesPrompt(dep, prompt)
    ensures Compared(d, dep)
    ensures superset <==> Absorbs(d, base)
    ensures Plain(d) && Plain(base) ==> (superset <==> Contains(d, base))
  {
    var form := NotNo(dep);
    d := form;
    var rest := EliminateEq(form, base).1;
    if Plain(d) && Plain(base) { SupersetExact(d, base); }
    superset := IsYes(Some(rest));
    if superset {
      IsBaseIs(d, dep);
      IsBaseIs(base, prompt);
      forall env: Env ensures Value(d, env) <= Value(base, env) { EliminateEqSuperset(d, base, env); }
    }
  }

  /** The item's dependency keeps it behind the symbol: absolutely, or by implying the symbol's
      own prompt condition. */
  ghost predicate Behind(dep: Expr, s: Symbol, prompt: Option<Expr>) {
    && ContainsSymbol(dep, s)
    && (DependsSymbol(dep, s) || ImpliesPrompt(Some(dep), prompt))
  }

  /** What one step of the submenu loop decides, d being the item's condition as it is compared. */
  predicate Passes(dep: Expr, s: Symbol, base: Expr, d: Expr) {
    ContainsSymbol(dep, s) && (DependsSymbol(dep, s) || Absorbs(d, base))
  }

  /** One step of the submenu loop. */
  method IsBehind(dep: Expr, s: Symbol, base: Expr, ghost prompt: Option<Expr>) returns (behind: bool, ghost d: Expr)
    requires IsBase(base, prompt)
    ensures behind ==> Behind(dep, s, prompt)
    ensures behind <==> Passes(dep, s, base, d)
    ensures ContainsSymbol(dep, s) && !DependsSymbol(dep, s) ==>
              Compared(d, Some(dep)) && (Plain(d) && Plain(base) ==> (behind <==> Contains(d, base)))
  {
    d := Sym(YES);
    if DependsSymbol(dep, s) { DependsSymbolContains(dep, s); }
    if !ContainsSymbol(dep, s) {
      behind := false;
    } else if DependsSymbol(dep, s) {
      behind := true;
    } else {
      behind, d := IsSuperset(Some(dep), base, prompt);
    }
  }

  /** An item becomes a child: it has a dependency, and that keeps it behind the symbol. */
  ghost predicate BehindOpt(item: Option<Expr>, s: Symbol, prompt: Option<Expr>) {
    item.Some? && Behind(item.value, s, prompt)
  }

  predicate PassesOpt(item: Option<Expr>, s: Symbol, base: Expr, d: Expr) {
    item.Some? && Passes(item.value, s, base, d)
  }

  /** Whether the superset test is needed for the item, and then on which form. */
  ghost predicate ComparedOpt(d: Expr, item: Option<Expr>, s: Symbol) {
    item.Some? && ContainsSymbol(item.value, s) && !DependsSymbol(item.value, s) ==> Compared(d, item)
  }

  /** One round of the submenu loop. */
  method JoinsSubmenu(item: Option<Expr>, s: Symbol, base: Expr, ghost prompt: Option<Expr>)
    returns (child: bool, ghost d: Expr)
    requires IsBase(base, prompt)
    ensures child ==> BehindOpt(item, s, prompt)
    ensures child <==> PassesOpt(item, s, base, d)
    ensures ComparedOpt(d, item, s)
  {
    d := Sym(YES);
    if item.None? {
      child := false;
    } else {
      child, d := IsBehind(item.value, s, base, prompt);
    }
  }

  /** How many of the following items become children of the symbol's menu entry: all up to the first
      that does not pass. The ghost results are the forms that the superset test compares. */
  method SubmenuLength(s: Symbol, prompt: Option<Expr>, items: seq<Option<Expr>>)
    returns (n: nat, ghost base: Expr, ghost forms: seq<Expr>)
    ensures n <= |items| == |forms|
    ensures Compared(base, prompt) && forall i :: 0 <= i <= n && i < |items| ==> ComparedOpt(forms[i], items[i], s)
    ensures forall i :: 0 <= i < n ==> PassesOpt(items[i], s, base, forms[i])
    ensures forall i :: 0 <= i < n ==> BehindOpt(items[i], s, prompt)
    ensures n < |items| ==> !PassesOpt(items[n], s, base, forms[n])
  {
    var b := NotNo(prompt);
    base := b;
    n := 0;
    forms := seq(|items|, _ => Sym(YES));
    while n < |items|
      invariant n <= |items| == |forms|
      invariant forall i :: 0 <= i < n ==> ComparedOpt(forms[i], items[i], s)
      invariant forall i :: 0 <= i < n ==> PassesOpt(items[i], s, base, forms[i])
      invariant forall i :: 0 <= i < n ==> BehindOpt(items[i], s, prompt)
    {
      ghost var d;
      var child;
      child, d := JoinsSubmenu(items[n], s, b, prompt);
      forms := forms[n := d];
      if !child { break; }
      n := n + 1;
    }
  }

  /** What being behind a symbol means for values: an item that is visible has a visible parent,
      provided no symbol that the item negates is mod. */
  lemma BehindIsVisible(dep: Expr, s: Symbol, prompt: Option<Expr>, env: Env)
    requires Behind(dep, s, prompt) && Logical(s) && ClashFree(ConstantsOpt(prompt))
    requires LogicalLeaves(dep) && NotsTwoValued(dep, env)
    requires prompt.Some? ==> LogicalLeaves(prompt.value) && NotsOverSymbols(prompt.value)
    ensures Value(dep, env) != TRI_NO ==> TriOf(s, env) != TRI_NO || ValueOpt(prompt, env) != TRI_NO
  {
    if DependsSymbol(dep, s) {
      DependsSymbolIsSound(dep, s, env);
    } else {
      CollapseIsFaithful(dep, TRI_NO, env);
      assert Collapsed(dep, TRI_NO, env) ==> CollapsedOpt(Some(dep), TRI_NO, env);
      if prompt.Some? && Value(dep, env) != TRI_NO { CollapseNeverOverstates(prompt.value, env); }
    }
  }

  /** The item (s || q) && r behind a symbol s with the prompt condition r: what is compared. */
  lemma ExampleTrees(s: Symbol, q: Symbol, r: Symbol)
    requires TypeOf(s) == TypeOf(q) == TypeOf(r) == Tri && s != q && q != r && s != r
    ensures NotNoForm(Some(And(Or(Sym(s), Sym(q)), Sym(r))))
         == And(Or(Cmp(Unequal, s, NO), Cmp(Unequal, q, NO)), Cmp(Unequal, r, NO))
    ensures NotNoForm(Some(Sym(r))) == Cmp(Unequal, r, NO)
  {
    var dep := And(Or(Sym(s), Sym(q)), Sym(r));
    var a, b, c := Cmp(Equal, s, NO), Cmp(Equal, q, NO), Cmp(Equal, r, NO);
    assert TransCompare(Or(Sym(s), Sym(q)), true, TRI_NO) == And(a, b);
    assert TransCompare(dep, false, TRI_NO) == Not(Or(And(a, b), c));
    assert Transform(a) == a && Transform(b) == b && Transform(c) == c;
    assert Transform(And(a, b)) == And(a, b);
    assert Transform(Or(And(a, b), c)) == Or(And(a, b), c);
    var na, nb, nc := Cmp(Unequal, s, NO), Cmp(Unequal, q, NO), Cmp(Unequal, r, NO);
    assert Transform(Not(a)) == na && Transform(Not(b)) == nb && Transform(Not(c)) == nc;
    assert Transform(Or(Not(a), Not(b))) == Or(na, nb);
    assert Transform(Not(And(a, b))) == Or(na, nb);
    assert Transform(Not(Or(And(a, b), c))) == Transform(And(Not(And(a, b)), Not(c))) == And(Or(na, nb), nc);
    assert TransCompare(Sym(r), false, TRI_NO) == nc;
  }

  lemma ExampleSettled(s: Symbol, q: Symbol, r: Symbol)
    requires TypeOf(s) == TypeOf(q) == TypeOf(r) == Tri && s != q && q != r && s != r
    ensures var base := Cmp(Unequal, r, NO);
            var d := And(Or(Cmp(Unequal, s, NO), Cmp(Unequal, q, NO)), base);
            Settled(d) && Settled(base) && Plain(d) && Plain(base) && Contains(d, base)
  {
    var na, nb, base := Cmp(Unequal, s, NO), Cmp(Unequal, q, NO), Cmp(Unequal, r, NO);
    SettledNode(Disj, na, nb);
    SettledNode(Conj, Or(na, nb), base);
    var d := And(Or(na, nb), base);
    assert Clean(na) && Clean(nb) && Clean(base);
    assert Clean(Or(na, nb));
    assert Clean(d);
    NodeOperands(Conj, Or(na, nb), base);
    LeafOperands(Conj, base);
    assert Operands(Conj, d) == Operands(Conj, Or(na, nb)) + Operands(Conj, base);
  }

  /** Such an item becomes a child, although it does not force s. */
  method ExampleSubmenu(s: Symbol, q: Symbol, r: Symbol) returns (n: nat)
    requires TypeOf(s) == TypeOf(q) == TypeOf(r) == Tri && s != q && q != r && s != r
    ensures n == 1
  {
    var dep := And(Or(Sym(s), Sym(q)), Sym(r));
    ghost var base, forms;
    n, base, forms := SubmenuLength(s, Some(Sym(r)), [Some(dep)]);
    ExampleTrees(s, q, r);
    ExampleSettled(s, q, r);
    assert ContainsSymbol(Or(Sym(s), Sym(q)), s) && ContainsSymbol(dep, s);
    assert !DependsSymbol(Or(Sym(s), Sym(q)), s) && !DependsSymbol(Sym(r), s);
    assert ComparedOpt(forms[0], Some(dep), s);
    SupersetExact(forms[0], base);
    assert PassesOpt(Some(dep), s, base, forms[0]);
  }

  /** The trees that the superset test compares for the item (s || q) && !t and the prompt t=n. */
  lemma SupersetTrees(s: Symbol, q: Symbol, t: Symbol)
    requires TypeOf(s) == TypeOf(q) == TypeOf(t) == Tri && s != q && q != t && s != t
    ensures var dep, prompt := And(Or(Sym(s), Sym(q)), Not(Sym(t))), Cmp(Equal, t, NO);
            && NotNoForm(Some(dep)) == And(Or(Cmp(Unequal, s, NO), Cmp(Unequal, q, NO)), prompt)
            && NotNoForm(Some(prompt)) == prompt
  {
    var dep, prompt := And(Or(Sym(s), Sym(q)), Not(Sym(t))), Cmp(Equal, t, NO);
    var a, b := Cmp(Equal, s, NO), Cmp(Equal, q, NO);
    var c := Cmp(Unequal, t, NO);
    assert TransCompare(Or(Sym(s), Sym(q)), true, TRI_NO) == And(a, b);
    assert TransCompare(Not(Sym(t)), true, TRI_NO) == c;
    assert TransCompare(dep, false, TRI_NO) == Not(Or(And(a, b), c));
    assert Transform(a) == a && Transform(b) == b && Transform(c) == c;
    assert Transform(And(a, b)) == And(a, b);
    assert Transform(Or(And(a, b), c)) == Or(And(a, b), c);
    var na, nb := Cmp(Unequal, s, NO), Cmp(Unequal, q, NO);
    assert Transform(Not(a)) == na && Transform(Not(b)) == nb && Transform(Not(c)) == prompt;
    assert Transform(Or(Not(a), Not(b))) == Or(na, nb);
    assert Transform(Not(And(a, b))) == Or(na, nb);
    assert Transform(Not(Or(And(a, b), c))) == Transform(And(Not(And(a, b)), Not(c))) == And(Or(na, nb), prompt);
    assert Transform(TransCompare(prompt, false, TRI_NO)) == prompt;
  }

  lemma SupersetTreesSettled(s: Symbol, q: Symbol, t: Symbol)
    requires TypeOf(s) == TypeOf(q) == TypeOf(t) == Tri && s != q && q != t && s != t
    ensures Settled(And(Or(Cmp(Unequal, s, NO), Cmp(Unequal, q, NO)), Cmp(Equal, t, NO)))
  {
    var na, nb, prompt := Cmp(Unequal, s, NO), Cmp(Unequal, q, NO), Cmp(Equal, t, NO);
    SettledNode(Disj, na, nb);
    SettledNode(Conj, Or(na, nb), prompt);
  }

  lemma SupersetCancels(s: Symbol, q: Symbol, t: Symbol)
    requires TypeOf(s) == TypeOf(q) == TypeOf(t) == Tri && s != q && q != t && s != t
    ensures var prompt := Cmp(Equal, t, NO);
            EliminateEq(And(Or(Cmp(Unequal, s, NO), Cmp(Unequal, q, NO)), prompt), prompt).1 == Sym(YES)
  {
    var na, nb, prompt := Cmp(Unequal, s, NO), Cmp(Unequal, q, NO), Cmp(Equal, t, NO);
    var d := And(Or(na, nb), prompt);
    assert !Eq(Or(na, nb), prompt) && Eq(prompt, prompt);
    assert CancelWalk(Conj, Or(na, nb), prompt) == (Or(na, nb), prompt);
    assert CancelWalk(Conj, prompt, prompt) == (Sym(YES), Sym(YES));
    assert CancelWalk(Conj, d, prompt) == (And(Or(na, nb), Sym(YES)), Sym(YES));
  }

  /** Without the condition on NOT the superset test errs: with t = m the item (s || q) && !t is
      visible while the prompt condition t=n is not, and still the test passes. */
  method SupersetIgnoresModules(s: Symbol, q: Symbol, t: Symbol) returns (superset: bool)
    requires TypeOf(s) == TypeOf(q) == TypeOf(t) == Tri && s != q && q != t && s != t
    ensures superset
    ensures var env: Env := map[t := Setting(TRI_MOD, ""), s := Setting(TRI_YES, "")];
            && Value(And(Or(Sym(s), Sym(q)), Not(Sym(t))), env) == TRI_MOD
            && Value(Cmp(Equal, t, NO), env) == TRI_NO
  {
    var dep, prompt := And(Or(Sym(s), Sym(q)), Not(Sym(t))), Cmp(Equal, t, NO);
    SupersetTrees(s, q, t);
    SupersetTreesSettled(s, q, t);
    SupersetCancels(s, q, t);
    ItemOutlivesPrompt(s, q, t);
    var base := NotNo(Some(prompt));
    ghost var d;
    superset, d := IsSuperset(Some(dep), base, Some(prompt));
  }

  lemma ItemOutlivesPrompt(s: Symbol, q: Symbol, t: Symbol)
    requires TypeOf(s) == TypeOf(q) == TypeOf(t) == Tri && s != q && q != t && s != t
    ensures var env: Env := map[t := Setting(TRI_MOD, ""), s := Setting(TRI_YES, "")];
            && Value(And(Or(Sym(s), Sym(q)), Not(Sym(t))), env) == TRI_MOD
            && Value(Cmp(Equal, t, NO), env) == TRI_NO
  {
    var env: Env := map[t := Setting(TRI_MOD, ""), s := Setting(TRI_YES, "")];
    ComparesExactly(t, TRI_NO, env);
    assert TriOf(t, env) == TRI_MOD && TriOf(s, env) == TRI_YES;
    assert Value(Sym(t), env) == TRI_MOD && Value(Sym(s), env) == TRI_YES;
    assert Value(Or(Sym(s), Sym(q)), env) == TRI_YES && Value(Not(Sym(t)), env) == TRI_MOD;
  }
}
