/** expr_eliminate_dups: a tree walked against itself, overwriting pairs of operands in place
    (nemu/tools/kconfig/expr.c:584-686). A slot of the tree -- a `struct expr **` -- is the path
    that leads to it, so two slots alias exactly when their paths are equal. */
module KconfigDups {
  import opened Options
  import opened Strtol
  import opened KconfigExpr
  import opened KconfigEq
  import opened KconfigJoin

  // ----- slots -----

  /** false leads to the left operand, true to the right one. */
  type Path = seq<bool>

  function Child(e: Expr, side: bool): Expr
    requires e.And? || e.Or?
  {
    if side then e.right else e.left
  }

  predicate IsPath(e: Expr, p: Path) {
    p == [] || ((e.And? || e.Or?) && IsPath(Child(e, p[0]), p[1..]))
  }

  function Get(e: Expr, p: Path): (r: Expr)
    requires IsPath(e, p)
    ensures Size(r) <= Size(e)
    ensures p != [] ==> Size(r) < Size(e)
  {
    if p == [] then e else Get(Child(e, p[0]), p[1..])
  }

  function Put(e: Expr, p: Path, x: Expr): Expr
    requires IsPath(e, p)
  {
    if p == [] then x
    else
      var c := Put(Child(e, p[0]), p[1..], x);
      if e.And? then (if p[0] then And(e.left, c) else And(c, e.right))
      else (if p[0] then Or(e.left, c) else Or(c, e.right))
  }

  lemma {:induction false} GetPut(e: Expr, p: Path, x: Expr)
    requires IsPath(e, p)
    ensures IsPath(Put(e, p, x), p) && Get(Put(e, p, x), p) == x
    ensures Put(e, p, Get(e, p)) == e
    ensures Size(Put(e, p, x)) == Size(e) - Size(Get(e, p)) + Size(x)
  {
    if p != [] { GetPut(Child(e, p[0]), p[1..], x); }
  }

  lemma {:induction false} PutTwice(e: Expr, p: Path, x: Expr, y: Expr)
    requires IsPath(e, p)
    ensures IsPath(Put(e, p, x), p) && Put(Put(e, p, x), p, y) == Put(e, p, y)
  {
    if p != [] { PutTwice(Child(e, p[0]), p[1..], x, y); }
  }

  /** A slot below a slot. */
  lemma {:induction false} SlotBelow(e: Expr, b: Path, p: Path, x: Expr)
    requires IsPath(e, b) && IsPath(Get(e, b), p)
    ensures IsPath(e, b + p) && Get(e, b + p) == Get(Get(e, b), p)
    ensures Put(e, b + p, x) == Put(e, b, Put(Get(e, b), p, x))
  {
    if b == [] {
      assert b + p == p;
    } else {
      assert (b + p)[1..] == b[1..] + p;
      SlotBelow(Child(e, b[0]), b[1..], p, x);
    }
  }

  // ----- the spine of one level: which slots hold operators and which operands -----

  datatype Shape = Tip | Fork(l: Shape, r: Shape)

  function Spine(j: Junction, e: Expr): Shape {
    if IsNode(j, e) then Fork(Spine(j, e.left), Spine(j, e.right)) else Tip
  }

  function ShapeSize(s: Shape): nat {
    if s.Tip? then 1 else 1 + ShapeSize(s.l) + ShapeSize(s.r)
  }

  predicate InShape(s: Shape, p: Path) {
    p == [] || (s.Fork? && InShape(if p[0] then s.r else s.l, p[1..]))
  }

  function At(s: Shape, p: Path): Shape
    requires InShape(s, p)
  {
    if p == [] then s else At(if p[0] then s.r else s.l, p[1..])
  }

  /** The slot p holds an operand of the level j of e. */
  predicate IsOperand(j: Junction, e: Expr, p: Path) {
    InShape(Spine(j, e), p) && At(Spine(j, e), p).Tip?
  }

  lemma {:induction false} SpineSlot(j: Junction, e: Expr, p: Path)
    requires InShape(Spine(j, e), p)
    ensures IsPath(e, p) && Spine(j, Get(e, p)) == At(Spine(j, e), p)
  {
    if p != [] { SpineSlot(j, Child(e, p[0]), p[1..]); }
  }

  lemma {:induction false} ForkSlots(s: Shape, p: Path)
    requires InShape(s, p) && At(s, p).Fork?
    ensures InShape(s, p + [false]) && At(s, p + [false]) == At(s, p).l
    ensures InShape(s, p + [true]) && At(s, p + [true]) == At(s, p).r
  {
    if p != [] {
      ForkSlots(if p[0] then s.r else s.l, p[1..]);
      assert (p + [false])[1..] == p[1..] + [false] && (p + [true])[1..] == p[1..] + [true];
    }
  }

  lemma {:induction false} TipIsLast(s: Shape, p: Path, q: Path)
    requires InShape(s, p) && InShape(s, q) && At(s, p).Tip? && p <= q
    ensures p == q
  {
    if p != [] { TipIsLast(if p[0] then s.r else s.l, p[1..], q[1..]); }
  }

  lemma {:induction false} PutKeepsSpine(j: Junction, e: Expr, p: Path, x: Expr)
    requires IsOperand(j, e, p) && !IsNode(j, x)
    ensures IsPath(e, p) && Spine(j, Put(e, p, x)) == Spine(j, e)
  {
    if p != [] { PutKeepsSpine(j, Child(e, p[0]), p[1..], x); }
  }

  lemma {:induction false} PutElsewhere(j: Junction, e: Expr, p: Path, q: Path, x: Expr)
    requires IsOperand(j, e, p) && IsOperand(j, e, q) && p != q
    ensures IsPath(e, p) && IsPath(e, q) && IsPath(Put(e, p, x), q)
    ensures Get(Put(e, p, x), q) == Get(e, q)
  {
    SpineSlot(j, e, p);
    SpineSlot(j, e, q);
    if p != [] && q != [] && p[0] == q[0] {
      PutElsewhere(j, Child(e, p[0]), p[1..], q[1..], x);
    }
  }

  /** An operand's contribution can be split off: the level is its rest joined with the operand. */
  lemma {:induction false} OperandContribution(j: Junction, e: Expr, p: Path, x: Expr, env: Env)
    requires IsOperand(j, e, p)
    ensures IsPath(e, p)
    ensures Value(Put(e, p, x), env) == Combine(j, Value(Put(e, p, Unit(j)), env), Value(x, env))
  {
    SpineSlot(j, e, p);
    if p != [] {
      var c := Child(e, p[0]);
      OperandContribution(j, c, p[1..], x, env);
      var u, v := Value(Put(c, p[1..], Unit(j)), env), Value(x, env);
      var w := Value(Child(e, !p[0]), env);
      assert Combine(j, Combine(j, u, v), w) == Combine(j, Combine(j, u, w), v);
    }
  }

  // ----- constants -----

  /** The quoted constants other than y, m and n that a tristate symbol is tested with by = or !=,
      each with its symbol. */
  function Constants(e: Expr): set<(Symbol, Symbol)> {
    match e
    case Sym(_) => {}
    case Not(a) => Constants(a)
    case And(l, r) => Constants(l) + Constants(r)
    case Or(l, r) => Constants(l) + Constants(r)
    case Cmp(_, a, b) => if IsEquality(e) && TypeOf(a) == Tri && b.Const? && !IsTriConst(b) then {(a, b)} else {}
  }

  /** Joining may test any symbol with y, m or n. */
  predicate MayTest(cs: set<(Symbol, Symbol)>, s: Symbol, c: Symbol) {
    IsTriConst(c) || (s, c) in cs
  }

  /** No symbol is tested with two different constants that one tristate value passes. */
  ghost predicate ClashFree(cs: set<(Symbol, Symbol)>) {
    forall s, b, c :: MayTest(cs, s, b) && MayTest(cs, s, c) && b != c ==> !Clash(b, c)
  }

  lemma {:induction false} SlotConstants(e: Expr, p: Path, x: Expr)
    requires IsPath(e, p)
    ensures Constants(Get(e, p)) <= Constants(e)
    ensures Constants(Put(e, p, x)) <= Constants(e) + Constants(x)
  {
    if p != [] { SlotConstants(Child(e, p[0]), p[1..], x); }
  }

  lemma {:induction false} FoldConstants(e: Expr)
    ensures Constants(EliminateYn(e)) <= Constants(e)
  {
    match e
    case And(l, r) => FoldConstants(l); FoldConstants(r);
    case Or(l, r) => FoldConstants(l); FoldConstants(r);
    case _ =>
  }

  lemma JoinConstants(j: Junction, e1: Expr, e2: Expr)
    requires Join(j, e1, e2).Some?
    ensures Constants(Join(j, e1, e2).value) <= Constants(e1) + Constants(e2)
    ensures ClashFree(Constants(e1) + Constants(e2)) ==> !(j == Conj && ClashingJoin(e1, e2))
  {
    if j == Conj && ClashingJoin(e1, e2) {
      var s := SharedSymbol(e1, e2).value;
      var (b, c) := ConstantPair(e1, e2).value;
      assert MayTest(Constants(e1) + Constants(e2), s, b) && MayTest(Constants(e1) + Constants(e2), s, c);
    }
  }

  lemma MatchesTriConst(t: Tristate, u: Tristate)
    ensures Matches(TriConst(u), t) <==> t == u
  {
    TriTextIsNoNumber(u);
    StrCmpZero(TriText(t), TriText(u));
  }

  /** Tests with y, m and n alone never clash. */
  lemma TriConstantsAreClashFree()
    ensures ClashFree({})
  {
    forall t: Tristate, u: Tristate ensures Matches(TriConst(u), t) <==> t == u { MatchesTriConst(t, u); }
    assert TriConst(TRI_YES) == YES && TriConst(TRI_MOD) == MOD && TriConst(TRI_NO) == NO;
  }

  /** The condition is the weakest one that looks only at which tests occur: if it fails, some join
      of two such tests changes the value. */
  lemma ClashFreeExact(cs: set<(Symbol, Symbol)>)
    requires forall p :: p in cs ==> TypeOf(p.0) == Tri && p.1.Const?
    ensures ClashFree(cs) <==>
              forall e1, e2 :: Constants(e1) + Constants(e2) <= cs && JoinAnd(e1, e2).Some? ==>
                Equivalent(JoinAnd(e1, e2).value, And(e1, e2))
  {
    if ClashFree(cs) {
      forall e1, e2 | Constants(e1) + Constants(e2) <= cs && JoinAnd(e1, e2).Some?
        ensures Equivalent(JoinAnd(e1, e2).value, And(e1, e2))
      {
        ClashFreeSubset(cs, Constants(e1) + Constants(e2));
        JoinConstants(Conj, e1, e2);
        JoinAndExact(e1, e2);
      }
    } else {
      var s, b, c :| MayTest(cs, s, b) && MayTest(cs, s, c) && b != c && Clash(b, c);
      TriConstantsAreClashFree();
      assert !(MayTest({}, s, b) && MayTest({}, s, c));
      var e1, e2 := Cmp(Equal, s, b), Cmp(Unequal, s, c);
      assert ConstantPair(e1, e2) == Some((b, c));
      JoinAndExact(e1, e2);
    }
  }

  lemma ModAndTwo()
    ensures !Clash(MOD, Const("2"))
  {
    assert TriConst(TRI_MOD) == MOD;
    MatchesTriConst(TRI_YES, TRI_MOD);
    MatchesTriConst(TRI_NO, TRI_MOD);
    assert AllDigits("2", 10) && DigitsValue("2", 10) == 2 by { assert DigitsValue("", 10) == 0; }
    assert SkipSpace("2") == "2" && WholeSigned("2", 0) == Some(2);
    assert !Matches(Const("2"), TRI_MOD);
  }

  /** y joins in unasked: in a && a!='m' && a!='2' the constants m and 2 do not clash, yet the first
      two operands join to a='y', which swallows the third. */
  lemma ClashesThroughYes(a: Symbol, env: Env)
    requires TypeOf(a) == Tri && TriOf(a, env) == TRI_YES
    ensures var notMod, notTwo := Cmp(Unequal, a, MOD), Cmp(Unequal, a, Const("2"));
            && !Clash(MOD, Const("2"))
            && JoinAnd(Sym(a), notMod) == Some(Cmp(Equal, a, YES))
            && JoinAnd(Cmp(Equal, a, YES), notTwo) == Some(Cmp(Equal, a, YES))
            && Value(And(And(Sym(a), notMod), notTwo), env) == TRI_NO
            && Value(Cmp(Equal, a, YES), env) == TRI_YES
            && !ClashFree(Constants(And(And(Sym(a), notMod), notTwo)))
  {
    var two := Const("2");
    JoinAndClashes(a);
    assert two != MOD && two != YES && two != NO by { assert two.name[0] == '2'; }
    assert !Clash(MOD, two) by { ModAndTwo(); }
    ComparesExactly(a, TRI_YES, env);
    assert Value(And(Cmp(Equal, a, YES), Cmp(Unequal, a, two)), env) == TRI_NO;
    var cs := Constants(And(And(Sym(a), Cmp(Unequal, a, MOD)), Cmp(Unequal, a, two)));
    assert Constants(Cmp(Unequal, a, two)) == {(a, two)};
    assert MayTest(cs, a, YES) && MayTest(cs, a, two);
    assert ConstantPair(Cmp(Equal, a, YES), Cmp(Unequal, a, two)) == Some((YES, two)) && Clash(YES, two);
  }

  // ----- NOT above symbols only -----

  predicate NotsOverSymbols(e: Expr) {
    match e
    case Not(a) => a.Sym?
    case And(l, r) => NotsOverSymbols(l) && NotsOverSymbols(r)
    case Or(l, r) => NotsOverSymbols(l) && NotsOverSymbols(r)
    case _ => true
  }

  lemma {:induction false} SlotNots(e: Expr, p: Path, x: Expr)
    requires IsPath(e, p) && NotsOverSymbols(e)
    ensures NotsOverSymbols(Get(e, p))
    ensures NotsOverSymbols(x) ==> NotsOverSymbols(Put(e, p, x))
  {
    if p != [] { SlotNots(Child(e, p[0]), p[1..], x); }
  }

  lemma {:induction false} FoldNots(e: Expr)
    requires NotsOverSymbols(e)
    ensures NotsOverSymbols(EliminateYn(e))
  {
    match e
    case And(l, r) => FoldNots(l); FoldNots(r);
    case Or(l, r) => FoldNots(l); FoldNots(r);
    case _ =>
  }

  // ----- clean expressions below NOT -----

  /** What passes leave alone of being clean; the rest is that no y or n is an operand. */
  predicate NotsClean(e: Expr) {
    match e
    case Not(a) => Clean(a)
    case And(l, r) => NotsClean(l) && NotsClean(r)
    case Or(l, r) => NotsClean(l) && NotsClean(r)
    case _ => true
  }

  lemma {:induction false} CleanParts(e: Expr)
    ensures Clean(e) <==> NotsClean(e) && YnFree(e)
  {
    match e
    case And(l, r) => CleanParts(l); CleanParts(r);
    case Or(l, r) => CleanParts(l); CleanParts(r);
    case _ =>
  }

  lemma {:induction false} SlotNotsClean(e: Expr, p: Path, x: Expr)
    requires IsPath(e, p) && NotsClean(e)
    ensures NotsClean(Get(e, p))
    ensures NotsClean(x) ==> NotsClean(Put(e, p, x))
  {
    if p != [] { SlotNotsClean(Child(e, p[0]), p[1..], x); }
  }

  lemma {:induction false} FoldNotsClean(e: Expr)
    requires NotsClean(e)
    ensures NotsClean(EliminateYn(e))
  {
    match e
    case And(l, r) => FoldNotsClean(l); FoldNotsClean(r);
    case Or(l, r) => FoldNotsClean(l); FoldNotsClean(r);
    case _ =>
  }

  lemma JoinNotsClean(j: Junction, e1: Expr, e2: Expr)
    requires Join(j, e1, e2).Some? && NotsClean(e1)
    ensures NotsClean(Join(j, e1, e2).value)
  {}

  lemma {:induction false} SlotClean(e: Expr, p: Path)
    requires IsPath(e, p) && Clean(e)
    ensures Clean(Get(e, p))
  {
    if p != [] { SlotClean(Child(e, p[0]), p[1..]); }
  }

  // ----- y/n operands left behind for folding -----

  lemma {:induction false} UnfoldedSlot(e: Expr, p: Path)
    requires IsPath(e, p)
    ensures p != [] && IsYN(Get(e, p)) ==> !YnFree(e)
    ensures !YnFree(Get(e, p)) ==> !YnFree(e)
  {
    if p != [] { UnfoldedSlot(Child(e, p[0]), p[1..]); }
  }

  lemma {:induction false} PutKeepsUnfolded(e: Expr, p: Path, x: Expr)
    requires IsPath(e, p) && !YnFree(e) && !IsYN(Get(e, p))
    requires !YnFree(Get(e, p)) ==> !YnFree(x)
    ensures !YnFree(Put(e, p, x))
  {
    if p != [] {
      var c := Child(e, p[0]);
      if !YnFree(c) {
        PutKeepsUnfolded(c, p[1..], x);
      }
    }
  }

  lemma {:induction false} FoldingShrinks(e: Expr)
    requires !YnFree(e)
    ensures Size(EliminateYn(e)) < Size(e)
  {
    var l, r := e.left, e.right;
    if !YnFree(l) { FoldingShrinks(l); }
    if !YnFree(r) { FoldingShrinks(r); }
  }

  // ----- one pass over one level -----

  /** The value in any environment never drops. */
  ghost predicate Below(a: Expr, b: Expr) {
    forall env: Env :: Value(a, env) <= Value(b, env)
  }

  /** The value never drops, and a clash-free expression keeps its value and stays clash-free. No
      NOT appears above anything but a symbol. */
  ghost predicate Keeps(a: Expr, b: Expr) {
    && Constants(b) <= Constants(a)
    && (NotsOverSymbols(a) ==> NotsOverSymbols(b))
    && (NotsClean(a) ==> NotsClean(b))
    && Below(a, b)
    && (ClashFree(Constants(a)) ==> Equivalent(a, b))
  }

  lemma ClashFreeSubset(cs: set<(Symbol, Symbol)>, ds: set<(Symbol, Symbol)>)
    requires ds <= cs && ClashFree(cs)
    ensures ClashFree(ds)
  {
    forall s, b, c | MayTest(ds, s, b) && MayTest(ds, s, c) && b != c ensures !Clash(b, c) {
      assert MayTest(cs, s, b) && MayTest(cs, s, c);
    }
  }

  lemma KeepsTwice(a: Expr, b: Expr, c: Expr)
    requires Keeps(a, b) && Keeps(b, c)
    ensures Keeps(a, c)
  {
    if ClashFree(Constants(a)) { ClashFreeSubset(Constants(a), Constants(b)); }
  }

  /** What walking a level does to its tree, `joined` telling whether any pair was joined. */
  ghost predicate Pass(j: Junction, a: Expr, b: Expr, joined: bool) {
    && Keeps(a, b)
    && Spine(j, b) == Spine(j, a)
    && Size(b) <= Size(a)
    && (joined || !YnFree(a) ==> !YnFree(b))
    && (!joined ==> b == a)
  }

  lemma PassTwice(j: Junction, a: Expr, b: Expr, c: Expr, x: bool, y: bool)
    requires Pass(j, a, b, x) && Pass(j, b, c, y)
    ensures Pass(j, a, c, x || y)
  {
    KeepsTwice(a, b, c);
  }

  lemma {:induction false} ReplaceSlot(j: Junction, e: Expr, p: Path, x: Expr)
    requires IsOperand(j, e, p)
    ensures IsPath(e, p)
    ensures Equivalent(Get(e, p), x) ==> Equivalent(e, Put(e, p, x))
    ensures Below(Get(e, p), x) ==> Below(e, Put(e, p, x))
  {
    SpineSlot(j, e, p);
    forall env: Env
      ensures Value(Get(e, p), env) == Value(x, env) ==> Value(e, env) == Value(Put(e, p, x), env)
      ensures Value(Get(e, p), env) <= Value(x, env) ==> Value(e, env) <= Value(Put(e, p, x), env)
    {
      GetPut(e, p, x);
      OperandContribution(j, e, p, x, env);
      OperandContribution(j, e, p, Get(e, p), env);
    }
  }

  /** A pass over the level inside one operand is a pass over the whole. */
  lemma {:induction false} NestedPass(j: Junction, j2: Junction, e: Expr, p: Path, x: Expr, joined: bool)
    requires IsOperand(j, e, p) && IsPath(e, p) && IsNode(j2, Get(e, p)) && Pass(j2, Get(e, p), x, joined)
    ensures Pass(j, e, Put(e, p, x), joined)
  {
    var y := Get(e, p);
    assert j2 != j by { SpineSlot(j, e, p); }
    GetPut(e, p, x);
    PutKeepsSpine(j, e, p, x);
    SlotConstants(e, p, x);
    if NotsOverSymbols(e) { SlotNots(e, p, x); }
    if NotsClean(e) { SlotNotsClean(e, p, x); }
    if !YnFree(e) { PutKeepsUnfolded(e, p, x); }
    if joined { UnfoldedSlot(Put(e, p, x), p); }
    ReplaceSlot(j, e, p, x);
    if ClashFree(Constants(e)) { ClashFreeSubset(Constants(e), Constants(y)); }
  }

  /** Overwriting one operand by the unit and another by the join of both. */
  lemma {:induction false} JoinPass(j: Junction, e: Expr, p: Path, q: Path, x: Expr)
    requires IsOperand(j, e, p) && IsOperand(j, e, q) && p != q && IsPath(e, p) && IsPath(e, q)
    requires Join(j, Get(e, p), Get(e, q)) == Some(x)
    ensures IsPath(Put(e, p, Unit(j)), q)
    ensures Pass(j, e, Put(Put(e, p, Unit(j)), q, x), true)
  {
    var e1, e2 := Get(e, p), Get(e, q);
    var mid := Put(e, p, Unit(j));
    PutElsewhere(j, e, p, q, Unit(j));
    var r := Put(mid, q, x);
    SpineSlot(j, e, p);
    SpineSlot(j, e, q);
    JoinForm(j, e1, e2);
    PutKeepsSpine(j, e, p, Unit(j));
    PutKeepsSpine(j, mid, q, x);
    GetPut(e, p, Unit(j));
    GetPut(mid, q, x);
    PutElsewhere(j, mid, q, p, x);
    TipsAreBelowTheRoot(j, e, p, q);
    UnfoldedSlot(r, p);
    JoinKeeps(j, e, p, q, x);
  }

  lemma {:induction false} JoinKeeps(j: Junction, e: Expr, p: Path, q: Path, x: Expr)
    requires IsOperand(j, e, p) && IsOperand(j, e, q) && p != q && IsPath(e, p) && IsPath(e, q)
    requires Join(j, Get(e, p), Get(e, q)) == Some(x)
    ensures IsPath(Put(e, p, Unit(j)), q)
    ensures Keeps(e, Put(Put(e, p, Unit(j)), q, x))
  {
    var e1, e2 := Get(e, p), Get(e, q);
    var mid := Put(e, p, Unit(j));
    PutElsewhere(j, e, p, q, Unit(j));
    SlotConstants(e, p, Unit(j));
    SlotConstants(e, q, x);
    SlotConstants(mid, q, x);
    JoinConstants(j, e1, e2);
    if NotsOverSymbols(e) {
      SlotNots(e, p, Unit(j));
      SlotNots(mid, q, x);
      JoinNots(j, e1, e2);
    }
    if NotsClean(e) {
      SlotNotsClean(e, p, Unit(j));
      SlotNotsClean(mid, q, x);
      JoinNotsClean(j, e1, e2);
    }
    if ClashFree(Constants(e)) { ClashFreeSubset(Constants(e), Constants(e1) + Constants(e2)); }
    forall env: Env
      ensures Value(e, env) <= Value(Put(mid, q, x), env)
      ensures ClashFree(Constants(e)) ==> Value(e, env) == Value(Put(mid, q, x), env)
    {
      JoinValue(j, e, p, q, x, env);
    }
  }

  lemma JoinNots(j: Junction, e1: Expr, e2: Expr)
    requires Join(j, e1, e2).Some? && NotsOverSymbols(e1)
    ensures NotsOverSymbols(Join(j, e1, e2).value)
  {}

  lemma TipsAreBelowTheRoot(j: Junction, e: Expr, p: Path, q: Path)
    requires IsOperand(j, e, p) && IsOperand(j, e, q) && p != q
    ensures p != [] && q != []
  {}

  lemma JoinForm(j: Junction, e1: Expr, e2: Expr)
    requires Join(j, e1, e2).Some? && !IsNode(j, e1)
    ensures !IsNode(j, Join(j, e1, e2).value)
    ensures Size(Join(j, e1, e2).value) + 1 <= Size(e1) + Size(e2)
  {}

  lemma JoinedPair(j: Junction, e1: Expr, e2: Expr, env: Env)
    requires Join(j, e1, e2).Some?
    ensures var v, w := Value(Join(j, e1, e2).value, env), Combine(j, Value(e1, env), Value(e2, env));
            w <= v && (!(j == Conj && ClashingJoin(e1, e2)) ==> v == w)
  {
    if j == Disj {
      JoinOrPreservesValue(e1, e2, env);
    } else {
      JoinAndNeverDrops(e1, e2, env);
      if !ClashingJoin(e1, e2) { JoinAndPreservesValue(e1, e2, env); }
    }
  }

  lemma {:induction false} JoinValue(j: Junction, e: Expr, p: Path, q: Path, x: Expr, env: Env)
    requires IsOperand(j, e, p) && IsOperand(j, e, q) && p != q && IsPath(e, p) && IsPath(e, q)
    requires Join(j, Get(e, p), Get(e, q)) == Some(x)
    ensures IsPath(Put(e, p, Unit(j)), q)
    ensures Value(e, env) <= Value(Put(Put(e, p, Unit(j)), q, x), env)
    ensures !(j == Conj && ClashingJoin(Get(e, p), Get(e, q))) ==>
              Value(Put(Put(e, p, Unit(j)), q, x), env) == Value(e, env)
  {
    var e1, e2 := Get(e, p), Get(e, q);
    var mid := Put(e, p, Unit(j));
    PutElsewhere(j, e, p, q, Unit(j));
    PutKeepsSpine(j, e, p, Unit(j));
    GetPut(e, p, e1);
    GetPut(mid, q, e2);
    OperandContribution(j, e, p, e1, env);
    OperandContribution(j, mid, q, e2, env);
    OperandContribution(j, mid, q, x, env);
    JoinedPair(j, e1, e2, env);
    var c, v1, v2 := Value(Put(mid, q, Unit(j)), env), Value(e1, env), Value(e2, env);
    assert Combine(j, Combine(j, c, v2), v1) == Combine(j, c, Combine(j, v1, v2));
  }

  // ----- when nothing is left to do -----

  /** No two operands of one level can be joined, here or inside any operand. */
  ghost predicate Settled(e: Expr)
    decreases Size(e), 2
  {
    JunctionOf(e).Some? ==> SettledBelow(JunctionOf(e).value, e, [], [])
  }

  /** The same for all operands below slot p against all operands below slot q. */
  ghost predicate SettledBelow(j: Junction, e: Expr, p: Path, q: Path)
    requires IsNode(j, e)
    decreases Size(e), 1
  {
    forall a, b :: SettledPair(j, e, p, q, a, b)
  }

  ghost predicate SettledPair(j: Junction, e: Expr, p: Path, q: Path, a: Path, b: Path)
    requires IsNode(j, e)
    decreases Size(e), 0
  {
    IsOperand(j, e, a) && IsOperand(j, e, b) && a != b && p <= a && q <= b ==>
      && IsPath(e, a) && IsPath(e, b)
      && !Joinable(j, Get(e, a), Get(e, b))
      && (a != [] ==> Settled(Get(e, a)))
  }

  lemma SettledByFirst(j: Junction, e: Expr, p: Path, q: Path)
    requires IsNode(j, e) && InShape(Spine(j, e), p) && At(Spine(j, e), p).Fork?
    requires SettledBelow(j, e, p + [false], q) && SettledBelow(j, e, p + [true], q)
    ensures SettledBelow(j, e, p, q)
  {
    forall a, b ensures SettledPair(j, e, p, q, a, b) {
      if IsOperand(j, e, a) && p <= a {
        assert |a| == |p| ==> a == p;
        assert p + [a[|p|]] <= a;
        if a[|p|] { assert SettledPair(j, e, p + [true], q, a, b); }
        else { assert SettledPair(j, e, p + [false], q, a, b); }
      }
    }
  }

  lemma SettledBySecond(j: Junction, e: Expr, p: Path, q: Path)
    requires IsNode(j, e) && InShape(Spine(j, e), q) && At(Spine(j, e), q).Fork?
    requires SettledBelow(j, e, p, q + [false]) && SettledBelow(j, e, p, q + [true])
    ensures SettledBelow(j, e, p, q)
  {
    forall a, b ensures SettledPair(j, e, p, q, a, b) {
      if IsOperand(j, e, b) && q <= b {
        assert |b| == |q| ==> b == q;
        assert q + [b[|q|]] <= b;
        if b[|q|] { assert SettledPair(j, e, p, q + [true], a, b); }
        else { assert SettledPair(j, e, p, q + [false], a, b); }
      }
    }
  }

  /** At a pair of operands, only that pair is left to look at. */
  lemma SettledAtTips(j: Junction, e: Expr, p: Path, q: Path)
    requires IsNode(j, e) && IsOperand(j, e, p) && IsOperand(j, e, q)
    requires SettledPair(j, e, p, q, p, q)
    ensures SettledBelow(j, e, p, q)
  {
    forall a, b ensures SettledPair(j, e, p, q, a, b) {
      if IsOperand(j, e, a) && IsOperand(j, e, b) && p <= a && q <= b {
        TipIsLast(Spine(j, e), p, a);
        TipIsLast(Spine(j, e), q, b);
      }
    }
  }

  lemma SettledFurtherDown(j: Junction, e: Expr, p: Path, q: Path)
    requires IsNode(j, e) && SettledBelow(j, e, p, q)
    ensures forall side :: SettledBelow(j, e, p + [side], q) && SettledBelow(j, e, p, q + [side])
  {
    forall side, a, b ensures SettledPair(j, e, p + [side], q, a, b) && SettledPair(j, e, p, q + [side], a, b) {
      assert SettledPair(j, e, p, q, a, b);
      assert p + [side] <= a ==> p <= a;
      assert q + [side] <= b ==> q <= b;
    }
  }

  lemma SettledTips(j: Junction, e: Expr, p: Path, q: Path)
    requires IsNode(j, e) && SettledBelow(j, e, p, q) && IsOperand(j, e, p) && IsOperand(j, e, q) && p != q
    ensures IsPath(e, p) && IsPath(e, q) && !Joinable(j, Get(e, p), Get(e, q)) && Settled(Get(e, p))
  {
    assert SettledPair(j, e, p, q, p, q);
    TipsAreBelowTheRoot(j, e, p, q);
  }

  /** A level of two operands. */
  lemma SettledNode(j: Junction, l: Expr, r: Expr)
    requires !IsNode(j, l) && !IsNode(j, r) && Settled(l) && Settled(r)
    requires !Joinable(j, l, r) && !Joinable(j, r, l)
    ensures Settled(Node(j, l, r))
  {
    var e := Node(j, l, r);
    assert Spine(j, e) == Fork(Tip, Tip);
    assert Get(e, [false]) == l && Get(e, [true]) == r;
    forall a, b ensures SettledPair(j, e, [], [], a, b) {
      if IsOperand(j, e, a) && IsOperand(j, e, b) && a != b {
        TwoSlots(a);
        TwoSlots(b);
      }
    }
  }

  lemma TwoSlots(p: Path)
    requires InShape(Fork(Tip, Tip), p) && At(Fork(Tip, Tip), p).Tip?
    ensures p == [false] || p == [true]
  {
    assert p[1..] == [];
  }

  // ----- no duplicates -----

  /** At every level, here and inside every operand, different slots hold different operands, also
      up to the order and grouping of what is inside them. */
  ghost predicate Distinct(e: Expr)
    decreases Size(e), 1
  {
    JunctionOf(e).Some? ==> forall a, b :: DistinctPair(JunctionOf(e).value, e, a, b)
  }

  ghost predicate DistinctPair(j: Junction, e: Expr, a: Path, b: Path)
    requires IsNode(j, e)
    decreases Size(e), 0
  {
    IsOperand(j, e, a) && IsOperand(j, e, b) && a != b ==>
      && IsPath(e, a) && IsPath(e, b)
      && Flatten(Get(e, a)) != Flatten(Get(e, b))
      && (a != [] ==> Distinct(Get(e, a)))
  }

  /** What is left on a clean expression has no duplicates. */
  lemma {:induction false} SettledIsDistinct(e: Expr)
    requires Settled(e) && Clean(e)
    ensures Distinct(e)
    decreases Size(e)
  {
    if JunctionOf(e).Some? {
      var j := JunctionOf(e).value;
      forall a, b ensures DistinctPair(j, e, a, b) {
        if IsOperand(j, e, a) && IsOperand(j, e, b) && a != b {
          assert SettledPair(j, e, [], [], a, b);
          TipsAreBelowTheRoot(j, e, a, b);
          SlotClean(e, a);
          SlotClean(e, b);
          EqIsFlatEquality(Get(e, a), Get(e, b));
          SettledIsDistinct(Get(e, a));
        }
      }
    }
  }

  /** The slots of one level hold different operands. */
  ghost predicate LevelDistinct(j: Junction, e: Expr) {
    forall a, b :: IsOperand(j, e, a) && IsOperand(j, e, b) && a != b ==>
      IsPath(e, a) && IsPath(e, b) && Flatten(Get(e, a)) != Flatten(Get(e, b))
  }

  lemma ChildSlot(j: Junction, e: Expr, side: bool, p: Path)
    requires IsNode(j, e)
    ensures IsOperand(j, e, [side] + p) <==> IsOperand(j, Child(e, side), p)
    ensures IsPath(e, [side] + p) <==> IsPath(Child(e, side), p)
    ensures IsPath(Child(e, side), p) ==> Get(e, [side] + p) == Get(Child(e, side), p)
  {
    assert ([side] + p)[1..] == p;
  }

  lemma ChildDistinct(j: Junction, e: Expr, side: bool)
    requires IsNode(j, e) && LevelDistinct(j, e)
    ensures LevelDistinct(j, Child(e, side))
  {
    var c := Child(e, side);
    forall a, b | IsOperand(j, c, a) && IsOperand(j, c, b) && a != b
      ensures IsPath(c, a) && IsPath(c, b) && Flatten(Get(c, a)) != Flatten(Get(c, b))
    {
      ChildSlot(j, e, side, a);
      ChildSlot(j, e, side, b);
      assert ([side] + a)[1..] == a && ([side] + b)[1..] == b;
    }
  }

  /** Every operand stands in some slot. */
  lemma {:induction false} OperandHasSlot(j: Junction, e: Expr, f: Flat) returns (p: Path)
    requires f in Operands(j, e)
    ensures IsOperand(j, e, p) && IsPath(e, p) && Flatten(Get(e, p)) == f
  {
    if IsNode(j, e) {
      var side := f !in Operands(j, e.left);
      var q := OperandHasSlot(j, Child(e, side), f);
      ChildSlot(j, e, side, q);
      p := [side] + q;
    } else {
      p := [];
    }
  }

  /** So every operand of the level occurs once. */
  lemma {:induction false} OccursOnce(j: Junction, e: Expr, f: Flat)
    requires LevelDistinct(j, e)
    ensures Operands(j, e)[f] <= 1
  {
    if IsNode(j, e) {
      ChildDistinct(j, e, false);
      ChildDistinct(j, e, true);
      OccursOnce(j, e.left, f);
      OccursOnce(j, e.right, f);
      if f in Operands(j, e.left) && f in Operands(j, e.right) {
        var p := OperandHasSlot(j, e.left, f);
        var q := OperandHasSlot(j, e.right, f);
        ChildSlot(j, e, false, p);
        ChildSlot(j, e, true, q);
        assert false;
      }
    }
  }

  lemma NoOperandTwice(j: Junction, e: Expr, f: Flat)
    requires IsNode(j, e) && Distinct(e)
    ensures Operands(j, e)[f] <= 1
  {
    assert JunctionOf(e) == Some(j);
    forall a, b | IsOperand(j, e, a) && IsOperand(j, e, b) && a != b
      ensures IsPath(e, a) && IsPath(e, b) && Flatten(Get(e, a)) != Flatten(Get(e, b))
    {
      assert DistinctPair(j, e, a, b);
    }
    OccursOnce(j, e, f);
  }

  /** A pass over the level at slot base, seen from the root of the tree. */
  ghost predicate Walked(j: Junction, r0: Expr, r1: Expr, base: Path, joined: bool) {
    && IsPath(r0, base) && IsPath(r1, base)
    && r1 == Put(r0, base, Get(r1, base))
    && Pass(j, Get(r0, base), Get(r1, base), joined)
  }

  lemma WalkedTwice(j: Junction, r0: Expr, r1: Expr, r2: Expr, base: Path, x: bool, y: bool)
    requires Walked(j, r0, r1, base, x) && Walked(j, r1, r2, base, y)
    ensures Walked(j, r0, r2, base, x || y)
    ensures !x ==> r1 == r0
    ensures !y ==> r2 == r1
  {
    PutTwice(r0, base, Get(r1, base), Get(r2, base));
    PassTwice(j, Get(r0, base), Get(r1, base), Get(r2, base), x, y);
    GetPut(r0, base, Get(r0, base));
    GetPut(r1, base, Get(r1, base));
  }

  /** Nothing walked is a walk that joins nothing. */
  lemma WalkedNot(j: Junction, r: Expr, base: Path)
    requires IsPath(r, base)
    ensures Walked(j, r, r, base, false)
  {
    GetPut(r, base, Get(r, base));
  }

  /** The two overwrites of a join, seen from the root of the tree. */
  lemma {:induction false} JoinWalk(j: Junction, r: Expr, base: Path, p: Path, q: Path, x: Expr)
    requires IsPath(r, base) && IsOperand(j, Get(r, base), p) && IsOperand(j, Get(r, base), q) && p != q
    requires IsPath(r, base + p) && IsPath(r, base + q)
    requires Join(j, Get(r, base + p), Get(r, base + q)) == Some(x)
    ensures IsPath(Put(r, base + p, Unit(j)), base + q)
    ensures Walked(j, r, Put(Put(r, base + p, Unit(j)), base + q, x), base, true)
  {
    var e := Get(r, base);
    SpineSlot(j, e, p);
    SpineSlot(j, e, q);
    SlotBelow(r, base, p, Unit(j));
    SlotBelow(r, base, q, Unit(j));
    JoinPass(j, e, p, q, x);
    var e' := Put(e, p, Unit(j));
    var r' := Put(r, base + p, Unit(j));
    GetPut(r, base, e');
    SlotBelow(r', base, q, x);
    PutTwice(r, base, e', Put(e', q, x));
    GetPut(r, base, Put(e', q, x));
  }

  /** The tree being rewritten and the global count of rewrites. */
  class Rewriter {
    var root: Expr
    var transCount: nat

    constructor (e: Expr)
      ensures root == e && transCount == 0
    {
      root, transCount := e, 0;
    }

    /** expr_eliminate_dups1 on the slots base+p1 and base+p2 of the level that starts at base. A pass
        joins nothing exactly if nothing below these slots can be joined. */
    method EliminateDups1(j: Junction, base: Path, p1: Path, p2: Path)
      requires IsPath(root, base) && IsNode(j, Get(root, base))
      requires InShape(Spine(j, Get(root, base)), p1) && InShape(Spine(j, Get(root, base)), p2)
      modifies this
      ensures transCount >= old(transCount)
      ensures Walked(j, old(root), root, base, transCount > old(transCount))
      ensures transCount == old(transCount) ==> SettledBelow(j, Get(root, base), p1, p2)
      ensures old(SettledBelow(j, Get(root, base), p1, p2)) ==> transCount == old(transCount)
      decreases Size(Get(root, base)),
                ShapeSize(At(Spine(j, Get(root, base)), p1)) + ShapeSize(At(Spine(j, Get(root, base)), p2)), 1
    {
      ghost var e := Get(root, base);
      SpineSlot(j, e, p1);
      SpineSlot(j, e, p2);
      SlotBelow(root, base, p1, e);
      SlotBelow(root, base, p2, e);
      if IsNode(j, Get(root, base + p1)) {
        WalkFirst(j, base, p1, p2);
      } else if IsNode(j, Get(root, base + p2)) {
        WalkSecond(j, base, p1, p2);
      } else if p1 == p2 {
        WalkedNot(j, root, base);
        SettledAtTips(j, e, p1, p2);
      } else {
        JoinPair(j, base, p1, p2);
      }
    }

    /** Both operands of the operator at the first slot. */
    method WalkFirst(j: Junction, base: Path, p1: Path, p2: Path)
      requires IsPath(root, base) && IsNode(j, Get(root, base))
      requires InShape(Spine(j, Get(root, base)), p1) && InShape(Spine(j, Get(root, base)), p2)
      requires At(Spine(j, Get(root, base)), p1).Fork?
      modifies this
      ensures transCount >= old(transCount)
      ensures Walked(j, old(root), root, base, transCount > old(transCount))
      ensures transCount == old(transCount) ==> SettledBelow(j, Get(root, base), p1, p2)
      ensures old(SettledBelow(j, Get(root, base), p1, p2)) ==> transCount == old(transCount)
      decreases Size(Get(root, base)),
                ShapeSize(At(Spine(j, Get(root, base)), p1)) + ShapeSize(At(Spine(j, Get(root, base)), p2)), 0
    {
      ghost var e := Get(root, base);
      ForkSlots(Spine(j, e), p1);
      if SettledBelow(j, e, p1, p2) { SettledFurtherDown(j, e, p1, p2); }
      EliminateDups1(j, base, p1 + [false], p2);
      ghost var mid, count := root, transCount;
      EliminateDups1(j, base, p1 + [true], p2);
      WalkedTwice(j, old(root), mid, root, base, count > old(transCount), transCount > count);
      if transCount == old(transCount) { SettledByFirst(j, e, p1, p2); }
    }

    /** Both operands of the operator at the second slot. */
    method WalkSecond(j: Junction, base: Path, p1: Path, p2: Path)
      requires IsPath(root, base) && IsNode(j, Get(root, base))
      requires InShape(Spine(j, Get(root, base)), p1) && InShape(Spine(j, Get(root, base)), p2)
      requires At(Spine(j, Get(root, base)), p2).Fork?
      modifies this
      ensures transCount >= old(transCount)
      ensures Walked(j, old(root), root, base, transCount > old(transCount))
      ensures transCount == old(transCount) ==> SettledBelow(j, Get(root, base), p1, p2)
      ensures old(SettledBelow(j, Get(root, base), p1, p2)) ==> transCount == old(transCount)
      decreases Size(Get(root, base)),
                ShapeSize(At(Spine(j, Get(root, base)), p1)) + ShapeSize(At(Spine(j, Get(root, base)), p2)), 0
    {
      ghost var e := Get(root, base);
      ForkSlots(Spine(j, e), p2);
      if SettledBelow(j, e, p1, p2) { SettledFurtherDown(j, e, p1, p2); }
      EliminateDups1(j, base, p1, p2 + [false]);
      ghost var mid, count := root, transCount;
      EliminateDups1(j, base, p1, p2 + [true]);
      WalkedTwice(j, old(root), mid, root, base, count > old(transCount), transCount > count);
      if transCount == old(transCount) { SettledBySecond(j, e, p1, p2); }
    }

    /** The rest of expr_eliminate_dups1, at two different operands. */
    method JoinPair(j: Junction, base: Path, p1: Path, p2: Path)
      requires IsPath(root, base) && IsNode(j, Get(root, base))
      requires IsOperand(j, Get(root, base), p1) && IsOperand(j, Get(root, base), p2) && p1 != p2
      modifies this
      ensures transCount >= old(transCount)
      ensures Walked(j, old(root), root, base, transCount > old(transCount))
      ensures transCount == old(transCount) ==> SettledBelow(j, Get(root, base), p1, p2)
      ensures old(SettledBelow(j, Get(root, base), p1, p2)) ==> transCount == old(transCount)
      decreases Size(Get(root, base)), 0
    {
      if SettledBelow(j, Get(root, base), p1, p2) { SettledTips(j, Get(root, base), p1, p2); }
      SimplifyOperand(j, base, p1);
      ghost var mid, count := root, transCount;
      ghost var e := Get(root, base);
      SpineSlot(j, e, p1);
      SpineSlot(j, e, p2);
      SlotBelow(root, base, p1, Unit(j));
      SlotBelow(root, base, p2, Unit(j));
      var tmp := Join(j, Get(root, base + p1), Get(root, base + p2));
      JoinsExactly(j, Get(root, base + p1), Get(root, base + p2));
      if tmp.Some? {
        JoinWalk(j, root, base, p1, p2, tmp.value);
        root := Put(root, base + p1, Unit(j));
        root := Put(root, base + p2, tmp.value);
        transCount := transCount + 1;
      } else {
        WalkedNot(j, root, base);
      }
      WalkedTwice(j, old(root), mid, root, base, count > old(transCount), transCount > count);
      if transCount == old(transCount) { SettledAtTips(j, e, p1, p2); }
    }

    /** The recursive call on an operand that is itself an && or || level. */
    method SimplifyOperand(j: Junction, base: Path, p1: Path)
      requires IsPath(root, base) && IsNode(j, Get(root, base)) && IsOperand(j, Get(root, base), p1)
      modifies this
      ensures transCount >= old(transCount)
      ensures Walked(j, old(root), root, base, transCount > old(transCount))
      ensures transCount == old(transCount) ==> IsPath(Get(root, base), p1) && Settled(Get(Get(root, base), p1))
      ensures old(IsPath(Get(root, base), p1) && Settled(Get(Get(root, base), p1))) ==> transCount == old(transCount)
      decreases Size(Get(root, base)), 0, 0
    {
      ghost var e := Get(root, base);
      SpineSlot(j, e, p1);
      SlotBelow(root, base, p1, e);
      var inner := JunctionOf(Get(root, base + p1));
      if inner.Some? {
        EliminateDups1(inner.value, base + p1, [], []);
        ghost var x := Get(root, base + p1);
        NestedPass(j, inner.value, e, p1, x, transCount > old(transCount));
        SlotBelow(old(root), base, p1, x);
        GetPut(old(root), base, Put(e, p1, x));
        GetPut(e, p1, x);
      } else {
        WalkedNot(j, root, base);
      }
    }

    /** One pass over the top level. */
    method OnePass()
      modifies this
      ensures Keeps(old(root), root) && Size(root) <= old(Size(root))
      ensures transCount == 0 <==> old(Settled(root))
      ensures transCount == 0 ==> root == old(root)
      ensures transCount > 0 ==> !YnFree(root)
    {
      transCount := 0;
      var j := JunctionOf(root);
      if j.Some? { EliminateDups1(j.value, [], [], []); }
    }

    /** expr_eliminate_dups on a present expression: passes alternate with constant folding until
        a pass joins nothing, which happens because every joining pass leaves a y/n operand whose
        folding shrinks the tree. */
    method EliminateDups()
      modifies this
      ensures Keeps(old(root), root)
      ensures Settled(root)
      ensures old(Settled(root)) ==> root == old(root)
      ensures !old(Settled(root)) ==> Size(root) < old(Size(root))
      ensures old(Clean(root)) ==> Clean(root) && Distinct(root)
      ensures transCount == old(transCount)
    {
      var oldCount := transCount;
      while true
        invariant Keeps(old(root), root)
        invariant root == old(root) || (!old(Settled(root)) && Size(root) < old(Size(root)))
        invariant old(Clean(root)) ==> Clean(root)
        decreases Size(root)
      {
        ghost var before := root;
        OnePass();
        KeepsTwice(old(root), before, root);
        if transCount == 0 { break; }
        FoldRound(old(root), root);
        root := EliminateYn(root);
      }
      if Clean(root) { SettledIsDistinct(root); }
      transCount := oldCount;
    }
  }

  /** Folding after a pass that joined something. */
  lemma FoldRound(e: Expr, mid: Expr)
    requires Keeps(e, mid) && !YnFree(mid)
    ensures Keeps(e, EliminateYn(mid)) && Size(EliminateYn(mid)) < Size(mid)
    ensures Clean(e) ==> Clean(EliminateYn(mid))
  {
    FoldingShrinks(mid);
    FoldKeeps(mid);
    KeepsTwice(e, mid, EliminateYn(mid));
    EliminateYnIsYnFree(mid);
    CleanParts(e);
    CleanParts(EliminateYn(mid));
  }

  lemma FoldKeeps(e: Expr)
    ensures Keeps(e, EliminateYn(e))
  {
    FoldConstants(e);
    if NotsOverSymbols(e) { FoldNots(e); }
    if NotsClean(e) { FoldNotsClean(e); }
    forall env: Env ensures Value(e, env) == Value(EliminateYn(e), env) {
      EliminateYnPreservesValue(e, env);
    }
  }
}
