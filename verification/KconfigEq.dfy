/** Constant elimination, cancellation of common operands and structural equality
    (nemu/tools/kconfig/expr.c:137-397). */
module KconfigEq {
  import opened Options
  import opened KconfigExpr

  predicate IsYN(e: Expr) {
    e == Sym(YES) || e == Sym(NO)
  }

  // ----- expr_eliminate_yn -----

  /** One &&/|| node whose operands are already simplified. */
  function FoldNode(j: Junction, l: Expr, r: Expr): (e: Expr)
    ensures Size(e) <= Size(Node(j, l, r))
    ensures IsYN(l) || IsYN(r) ==> Size(e) < Size(Node(j, l, r))
  {
    var unit, zero := Unit(j), Unit(if j == Conj then Disj else Conj);
    if l == zero then zero
    else if l == unit then r
    else if r == zero then zero
    else if r == unit then l
    else Node(j, l, r)
  }

  function EliminateYn(e: Expr): (r: Expr)
    ensures Size(r) <= Size(e)
    ensures IsYN(e) ==> r == e
  {
    match e
    case And(l, r) => FoldNode(Conj, EliminateYn(l), EliminateYn(r))
    case Or(l, r) => FoldNode(Disj, EliminateYn(l), EliminateYn(r))
    case _ => e
  }

  lemma FoldNodeValue(j: Junction, l: Expr, r: Expr, env: Env)
    ensures Value(FoldNode(j, l, r), env) == Combine(j, Value(l, env), Value(r, env))
  {
    assert Value(Sym(YES), env) == TRI_YES && Value(Sym(NO), env) == TRI_NO;
  }

  lemma {:induction false} EliminateYnPreservesValue(e: Expr, env: Env)
    ensures Value(EliminateYn(e), env) == Value(e, env)
  {
    if e.And? || e.Or? {
      EliminateYnPreservesValue(e.left, env);
      EliminateYnPreservesValue(e.right, env);
      FoldNodeValue(if e.And? then Conj else Disj, EliminateYn(e.left), EliminateYn(e.right), env);
    }
  }

  /** No constant y or n is left as an operand of && or ||. */
  predicate YnFree(e: Expr) {
    match e
    case And(l, r) => YnFree(l) && YnFree(r) && !IsYN(l) && !IsYN(r)
    case Or(l, r) => YnFree(l) && YnFree(r) && !IsYN(l) && !IsYN(r)
    case _ => true
  }

  lemma {:induction false} EliminateYnIsYnFree(e: Expr)
    ensures YnFree(EliminateYn(e))
    ensures YnFree(e) ==> EliminateYn(e) == e
  {
    match e
    case And(l, r) => EliminateYnIsYnFree(l); EliminateYnIsYnFree(r);
    case Or(l, r) => EliminateYnIsYnFree(l); EliminateYnIsYnFree(r);
    case _ =>
  }

  // ----- cancellation and equality, mutually recursive -----

  /** __expr_eliminate_eq: walk two trees that share no node, replacing every pair of equal
      operands by the unit of the junction. */
  function CancelWalk(j: Junction, e1: Expr, e2: Expr): (r: (Expr, Expr))
    ensures Size(r.0) <= Size(e1) && Size(r.1) <= Size(e2)
    ensures IsNode(j, e1) ==> IsNode(j, r.0)
    ensures IsNode(j, e2) ==> IsNode(j, r.1)
    decreases Size(e1) + Size(e2), if IsNode(j, e1) || IsNode(j, e2) then 0 else 3
  {
    if IsNode(j, e1) then
      var a := CancelWalk(j, e1.left, e2);
      var b := CancelWalk(j, e1.right, a.1);
      (Node(j, a.0, b.0), b.1)
    else if IsNode(j, e2) then
      var a := CancelWalk(j, e1, e2.left);
      var b := CancelWalk(j, a.0, e2.right);
      (b.0, Node(j, a.1, b.1))
    else if e1 == e2 && IsYN(e1) then (e1, e2)
    else if Eq(e1, e2) then (Unit(j), Unit(j))
    else (e1, e2)
  }

  function JunctionOf(e: Expr): Option<Junction> {
    if e.And? then Some(Conj) else if e.Or? then Some(Disj) else None
  }

  /** The walks of expr_eliminate_eq, before the constants are folded away. */
  function Cancel(e1: Expr, e2: Expr): (r: (Expr, Expr))
    ensures Size(r.0) <= Size(e1) && Size(r.1) <= Size(e2)
    decreases Size(e1) + Size(e2), 1, 0
  {
    var a := if JunctionOf(e1).Some? then CancelWalk(JunctionOf(e1).value, e1, e2) else (e1, e2);
    if JunctionOf(a.1).Some? && JunctionOf(a.0) != JunctionOf(a.1)
    then CancelWalk(JunctionOf(a.1).value, a.0, a.1)
    else a
  }

  /** expr_eliminate_eq on two present expressions. */
  function EliminateEq(e1: Expr, e2: Expr): (Expr, Expr)
    decreases Size(e1) + Size(e2), 1, 1
  {
    var a := Cancel(e1, e2);
    (EliminateYn(a.0), EliminateYn(a.1))
  }

  /** expr_eq on two present expressions. */
  predicate Eq(e1: Expr, e2: Expr)
    decreases Size(e1) + Size(e2), 2
  {
    match e1
    case Sym(s) => e2.Sym? && e2.sym == s
    case Cmp(op, a, b) => e2 == e1
    case Not(a) => e2.Not? && Eq(a, e2.arg)
    case And(_, _) => e2.And? && SameAfterCancelling(e1, e2)
    case Or(_, _) => e2.Or? && SameAfterCancelling(e1, e2)
  }

  predicate SameAfterCancelling(e1: Expr, e2: Expr)
    decreases Size(e1) + Size(e2), 1, 2
  {
    var a := EliminateEq(e1, e2);
    a.0.Sym? && a.1 == a.0
  }

  predicate IsYes(e: Option<Expr>) {
    e == None || e == Some(Sym(YES))
  }

  /** expr_eq, where an absent expression is yes. */
  predicate EqOpt(e1: Option<Expr>, e2: Option<Expr>) {
    if e1.None? || e2.None? then IsYes(e1) && IsYes(e2) else Eq(e1.value, e2.value)
  }

  // ----- soundness -----

  lemma NodeValue(j: Junction, l: Expr, r: Expr, env: Env)
    ensures Value(Node(j, l, r), env) == Combine(j, Value(l, env), Value(r, env))
  {}

  lemma CombineLaws(j: Junction, c1: Tristate, c2: Tristate, x: Tristate, y: Tristate)
    ensures Combine(j, Combine(j, c1, x), Combine(j, c2, y)) == Combine(j, Combine(j, c1, c2), Combine(j, x, y))
    ensures Combine(j, c1, Combine(j, c2, x)) == Combine(j, Combine(j, c1, c2), x)
  {}

  /** c is a common factor of e1 and e2 with remainders r1 and r2. */
  predicate Factors(j: Junction, c: Tristate, e1: Expr, r1: Expr, e2: Expr, r2: Expr, env: Env) {
    && Value(e1, env) == Combine(j, c, Value(r1, env))
    && Value(e2, env) == Combine(j, c, Value(r2, env))
  }

  /** What a walk removed: one value that, joined to each remainder, gives back each original. */
  lemma {:induction false} CancelWalkCommonFactor(j: Junction, e1: Expr, e2: Expr, env: Env)
    returns (c: Tristate)
    ensures var r := CancelWalk(j, e1, e2); Factors(j, c, e1, r.0, e2, r.1, env)
    decreases Size(e1) + Size(e2), if IsNode(j, e1) || IsNode(j, e2) then 0 else 3, 0
  {
    if IsNode(j, e1) {
      var a := CancelWalk(j, e1.left, e2);
      var b := CancelWalk(j, e1.right, a.1);
      var c1 := CancelWalkCommonFactor(j, e1.left, e2, env);
      var c2 := CancelWalkCommonFactor(j, e1.right, a.1, env);
      NodeValue(j, e1.left, e1.right, env);
      NodeValue(j, a.0, b.0, env);
      CombineLaws(j, c1, c2, Value(a.0, env), Value(b.0, env));
      CombineLaws(j, c1, c2, Value(b.1, env), Value(b.1, env));
      c := Combine(j, c1, c2);
    } else if IsNode(j, e2) {
      var a := CancelWalk(j, e1, e2.left);
      var b := CancelWalk(j, a.0, e2.right);
      var c1 := CancelWalkCommonFactor(j, e1, e2.left, env);
      var c2 := CancelWalkCommonFactor(j, a.0, e2.right, env);
      NodeValue(j, e2.left, e2.right, env);
      NodeValue(j, a.1, b.1, env);
      CombineLaws(j, c1, c2, Value(a.1, env), Value(b.1, env));
      CombineLaws(j, c1, c2, Value(b.0, env), Value(b.0, env));
      c := Combine(j, c1, c2);
    } else if Eq(e1, e2) && !(e1 == e2 && IsYN(e1)) {
      EqIsSound(e1, e2, env);
      c := Value(e1, env);
    } else {
      c := Value(Unit(j), env);
    }
  }

  /** An order between the remainders r1 and r2 is an order between the originals. */
  predicate Reflects(r1: Expr, r2: Expr, e1: Expr, e2: Expr, env: Env) {
    && (Value(r1, env) <= Value(r2, env) ==> Value(e1, env) <= Value(e2, env))
    && (Value(r1, env) >= Value(r2, env) ==> Value(e1, env) >= Value(e2, env))
  }

  lemma {:induction false} WalkReflectsOrder(j: Junction, e1: Expr, e2: Expr, env: Env)
    ensures var r := CancelWalk(j, e1, e2); Reflects(r.0, r.1, e1, e2, env)
    decreases Size(e1) + Size(e2), if IsNode(j, e1) || IsNode(j, e2) then 0 else 3, 1
  {
    var c := CancelWalkCommonFactor(j, e1, e2, env);
  }

  /** Cancelling can only weaken a comparison: an order between the remainders is an order
      between the originals, and so is equality. */
  lemma {:induction false} CancelReflectsOrder(e1: Expr, e2: Expr, env: Env)
    ensures var r := Cancel(e1, e2); Reflects(r.0, r.1, e1, e2, env)
    decreases Size(e1) + Size(e2), 1, 0
  {
    var a := if JunctionOf(e1).Some? then CancelWalk(JunctionOf(e1).value, e1, e2) else (e1, e2);
    if JunctionOf(e1).Some? { WalkReflectsOrder(JunctionOf(e1).value, e1, e2, env); }
    if JunctionOf(a.1).Some? && JunctionOf(a.0) != JunctionOf(a.1) {
      WalkReflectsOrder(JunctionOf(a.1).value, a.0, a.1, env);
    }
  }

  lemma {:induction false} EqIsSound(e1: Expr, e2: Expr, env: Env)
    requires Eq(e1, e2)
    ensures Value(e1, env) == Value(e2, env)
    decreases Size(e1) + Size(e2), 2
  {
    match e1
    case Sym(_) =>
    case Cmp(_, _, _) =>
    case Not(a) => EqIsSound(a, e2.arg, env);
    case And(_, _) => SameAfterCancellingIsSound(e1, e2, env);
    case Or(_, _) => SameAfterCancellingIsSound(e1, e2, env);
  }

  lemma {:induction false} SameAfterCancellingIsSound(e1: Expr, e2: Expr, env: Env)
    requires SameAfterCancelling(e1, e2)
    ensures Value(e1, env) == Value(e2, env)
    decreases Size(e1) + Size(e2), 1, 2
  {
    var a := Cancel(e1, e2);
    EliminateYnPreservesValue(a.0, env);
    EliminateYnPreservesValue(a.1, env);
    CancelReflectsOrder(e1, e2, env);
  }

  lemma EqOptIsSound(e1: Option<Expr>, e2: Option<Expr>, env: Env)
    requires EqOpt(e1, e2)
    ensures ValueOpt(e1, env) == ValueOpt(e2, env)
  {
    if e1.Some? && e2.Some? { EqIsSound(e1.value, e2.value, env); }
  }

  /** The superset test: when cancelling leaves y on the right, the left is never above it. */
  lemma EliminateEqSuperset(e1: Expr, e2: Expr, env: Env)
    requires EliminateEq(e1, e2).1 == Sym(YES)
    ensures Value(e1, env) <= Value(e2, env)
  {
    var a := Cancel(e1, e2);
    EliminateYnPreservesValue(a.1, env);
    CancelReflectsOrder(e1, e2, env);
  }

  // ----- what expr_eq decides -----

  /** An expression up to the order and grouping of the operands of each && and ||. */
  datatype Flat = Atom(e: Expr) | Neg(f: Flat) | Group(j: Junction, operands: multiset<Flat>)

  ghost function Flatten(e: Expr): Flat
    decreases Size(e), 0
  {
    match e
    case Not(a) => Neg(Flatten(a))
    case And(l, r) => Group(Conj, Operands(Conj, l) + Operands(Conj, r))
    case Or(l, r) => Group(Disj, Operands(Disj, l) + Operands(Disj, r))
    case _ => Atom(e)
  }

  /** The operands of one level, with units of the junction left out. */
  ghost function Operands(j: Junction, e: Expr): multiset<Flat>
    decreases Size(e), 1
  {
    if IsNode(j, e) then Operands(j, e.left) + Operands(j, e.right)
    else if e == Unit(j) then multiset{}
    else multiset{Flatten(e)}
  }

  /** No y or n stands as an operand of && or || anywhere, also below NOT. */
  predicate Clean(e: Expr) {
    match e
    case Not(a) => Clean(a)
    case And(l, r) => Clean(l) && Clean(r) && !IsYN(l) && !IsYN(r)
    case Or(l, r) => Clean(l) && Clean(r) && !IsYN(l) && !IsYN(r)
    case _ => true
  }

  lemma {:induction false} CleanIsFolded(e: Expr)
    requires Clean(e)
    ensures EliminateYn(e) == e
  {
    match e
    case And(l, r) => CleanIsFolded(l); CleanIsFolded(r);
    case Or(l, r) => CleanIsFolded(l); CleanIsFolded(r);
    case _ =>
  }

  /** The state of a tree during a walk: originally free of y/n operands, some now units. */
  predicate PartlyCancelled(j: Junction, e: Expr) {
    if IsNode(j, e) then PartlyCancelled(j, e.left) && PartlyCancelled(j, e.right)
    else e == Unit(j) || (Clean(e) && !IsYN(e))
  }

  lemma {:induction false} CleanIsPartlyCancelled(j: Junction, e: Expr)
    requires Clean(e) && !IsYN(e)
    ensures PartlyCancelled(j, e)
  {
    if IsNode(j, e) {
      CleanIsPartlyCancelled(j, e.left);
      CleanIsPartlyCancelled(j, e.right);
    }
  }

  /** The walk leaves each side without the operands it shares with the other, counted. */
  ghost predicate WalkSubtracts(j: Junction, e1: Expr, e2: Expr) {
    var r := CancelWalk(j, e1, e2);
    && PartlyCancelled(j, r.0) && PartlyCancelled(j, r.1)
    && Operands(j, r.0) == Operands(j, e1) - Operands(j, e2)
    && Operands(j, r.1) == Operands(j, e2) - Operands(j, e1)
  }

  lemma {:induction false} SubtractsOnFirst(j: Junction, e1: Expr, e2: Expr)
    requires IsNode(j, e1) && WalkSubtracts(j, e1.left, e2)
    requires WalkSubtracts(j, e1.right, CancelWalk(j, e1.left, e2).1)
    ensures WalkSubtracts(j, e1, e2)
  {
    var a := CancelWalk(j, e1.left, e2);
    var b := CancelWalk(j, e1.right, a.1);
    assert CancelWalk(j, e1, e2) == (Node(j, a.0, b.0), b.1);
    NodeOperands(j, e1.left, e1.right);
    NodeOperands(j, a.0, b.0);
    DifferenceInTwoSteps(Operands(j, e1.left), Operands(j, e1.right), Operands(j, e2));
  }

  lemma {:induction false} SubtractsOnSecond(j: Junction, e1: Expr, e2: Expr)
    requires !IsNode(j, e1) && IsNode(j, e2) && WalkSubtracts(j, e1, e2.left)
    requires WalkSubtracts(j, CancelWalk(j, e1, e2.left).0, e2.right)
    ensures WalkSubtracts(j, e1, e2)
  {
    var a := CancelWalk(j, e1, e2.left);
    var b := CancelWalk(j, a.0, e2.right);
    assert CancelWalk(j, e1, e2) == (b.0, Node(j, a.1, b.1));
    NodeOperands(j, e2.left, e2.right);
    NodeOperands(j, a.1, b.1);
    DifferenceInTwoSteps(Operands(j, e2.left), Operands(j, e2.right), Operands(j, e1));
  }

  lemma {:induction false} CancelWalkSubtracts(j: Junction, e1: Expr, e2: Expr)
    requires PartlyCancelled(j, e1) && PartlyCancelled(j, e2)
    ensures WalkSubtracts(j, e1, e2)
    decreases Size(e1) + Size(e2), if IsNode(j, e1) || IsNode(j, e2) then 0 else 3
  {
    if IsNode(j, e1) {
      CancelWalkSubtracts(j, e1.left, e2);
      CancelWalkSubtracts(j, e1.right, CancelWalk(j, e1.left, e2).1);
      SubtractsOnFirst(j, e1, e2);
    } else if IsNode(j, e2) {
      CancelWalkSubtracts(j, e1, e2.left);
      CancelWalkSubtracts(j, CancelWalk(j, e1, e2.left).0, e2.right);
      SubtractsOnSecond(j, e1, e2);
    } else {
      if e1 != Unit(j) && e2 != Unit(j) { EqIsFlatEquality(e1, e2); }
      LeavesCancel(j, e1, e2);
    }
  }

  lemma NodeOperands(j: Junction, l: Expr, r: Expr)
    ensures Operands(j, Node(j, l, r)) == Operands(j, l) + Operands(j, r)
    ensures PartlyCancelled(j, Node(j, l, r)) <==> PartlyCancelled(j, l) && PartlyCancelled(j, r)
  {}

  lemma LeafOperands(j: Junction, e: Expr)
    requires !IsNode(j, e)
    ensures Operands(j, e) == if e == Unit(j) then multiset{} else multiset{Flatten(e)}
  {}

  lemma SingletonDifference(f: Flat, g: Flat)
    ensures multiset{f} - multiset{g} == if f == g then multiset{} else multiset{f}
  {}

  /** Leaves that stay. */
  lemma LeavesKept(j: Junction, e1: Expr, e2: Expr)
    requires !IsNode(j, e1) && !IsNode(j, e2) && PartlyCancelled(j, e1) && PartlyCancelled(j, e2)
    requires CancelWalk(j, e1, e2) == (e1, e2)
    requires e1 == Unit(j) || e2 == Unit(j) || Flatten(e1) != Flatten(e2)
    ensures WalkSubtracts(j, e1, e2)
  {
    LeafOperands(j, e1);
    LeafOperands(j, e2);
    SingletonDifference(Flatten(e1), Flatten(e2));
    SingletonDifference(Flatten(e2), Flatten(e1));
  }

  /** Leaves that cancel. */
  lemma LeavesGone(j: Junction, e1: Expr, e2: Expr)
    requires !IsNode(j, e1) && !IsNode(j, e2) && e1 != Unit(j) && e2 != Unit(j)
    requires CancelWalk(j, e1, e2) == (Unit(j), Unit(j)) && Flatten(e1) == Flatten(e2)
    ensures WalkSubtracts(j, e1, e2)
  {
    LeafOperands(j, e1);
    LeafOperands(j, e2);
    LeafOperands(j, Unit(j));
    SingletonDifference(Flatten(e1), Flatten(e2));
  }

  lemma UnitLeaf(j: Junction, e1: Expr, e2: Expr)
    requires !IsNode(j, e1) && !IsNode(j, e2) && PartlyCancelled(j, e1) && PartlyCancelled(j, e2)
    requires e1 == Unit(j) || e2 == Unit(j)
    ensures CancelWalk(j, e1, e2) == (e1, e2)
  {
    assert Eq(e1, e2) ==> e1 == e2;
  }

  lemma {:induction false} LeavesCancel(j: Junction, e1: Expr, e2: Expr)
    requires !IsNode(j, e1) && !IsNode(j, e2)
    requires PartlyCancelled(j, e1) && PartlyCancelled(j, e2)
    requires e1 != Unit(j) && e2 != Unit(j) ==> (Eq(e1, e2) <==> Flatten(e1) == Flatten(e2))
    ensures WalkSubtracts(j, e1, e2)
  {
    if e1 == Unit(j) || e2 == Unit(j) {
      UnitLeaf(j, e1, e2);
      LeavesKept(j, e1, e2);
    } else if Eq(e1, e2) {
      LeavesGone(j, e1, e2);
    } else {
      LeavesKept(j, e1, e2);
    }
  }

  lemma DifferenceInTwoSteps(l: multiset<Flat>, r: multiset<Flat>, m: multiset<Flat>)
    ensures (l - m) + (r - (m - l)) == (l + r) - m
    ensures (m - l) - r == m - (l + r)
  {}

  lemma EqualDifferences(m1: multiset<Flat>, m2: multiset<Flat>)
    ensures m1 - m2 == m2 - m1 ==> m1 == m2
    ensures m1 - m1 == multiset{}
  {
    if m1 - m2 == m2 - m1 {
      forall x ensures m1[x] == m2[x] { assert (m1 - m2)[x] == (m2 - m1)[x]; }
    }
  }

  lemma {:induction false} FoldedNode(j: Junction, l: Expr, r: Expr)
    requires IsYN(l) ==> l == Unit(j)
    requires IsYN(r) ==> r == Unit(j)
    ensures Operands(j, FoldNode(j, l, r)) == Operands(j, l) + Operands(j, r)
    ensures IsYN(FoldNode(j, l, r)) <==> l == r == Unit(j)
  {
    if l == Unit(j) {
      assert FoldNode(j, l, r) == r;
      assert Operands(j, l) == multiset{};
    } else if r == Unit(j) {
      assert FoldNode(j, l, r) == l;
      assert Operands(j, r) == multiset{};
    } else {
      assert FoldNode(j, l, r) == Node(j, l, r);
      NodeOperands(j, l, r);
    }
  }

  /** Folding constants turns a walked tree into the unit exactly when nothing is left of it. */
  lemma {:induction false} FoldedRemainder(j: Junction, e: Expr)
    requires PartlyCancelled(j, e)
    ensures Operands(j, EliminateYn(e)) == Operands(j, e)
    ensures EliminateYn(e) == Unit(j) <==> Operands(j, e) == multiset{}
    ensures IsYN(EliminateYn(e)) ==> EliminateYn(e) == Unit(j)
  {
    if IsNode(j, e) {
      FoldedRemainder(j, e.left);
      FoldedRemainder(j, e.right);
      var l, r := EliminateYn(e.left), EliminateYn(e.right);
      NodeOperands(j, e.left, e.right);
      FoldedNode(j, l, r);
      assert EliminateYn(e) == FoldNode(j, l, r);
    } else if e != Unit(j) {
      CleanIsFolded(e);
    }
  }

  /** On expressions without y/n operands, expr_eq is equality up to order and grouping. */
  lemma {:induction false} EqIsFlatEquality(e1: Expr, e2: Expr)
    requires Clean(e1) && Clean(e2)
    ensures Eq(e1, e2) <==> Flatten(e1) == Flatten(e2)
    decreases Size(e1) + Size(e2), 2
  {
    match e1
    case Not(a) => if e2.Not? { EqIsFlatEquality(a, e2.arg); }
    case And(_, _) => if e2.And? { SameAfterCancellingIsFlatEquality(Conj, e1, e2); }
    case Or(_, _) => if e2.Or? { SameAfterCancellingIsFlatEquality(Disj, e1, e2); }
    case _ =>
  }

  lemma {:induction false} SameAfterCancellingIsFlatEquality(j: Junction, e1: Expr, e2: Expr)
    requires Clean(e1) && Clean(e2) && IsNode(j, e1) && IsNode(j, e2)
    ensures SameAfterCancelling(e1, e2) <==> Operands(j, e1) == Operands(j, e2)
    decreases Size(e1) + Size(e2), 1, 2
  {
    var a := Cancel(e1, e2);
    assert a == CancelWalk(j, e1, e2);
    CleanIsPartlyCancelled(j, e1);
    CleanIsPartlyCancelled(j, e2);
    CancelWalkSubtracts(j, e1, e2);
    FoldedRemainder(j, a.0);
    FoldedRemainder(j, a.1);
    EqualDifferences(Operands(j, e1), Operands(j, e2));
  }

  // ----- when cancelling leaves y on the right -----

  /** Whatever is walked against it, a tree only gains units. */
  lemma {:induction false} WalkKeepsPartly(j: Junction, e1: Expr, e2: Expr)
    requires PartlyCancelled(j, e2)
    ensures PartlyCancelled(j, CancelWalk(j, e1, e2).1)
    decreases Size(e1) + Size(e2)
  {
    if IsNode(j, e1) {
      WalkKeepsPartly(j, e1.left, e2);
      WalkKeepsPartly(j, e1.right, CancelWalk(j, e1.left, e2).1);
    } else if IsNode(j, e2) {
      WalkKeepsPartly(j, e1, e2.left);
      WalkKeepsPartly(j, CancelWalk(j, e1, e2.left).0, e2.right);
    }
  }

  /** A single operand stays as it is or becomes the unit. */
  lemma {:induction false} LeafStaysOrGoes(j: Junction, e1: Expr, e2: Expr)
    requires !IsNode(j, e2)
    ensures CancelWalk(j, e1, e2).1 == e2 || CancelWalk(j, e1, e2).1 == Unit(j)
    decreases Size(e1)
  {
    if IsNode(j, e1) {
      LeafStaysOrGoes(j, e1.left, e2);
      LeafStaysOrGoes(j, e1.right, CancelWalk(j, e1.left, e2).1);
    }
  }

  /** A single operand takes at most one operand of the other side with it. */
  lemma {:induction false} OneAtMost(j: Junction, x: Expr, e: Expr)
    requires !IsNode(j, x) && PartlyCancelled(j, e)
    ensures var r := CancelWalk(j, x, e);
            && (r.0 == x || r.0 == Unit(j)) && |Operands(j, r.1)| + 1 >= |Operands(j, e)|
            && (r.0 == x || x == Unit(j) ==> |Operands(j, r.1)| == |Operands(j, e)|)
    decreases Size(e)
  {
    if IsNode(j, e) {
      var a := CancelWalk(j, x, e.left);
      OneAtMost(j, x, e.left);
      OneAtMost(j, a.0, e.right);
      var b := CancelWalk(j, a.0, e.right);
      NodeOperands(j, e.left, e.right);
      NodeOperands(j, a.1, b.1);
    } else {
      LeafOperands(j, e);
      LeafOperands(j, Unit(j));
    }
  }

  lemma {:induction false} CleanHasOperands(j: Junction, e: Expr)
    requires Clean(e) && !IsYN(e)
    ensures |Operands(j, e)| >= 1 && (IsNode(j, e) ==> |Operands(j, e)| >= 2)
  {
    if IsNode(j, e) {
      CleanHasOperands(j, e.left);
      CleanHasOperands(j, e.right);
      NodeOperands(j, e.left, e.right);
    } else {
      LeafOperands(j, e);
    }
  }

  /** An && on the left: only the first walk matters. */
  lemma OneWalkDecides(d: Expr, base: Expr)
    requires d.And? && Clean(base) && !IsYN(base)
    ensures EliminateEq(d, base).1 == Sym(YES) <==> EliminateYn(CancelWalk(Conj, d, base).1) == Sym(YES)
  {
    var a := CancelWalk(Conj, d, base);
    if base.Or? {
      LeafStaysOrGoes(Conj, d, base);
      CleanIsPartlyCancelled(Disj, base);
      WalkKeepsPartly(Disj, a.0, base);
      FoldedRemainder(Disj, CancelWalk(Disj, a.0, base).1);
      FoldedRemainder(Disj, base);
    } else if !base.And? {
      LeafStaysOrGoes(Conj, d, base);
    }
  }

  lemma SupersetOfAnd(d: Expr, base: Expr)
    requires d.And? && Clean(d) && Clean(base) && !IsYN(base)
    ensures EliminateEq(d, base).1 == Sym(YES) <==> Operands(Conj, base) <= Operands(Conj, d)
  {
    OneWalkDecides(d, base);
    CleanIsPartlyCancelled(Conj, d);
    CleanIsPartlyCancelled(Conj, base);
    CancelWalkSubtracts(Conj, d, base);
    FoldedRemainder(Conj, CancelWalk(Conj, d, base).1);
    NothingLeft(Operands(Conj, base), Operands(Conj, d));
  }

  lemma NothingLeft(a: multiset<Flat>, b: multiset<Flat>)
    ensures a - b == multiset{} <==> a <= b
  {
    if a - b == multiset{} {
      forall x ensures a[x] <= b[x] { assert (a - b)[x] == 0; }
    }
  }

  /** Anything else on the left never absorbs the right. */
  lemma SupersetOfOther(d: Expr, base: Expr)
    requires !d.And? && Clean(d) && !IsYN(d) && Clean(base) && !IsYN(base)
    ensures EliminateEq(d, base).1 != Sym(YES)
  {
    CleanIsPartlyCancelled(Disj, base);
    CleanIsPartlyCancelled(Conj, base);
    CleanHasOperands(Conj, base);
    var a := if d.Or? then CancelWalk(Disj, d, base) else (d, base);
    if d.Or? {
      WalkKeepsPartly(Disj, d, base);
      if !base.Or? { LeafStaysOrGoes(Disj, d, base); }
    }
    if base.And? && a.1 == base {
      OneAtMost(Conj, a.0, base);
      WalkKeepsPartly(Conj, a.0, base);
      FoldedRemainder(Conj, CancelWalk(Conj, a.0, base).1);
    } else if base.Or? && !d.Or? {
      WalkKeepsPartly(Disj, d, base);
      FoldedRemainder(Disj, CancelWalk(Disj, d, base).1);
    } else {
      FoldedRemainder(Disj, a.1);
    }
  }

  /** On trees without constant operands, cancelling leaves y on the right exactly if the left is an &&
      among whose operands, up to order and grouping, are all operands of the right. */
  lemma SupersetExact(d: Expr, base: Expr)
    requires Clean(d) && !IsYN(d) && Clean(base) && !IsYN(base)
    ensures EliminateEq(d, base).1 == Sym(YES) <==> d.And? && Operands(Conj, base) <= Operands(Conj, d)
  {
    if d.And? { SupersetOfAnd(d, base); } else { SupersetOfOther(d, base); }
  }
}
