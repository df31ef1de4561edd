/** Kconfig dependency expressions: the tree, its three-valued meaning and the comparison of
    symbol values (nemu/tools/kconfig/expr.h and expr_calc_value in expr.c). */
module KconfigExpr {
  import opened Options
  import opened Strtol

  /** no = 0, mod = 1, yes = 2, so that AND is min, OR is max and NOT is 2 - x. */
  type Tristate = t: int | 0 <= t <= 2

  const TRI_NO: Tristate := 0
  const TRI_MOD: Tristate := 1
  const TRI_YES: Tristate := 2

  datatype SymbolType = Unknown | Boolean | Tri | Int | Hex | Str

  /** A constant is identified by its text; every other symbol by its name and declared type. */
  datatype Symbol = Const(name: string) | Config(name: string, ty: SymbolType)

  const YES := Const("y")
  const MOD := Const("m")
  const NO := Const("n")

  predicate IsTriConst(s: Symbol) {
    s == YES || s == MOD || s == NO
  }

  function TypeOf(s: Symbol): SymbolType {
    if s.Const? then Unknown else s.ty
  }

  datatype CmpOp = Equal | Unequal | Lth | Leq | Gth | Geq

  datatype Expr =
    | Sym(sym: Symbol)
    | Not(arg: Expr)
    | And(left: Expr, right: Expr)
    | Or(left: Expr, right: Expr)
    | Cmp(op: CmpOp, lsym: Symbol, rsym: Symbol)

  /** The two operators that form a "level" of operands. */
  datatype Junction = Conj | Disj

  predicate IsNode(j: Junction, e: Expr) {
    if j == Conj then e.And? else e.Or?
  }

  function Node(j: Junction, l: Expr, r: Expr): Expr {
    if j == Conj then And(l, r) else Or(l, r)
  }

  /** The operand that changes nothing: y for &&, n for ||. */
  function Unit(j: Junction): Expr {
    if j == Conj then Sym(YES) else Sym(NO)
  }

  function Combine(j: Junction, a: Tristate, b: Tristate): Tristate {
    if j == Conj then (if a < b then a else b) else (if a > b then a else b)
  }

  // ----- environments: what sym_calc_value leaves in each symbol -----

  datatype Setting = Setting(tri: Tristate, text: string)
  type Env = map<Symbol, Setting>

  /** The tristate of a symbol. A boolean is never `mod`; only tristates take all three values;
      constants and untyped symbols are fixed. */
  function TriOf(s: Symbol, env: Env): Tristate {
    if s == YES then TRI_YES
    else if s == MOD then TRI_MOD
    else if s.Const? || s !in env then TRI_NO
    else match s.ty
      case Boolean => if env[s].tri == TRI_NO then TRI_NO else TRI_YES
      case Tri => env[s].tri
      case _ => TRI_NO
  }

  function TriText(t: Tristate): string {
    if t == TRI_NO then "n" else if t == TRI_MOD then "m" else "y"
  }

  /** sym_get_string_value. */
  function TextOf(s: Symbol, env: Env): string {
    match TypeOf(s)
    case Boolean => TriText(TriOf(s, env))
    case Tri => TriText(TriOf(s, env))
    case Unknown => s.name
    case _ => if s in env then env[s].text else ""
  }

  // ----- comparisons -----

  datatype Parsed = Text | Signed(v: int) | Unsigned(v: int)

  function ParseString(text: string, ty: SymbolType): Parsed {
    match ty
    case Boolean => Signed(TriNumber(text))
    case Tri => Signed(TriNumber(text))
    case Int => var n := WholeSigned(text, 10); if n.Some? then Signed(n.value) else Text
    case Hex => var n := WholeUnsigned(text, 16); if n.Some? then Unsigned(n.value) else Text
    case _ => var n := WholeSigned(text, 0); if n.Some? then Signed(n.value) else Text
  }

  function TriNumber(text: string): int {
    if text == "n" then 0 else if text == "m" then 1 else if text == "y" then 2 else -1
  }

  function Sign(a: int, b: int): int {
    if a < b then -1 else if a > b then 1 else 0
  }

  function StrCmp(a: string, b: string): int {
    if a == [] || b == [] then Sign(|a|, |b|)
    else if a[0] != b[0] then Sign(a[0] as int, b[0] as int)
    else StrCmp(a[1..], b[1..])
  }

  function CompareText(t1: string, ty1: SymbolType, t2: string, ty2: SymbolType): int {
    if ty1 == Str && ty2 == Str then StrCmp(t1, t2)
    else
      var p1, p2 := ParseString(t1, ty1), ParseString(t2, ty2);
      if p1.Text? || p2.Text? then StrCmp(t1, t2)
      else if p1.Unsigned? || p2.Unsigned? then Sign(p1.v % TWO_64, p2.v % TWO_64)
      else Sign(p1.v, p2.v)
  }

  function CompareSymbols(a: Symbol, b: Symbol, env: Env): int {
    CompareText(TextOf(a, env), TypeOf(a), TextOf(b, env), TypeOf(b))
  }

  predicate Holds(op: CmpOp, res: int) {
    match op
    case Equal => res == 0
    case Unequal => res != 0
    case Lth => res < 0
    case Leq => res <= 0
    case Gth => res > 0
    case Geq => res >= 0
  }

  function Truth(b: bool): Tristate {
    if b then TRI_YES else TRI_NO
  }

  /** expr_calc_value on a present expression. */
  function Value(e: Expr, env: Env): Tristate {
    match e
    case Sym(s) => TriOf(s, env)
    case Not(a) => 2 - Value(a, env)
    case And(l, r) => Combine(Conj, Value(l, env), Value(r, env))
    case Or(l, r) => Combine(Disj, Value(l, env), Value(r, env))
    case Cmp(op, a, b) => Truth(Holds(op, CompareSymbols(a, b, env)))
  }

  /** expr_calc_value: the absent expression is yes. */
  function ValueOpt(e: Option<Expr>, env: Env): Tristate {
    if e.None? then TRI_YES else Value(e.value, env)
  }

  /** Two expressions mean the same in every environment. */
  ghost predicate Equivalent(a: Expr, b: Expr) {
    forall env: Env :: Value(a, env) == Value(b, env)
  }

  function Size(e: Expr): nat
    ensures Size(e) >= 1
  {
    match e
    case Sym(_) => 1
    case Cmp(_, _, _) => 1
    case Not(a) => 1 + Size(a)
    case And(l, r) => 1 + Size(l) + Size(r)
    case Or(l, r) => 1 + Size(l) + Size(r)
  }

  // ----- facts about comparisons against y, m and n -----

  function TriConst(t: Tristate): Symbol {
    if t == TRI_NO then NO else if t == TRI_MOD then MOD else YES
  }

  lemma StrCmpZero(a: string, b: string)
    ensures StrCmp(a, b) == 0 <==> a == b
  {
    if a != [] && b != [] {
      if a[0] == b[0] {
        StrCmpZero(a[1..], b[1..]);
        assert a == [a[0]] + a[1..] && b == [b[0]] + b[1..];
      }
    }
  }

  /** The texts y, m and n are never numbers, so a comparison with them is textual. */
  lemma TriTextIsNoNumber(t: Tristate)
    ensures ParseString(TriText(t), Unknown) == Text
  {
    var s := TriText(t);
    assert |s| == 1 && SkipSpace(s) == s;
    assert Digit(s[0]) >= 10;
  }

  predicate Logical(s: Symbol) {
    TypeOf(s) == Boolean || TypeOf(s) == Tri
  }

  /** The comparator is exact against y, m and n for boolean and tristate symbols. */
  lemma ComparesExactly(s: Symbol, t: Tristate, env: Env)
    requires Logical(s)
    ensures CompareSymbols(s, TriConst(t), env) == 0 <==> TriOf(s, env) == t
  {
    TriTextIsNoNumber(t);
    assert TextOf(TriConst(t), env) == TriText(t);
    StrCmpZero(TriText(TriOf(s, env)), TriText(t));
  }
}
