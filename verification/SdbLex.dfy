/** The debugger's tokens and make_token, its lexer (nemu/src/monitor/sdb/expr.c:25-76 and 105-201). */
module SdbLex {
  import opened Options

  /** The infix operators that leave a token, named after their text: '>' is recorded as TK_LT and
      '<' as TK_GT. */
  datatype Op = Add | Sub | Mul | Div | Eq | Gt | Lt | And

  datatype Token =
    | Number(text: string)       // TK_DEC and TK_HEX
    | Register(text: string)     // '$' and a name
    | Open | Close
    | Infix(op: Op)
    | Deref

  function PrecOf(op: Op): nat {
    match op
    case And => 1
    case Eq => 2
    case Gt | Lt => 3
    case Add | Sub => 4
    case Mul | Div => 5
  }

  function Prec(t: Token): nat {
    match t
    case Infix(op) => PrecOf(op)
    case Deref => 6
    case Register(_) => 7
    case _ => 100
  }

  // ----- the rules -----

  datatype Class = Digits | HexDigits | Letters | Spaces

  predicate In(cls: Class, c: char) {
    match cls
    case Digits => '0' <= c <= '9'
    case HexDigits => '0' <= c <= '9' || 'a' <= c <= 'f' || 'A' <= c <= 'F'
    case Letters => 'a' <= c <= 'z' || 'A' <= c <= 'Z'
    case Spaces => c == ' '
  }

  /** The length of the longest prefix of characters of a class. */
  function Run(cls: Class, s: string): (n: nat)
    ensures n <= |s|
  {
    if s == [] || !In(cls, s[0]) then 0 else 1 + Run(cls, s[1..])
  }

  /** 0[xX][0-9a-fA-F]+; 0 if it does not match at the start. */
  function HexLength(s: string): (n: nat)
    ensures n <= |s|
  {
    if |s| >= 3 && s[0] == '0' && (s[1] == 'x' || s[1] == 'X') && In(HexDigits, s[2])
    then 2 + Run(HexDigits, s[2..]) else 0
  }

  /** [0-9]+u? */
  function DecLength(s: string): (n: nat)
    ensures n <= |s|
  {
    var n := Run(Digits, s);
    if 0 < n < |s| && s[n] == 'u' then n + 1 else n
  }

  /** \$[a-zA-Z]{1,2}[0-9]{0,2} */
  function RegisterLength(s: string): (n: nat)
    ensures n <= |s|
  {
    if |s| >= 2 && s[0] == '$' && In(Letters, s[1]) then
      var l := if |s| >= 3 && In(Letters, s[2]) then 3 else 2;
      var d := Run(Digits, s[l..]);
      l + (if d > 2 then 2 else d)
    else 0
  }

  datatype Rule =
    | Hex | Dec | Space | Plus | Minus | Times | Over | LeftParen | RightParen
    | EqualEqual | LessEqual | GreaterEqual | Greater | Less | AndAnd | Dollar

  /** s starts with a two-character symbol. */
  predicate Starts(s: string, p: string)
    requires |p| == 2
  {
    |s| >= 2 && s[0] == p[0] && s[1] == p[1]
  }

  /** The first rule that matches at the start of s, and the length of its longest match. */
  function RuleAt(s: string): (r: Option<(Rule, nat)>)
    ensures r.Some? ==> 0 < r.value.1 <= |s|
  {
    if s == [] then None
    else if HexLength(s) > 0 then Some((Hex, HexLength(s)))
    else if DecLength(s) > 0 then Some((Dec, DecLength(s)))
    else if s[0] == ' ' then Some((Space, Run(Spaces, s)))
    else if s[0] == '+' then Some((Plus, 1))
    else if s[0] == '-' then Some((Minus, 1))
    else if s[0] == '*' then Some((Times, 1))
    else if s[0] == '/' then Some((Over, 1))
    else if s[0] == '(' then Some((LeftParen, 1))
    else if s[0] == ')' then Some((RightParen, 1))
    else if Starts(s, "==") then Some((EqualEqual, 2))
    else if Starts(s, "<=") then Some((LessEqual, 2))
    else if Starts(s, ">=") then Some((GreaterEqual, 2))
    else if s[0] == '>' then Some((Greater, 1))
    else if s[0] == '<' then Some((Less, 1))
    else if Starts(s, "&&") then Some((AndAnd, 2))
    else if RegisterLength(s) > 0 then Some((Dollar, RegisterLength(s)))
    else None
  }

  // ----- tokens -----

  /** A '*' is a dereference at the start and after a token of precedence 5 or less. */
  function StarToken(prev: Option<Token>): Token {
    if prev.None? || Prec(prev.value) <= 5 then Deref else Infix(Mul)
  }

  /** strncpy with the length modulo 32. */
  function Copied(s: string): string { s[..|s| % 32] }

  /** The token recorded for a match; spaces, <= and >= leave none. */
  function TokenFor(rule: Rule, lexeme: string, prev: Option<Token>): Option<Token> {
    match rule
    case Hex => Some(Number(Copied(lexeme)))
    case Dec =>
      var u := lexeme != [] && lexeme[|lexeme| - 1] == 'u';
      Some(Number(Copied(if u then lexeme[..|lexeme| - 1] else lexeme)))
    case Space | LessEqual | GreaterEqual => None
    case Plus => Some(Infix(Add))
    case Minus => Some(Infix(Sub))
    case Times => Some(StarToken(prev))
    case Over => Some(Infix(Div))
    case LeftParen => Some(Open)
    case RightParen => Some(Close)
    case EqualEqual => Some(Infix(Eq))
    case Greater => Some(Infix(Gt))
    case Less => Some(Infix(Lt))
    case AndAnd => Some(Infix(And))
    case Dollar => Some(Register(if lexeme == [] then [] else lexeme[1..]))
  }

  /** NoMatch makes expr() fail; TooLong stands for the panic on a match of more than 32 characters. */
  datatype Lexed = Tokens(ts: seq<Token>) | NoMatch | TooLong

  function Join(ts: seq<Token>, r: Lexed): Lexed {
    if r.Tokens? then Tokens(ts + r.ts) else r
  }

  function AsList(t: Option<Token>): seq<Token> { if t.Some? then [t.value] else [] }

  /** One match and the rest. */
  function LexOnce(s: string, prev: Option<Token>): Lexed
    decreases |s|, 0
  {
    if s == [] then Tokens([])
    else match RuleAt(s)
      case None => NoMatch
      case Some((rule, n)) =>
        if n > 32 then TooLong
        else
          var t := TokenFor(rule, s[..n], prev);
          Join(AsList(t), Lex(s[n..], if t.Some? then t else prev))
  }

  /** The tokens of s, which follows prev; LexOnce, folded so that proofs see only the lemmas about it. */
  function Lex(s: string, prev: Option<Token>): Lexed
    decreases |s|, 3
  {
    FoldedLex(s, prev, 1)
  }

  function FoldedLex(s: string, prev: Option<Token>, folds: nat): Lexed
    requires folds <= 1
    decreases |s|, 1 + folds
  {
    if folds > 0 then FoldedLex(s, prev, folds - 1) else LexOnce(s, prev)
  }

  lemma LexIs(s: string, prev: Option<Token>)
    ensures Lex(s, prev) == LexOnce(s, prev)
  {
    assert FoldedLex(s, prev, 1) == FoldedLex(s, prev, 0);
  }

  /** A match of at most 32 characters that leaves a token. */
  lemma LexMatch(s: string, prev: Option<Token>, rule: Rule, n: nat, t: Token)
    requires s != [] && RuleAt(s) == Some((rule, n)) && n <= 32 && TokenFor(rule, s[..n], prev) == Some(t)
    ensures Lex(s, prev) == Join([t], Lex(s[n..], Some(t)))
  {
    LexIs(s, prev);
  }

  lemma JoinTwice(a: seq<Token>, b: seq<Token>, r: Lexed)
    ensures Join(a, Join(b, r)) == Join(a + b, r)
  {
    if r.Tokens? { assert a + (b + r.ts) == a + b + r.ts; }
  }

  function LastOf(ts: seq<Token>): Option<Token> { if ts == [] then None else Some(ts[|ts| - 1]) }

  /** One round of the loop. */
  lemma LexRound(tokens: seq<Token>, s: string)
    requires s != []
    ensures RuleAt(s).None? ==> Join(tokens, Lex(s, LastOf(tokens))) == NoMatch
    ensures RuleAt(s).Some? && RuleAt(s).value.1 > 32 ==> Join(tokens, Lex(s, LastOf(tokens))) == TooLong
    ensures RuleAt(s).Some? && RuleAt(s).value.1 <= 32 ==>
              var n := RuleAt(s).value.1;
              var next := tokens + AsList(TokenFor(RuleAt(s).value.0, s[..n], LastOf(tokens)));
              Join(tokens, Lex(s, LastOf(tokens))) == Join(next, Lex(s[n..], LastOf(next)))
  {
    LexIs(s, LastOf(tokens));
    if RuleAt(s).Some? && RuleAt(s).value.1 <= 32 {
      var n := RuleAt(s).value.1;
      var t := TokenFor(RuleAt(s).value.0, s[..n], LastOf(tokens));
      JoinTwice(tokens, AsList(t), Lex(s[n..], if t.Some? then t else LastOf(tokens)));
      assert tokens + [] == tokens;
    }
  }

  /** The loop of make_token. */
  method MakeToken(e: string) returns (r: Lexed)
    ensures r == Lex(e, None)
  {
    var tokens: seq<Token> := [];
    var rest := e;
    assert Lex(e, None).Tokens? ==> [] + Lex(e, None).ts == Lex(e, None).ts;
    while rest != []
      invariant Lex(e, None) == Join(tokens, Lex(rest, LastOf(tokens)))
      decreases |rest|
    {
      LexRound(tokens, rest);
      var rule := RuleAt(rest);
      if rule.None? {
        return NoMatch;
      }
      var n := rule.value.1;
      if n > 32 {
        return TooLong;
      }
      tokens := tokens + AsList(TokenFor(rule.value.0, rest[..n], LastOf(tokens)));
      rest := rest[n..];
    }
    LexIs([], LastOf(tokens));
    assert tokens + [] == tokens;
    r := Tokens(tokens);
  }

  // ----- literals and what may follow them -----

  /** One literal, short enough to be copied whole. */
  predicate IsAtom(s: string) {
    0 < |s| < 32 && RuleAt(s).Some? && RuleAt(s).value.1 == |s|
    && (RuleAt(s).value.0 == Hex || RuleAt(s).value.0 == Dec || RuleAt(s).value.0 == Dollar)
  }

  function AtomToken(s: string): Token
    requires IsAtom(s)
  {
    TokenFor(RuleAt(s).value.0, s, None).value
  }

  /** What can follow an operand of a printed expression. */
  predicate Delimited(rest: string) {
    rest == [] || rest[0] in " )+-*/=&<>"
  }

  lemma {:induction false} RunStops(cls: Class, s: string, rest: string)
    requires cls != Spaces && Delimited(rest)
    ensures Run(cls, s + rest) == Run(cls, s)
  {
    if s == [] {
      assert s + rest == rest;
    } else {
      assert (s + rest)[1..] == s[1..] + rest;
      RunStops(cls, s[1..], rest);
    }
  }

  lemma HexStops(s: string, rest: string)
    requires IsAtom(s) && Delimited(rest)
    ensures HexLength(s + rest) == HexLength(s)
  {
    if |s| >= 3 {
      assert (s + rest)[2..] == s[2..] + rest;
      RunStops(HexDigits, s[2..], rest);
    }
  }

  lemma RegisterStops(s: string, rest: string)
    requires s != [] && Delimited(rest)
    ensures RegisterLength(s + rest) == RegisterLength(s)
  {
    if |s| >= 2 {
      var l := if |s| >= 3 && In(Letters, s[2]) then 3 else 2;
      assert (s + rest)[l..] == s[l..] + rest;
      RunStops(Digits, s[l..], rest);
    }
  }

  /** A literal ends where a delimiter begins. */
  lemma AtomStops(s: string, rest: string)
    requires IsAtom(s) && Delimited(rest)
    ensures RuleAt(s + rest) == RuleAt(s)
  {
    HexStops(s, rest);
    RunStops(Digits, s, rest);
    RegisterStops(s, rest);
  }

  lemma LexAtom(s: string, rest: string, prev: Option<Token>)
    requires IsAtom(s) && Delimited(rest)
    ensures Lex(s + rest, prev) == Join([AtomToken(s)], Lex(rest, Some(AtomToken(s))))
  {
    AtomStops(s, rest);
    assert (s + rest)[..|s|] == s && (s + rest)[|s|..] == rest;
    LexMatch(s + rest, prev, RuleAt(s).value.0, |s|, AtomToken(s));
  }

  /** A literal's token is a number or a register, after which a '*' is a product. */
  lemma AtomIsOperand(s: string)
    requires IsAtom(s)
    ensures AtomToken(s).Number? || AtomToken(s).Register?
  {}

  // ----- spaces -----

  function Blanks(n: nat): string { if n == 0 then [] else [' '] + Blanks(n - 1) }

  predicate StartsBlank(s: string) { s != [] && s[0] == ' ' }

  lemma {:induction false} BlanksRun(n: nat, rest: string)
    requires !StartsBlank(rest)
    ensures Run(Spaces, Blanks(n) + rest) == n == |Blanks(n)|
  {
    if n == 0 {
      assert Blanks(0) + rest == rest;
    } else {
      assert (Blanks(n) + rest)[1..] == Blanks(n - 1) + rest;
      BlanksRun(n - 1, rest);
    }
  }

  /** Up to 32 spaces leave no trace. */
  lemma LexBlanks(n: nat, rest: string, prev: Option<Token>)
    requires n <= 32 && !StartsBlank(rest)
    ensures Lex(Blanks(n) + rest, prev) == Lex(rest, prev)
  {
    var s := Blanks(n) + rest;
    if n == 0 {
      assert s == rest;
    } else {
      BlanksRun(n, rest);
      assert s[0] == ' ' && Run(Digits, s) == 0 && s[n..] == rest;
      LexIs(s, prev);
    }
  }

  lemma BlanksDelimit(n: nat, rest: string)
    requires Delimited(rest)
    ensures Delimited(Blanks(n) + rest)
  {
    if n == 0 { assert Blanks(n) + rest == rest; }
  }

  // ----- symbols -----

  function OpText(op: Op): string {
    match op
    case Add => "+"
    case Sub => "-"
    case Mul => "*"
    case Div => "/"
    case Eq => "=="
    case Gt => ">"
    case Lt => "<"
    case And => "&&"
  }

  /** The token of a single character. */
  function SymbolToken(c: char, prev: Option<Token>): Token {
    if c == '+' then Infix(Add) else if c == '-' then Infix(Sub) else if c == '/' then Infix(Div)
    else if c == '(' then Open else if c == ')' then Close
    else if c == '>' then Infix(Gt) else if c == '<' then Infix(Lt) else StarToken(prev)
  }

  function SymbolRule(c: char): Rule {
    if c == '+' then Plus else if c == '-' then Minus else if c == '/' then Over
    else if c == '(' then LeftParen else if c == ')' then RightParen
    else if c == '>' then Greater else if c == '<' then Less else Times
  }

  predicate StartsEqual(s: string) { s != [] && s[0] == '=' }

  predicate IsSymbol(c: char) { c in "+-*/()><" }

  lemma SymbolMatches(c: char, rest: string)
    requires IsSymbol(c) && (c in "><" ==> !StartsEqual(rest))
    ensures RuleAt([c] + rest) == Some((SymbolRule(c), 1))
  {
    var s := [c] + rest;
    assert s[0] == c && Run(Digits, s) == 0 && s[1..] == rest;
    assert !Starts(s, "==") && !Starts(s, "<=") && !Starts(s, ">=");
  }

  lemma LexSymbol(c: char, rest: string, prev: Option<Token>)
    requires IsSymbol(c) && (c in "><" ==> !StartsEqual(rest))
    ensures Lex([c] + rest, prev) == Join([SymbolToken(c, prev)], Lex(rest, Some(SymbolToken(c, prev))))
  {
    SymbolMatches(c, rest);
    var s := [c] + rest;
    assert s[1..] == rest && s[..1] == [c];
    LexMatch(s, prev, SymbolRule(c), 1, SymbolToken(c, prev));
  }

  predicate IsPair(op: Op) { op == Eq || op == And }

  lemma PairMatches(op: Op, rest: string)
    requires IsPair(op)
    ensures RuleAt(OpText(op) + rest) == Some((if op == Eq then EqualEqual else AndAnd, 2))
  {
    var s := OpText(op) + rest;
    assert s[0] == (if op == Eq then '=' else '&') && Run(Digits, s) == 0;
    assert Starts(s, OpText(op));
    assert op == And ==> !Starts(s, "==") && !Starts(s, "<=") && !Starts(s, ">=");
  }

  lemma LexPair(op: Op, rest: string, prev: Option<Token>)
    requires IsPair(op)
    ensures Lex(OpText(op) + rest, prev) == Join([Infix(op)], Lex(rest, Some(Infix(op))))
  {
    PairMatches(op, rest);
    var s := OpText(op) + rest;
    assert s[2..] == rest && s[..2] == OpText(op);
    LexMatch(s, prev, if op == Eq then EqualEqual else AndAnd, 2, Infix(op));
  }

  /** An infix operator behind an operand. */
  lemma LexOp(op: Op, rest: string, prev: Token)
    requires Prec(prev) > 5 && !StartsEqual(rest)
    ensures Lex(OpText(op) + rest, Some(prev)) == Join([Infix(op)], Lex(rest, Some(Infix(op))))
    ensures Delimited(OpText(op) + rest) && !StartsBlank(OpText(op) + rest)
  {
    if IsPair(op) {
      LexPair(op, rest, Some(prev));
    } else {
      LexSymbol(OpText(op)[0], rest, Some(prev));
      assert OpText(op) == [OpText(op)[0]];
    }
  }

  // ----- the comparisons that are not recorded -----

  datatype Lost = AtMost | AtLeast

  function LostText(c: Lost): string { if c == AtMost then "<=" else ">=" }

  lemma LexLost(c: Lost, rest: string, prev: Option<Token>)
    ensures Lex(LostText(c) + rest, prev) == Lex(rest, prev)
    ensures Delimited(LostText(c) + rest) && !StartsBlank(LostText(c) + rest)
  {
    var s := LostText(c) + rest;
    assert s[0] == LostText(c)[0] && s[1] == '=' && s[2..] == rest;
    assert Run(Digits, s) == 0 && Starts(s, LostText(c)) && !Starts(s, "==");
    assert RuleAt(s) == Some((if c == AtMost then LessEqual else GreaterEqual, 2));
    LexIs(s, prev);
  }
}
